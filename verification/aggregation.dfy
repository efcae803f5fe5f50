/** The dashboard's per-pincode summary (app.py, after the year filter): one
    row per pincode with its customer count, the median coordinate, the most
    common city and state, the share of all customers in the view, sorted by
    count. */
module Aggregation {
  import opened Seqs
  import opened Dashboard

  // ---------------------------------------------------------------------
  // Median of a non-empty column.

  predicate NonDecreasing(s: seq<real>) {
    forall i, j :: 0 <= i < j < |s| ==> s[i] <= s[j]
  }

  lemma ConsSorted(x: real, s: seq<real>)
    requires NonDecreasing(s)
    requires forall k :: 0 <= k < |s| ==> x <= s[k]
    ensures NonDecreasing([x] + s)
  {
    var r := [x] + s;
    forall i, j | 0 <= i < j < |r| ensures r[i] <= r[j] {
      assert r[j] == s[j - 1];
      if i > 0 {
        assert r[i] == s[i - 1];
      }
    }
  }

  /** Places x before the first element not smaller than it. */
  function InsertReal(x: real, s: seq<real>): (r: seq<real>)
    ensures |r| == |s| + 1
  {
    if s == [] || x <= s[0] then [x] + s else [s[0]] + InsertReal(x, s[1..])
  }

  lemma {:induction false} InsertRealPermutation(x: real, s: seq<real>)
    ensures multiset(InsertReal(x, s)) == multiset(s) + multiset{x}
  {
    if s != [] && x > s[0] {
      InsertRealPermutation(x, s[1..]);
      assert s == [s[0]] + s[1..];
    }
  }

  lemma {:induction false} InsertRealSorted(x: real, s: seq<real>)
    requires NonDecreasing(s)
    ensures NonDecreasing(InsertReal(x, s))
  {
    if s == [] || x <= s[0] {
      ConsSorted(x, s);
    } else {
      var rest := InsertReal(x, s[1..]);
      InsertRealSorted(x, s[1..]);
      InsertRealPermutation(x, s[1..]);
      forall k | 0 <= k < |rest| ensures s[0] <= rest[k] {
        var y := rest[k];
        assert y in multiset(rest);
        if y != x {
          assert y in multiset(s[1..]);
          var m :| 0 <= m < |s[1..]| && s[1..][m] == y;
          assert s[m + 1] == y;
        }
      }
      ConsSorted(s[0], rest);
    }
  }

  /** The column in ascending order (insertion sort). */
  function SortReals(s: seq<real>): (r: seq<real>)
    ensures |r| == |s|
  {
    if s == [] then [] else InsertReal(s[0], SortReals(s[1..]))
  }

  /** The sorted column is in non-decreasing order. */
  lemma {:induction false} SortRealsSorted(s: seq<real>)
    ensures NonDecreasing(SortReals(s))
  {
    if s != [] {
      SortRealsSorted(s[1..]);
      InsertRealSorted(s[0], SortReals(s[1..]));
    }
  }

  /** The sorted column holds the same values as the column. */
  lemma {:induction false} SortRealsPermutation(s: seq<real>)
    ensures multiset(SortReals(s)) == multiset(s)
  {
    if s != [] {
      SortRealsPermutation(s[1..]);
      InsertRealPermutation(s[0], SortReals(s[1..]));
      assert s == [s[0]] + s[1..];
    }
  }

  /** The middle value of the sorted column, or the mean of the two middle
      values when the length is even. */
  function Median(s: seq<real>): real
    requires |s| > 0
  {
    var t := SortReals(s);
    var n := |t|;
    if n % 2 == 1 then t[n / 2] else (t[n / 2 - 1] + t[n / 2]) / 2.0
  }

  function Min(s: seq<real>): (m: real)
    requires |s| > 0
    ensures m in s
    ensures forall x :: x in s ==> m <= x
  {
    if |s| == 1 then s[0]
    else
      var rest := Min(s[1..]);
      assert forall x :: x in s ==> x == s[0] || x in s[1..];
      if s[0] <= rest then s[0] else rest
  }

  function Max(s: seq<real>): (m: real)
    requires |s| > 0
    ensures m in s
    ensures forall x :: x in s ==> x <= m
  {
    if |s| == 1 then s[0]
    else
      var rest := Max(s[1..]);
      assert forall x :: x in s ==> x == s[0] || x in s[1..];
      if s[0] >= rest then s[0] else rest
  }

  lemma SortedElementIn(s: seq<real>, k: int)
    requires 0 <= k < |s|
    ensures SortReals(s)[k] in s
  {
    var t := SortReals(s);
    SortRealsPermutation(s);
    assert t[k] in multiset(t);
  }

  /** The median lies between the smallest and the largest value. */
  lemma MedianWithinRange(s: seq<real>)
    requires |s| > 0
    ensures Min(s) <= Median(s) <= Max(s)
  {
    var t := SortReals(s);
    var n := |t|;
    var lo, hi := Min(s), Max(s);
    SortedElementIn(s, n / 2);
    assert lo <= t[n / 2] <= hi;
    if n % 2 == 0 {
      SortedElementIn(s, n / 2 - 1);
      AverageBetween(t[n / 2 - 1], t[n / 2], lo, hi);
    }
  }

  lemma AverageBetween(a: real, b: real, lo: real, hi: real)
    requires lo <= a <= hi && lo <= b <= hi
    ensures lo <= (a + b) / 2.0 <= hi
  {
  }

  /** When every value is the same, the median is that value. */
  lemma MedianOfConstant(s: seq<real>, c: real)
    requires |s| > 0
    requires forall x :: x in s ==> x == c
    ensures Median(s) == c
  {
    var n := |s|;
    SortedElementIn(s, n / 2);
    if n % 2 == 0 {
      SortedElementIn(s, n / 2 - 1);
    }
  }

  // ---------------------------------------------------------------------
  // Most common value. pandas' Series.mode() ignores nulls and lists the
  // most frequent values in ascending order (Seqs.StrLt); [0] takes the
  // first.

  /** The non-null values, in order. */
  function NonNull(vals: seq<Option<string>>): (r: seq<string>)
    ensures forall v :: multiset(r)[v] == multiset(vals)[Some(v)]
  {
    if vals == [] then []
    else
      assert vals == [vals[0]] + vals[1..];
      (if vals[0].Some? then [vals[0].value] else []) + NonNull(vals[1..])
  }

  /** The first candidate whose frequency is largest. */
  function MostFrequent(cands: seq<string>, freq: multiset<string>): (r: string)
    requires |cands| > 0
    ensures forall c :: c in cands ==> freq[c] <= freq[r]
    ensures exists k :: 0 <= k < |cands| && cands[k] == r && forall i :: 0 <= i < k ==> freq[cands[i]] < freq[r]
  {
    if |cands| == 1 then cands[0]
    else
      var rest := MostFrequent(cands[1..], freq);
      assert forall c :: c in cands ==> c == cands[0] || c in cands[1..];
      if freq[cands[0]] >= freq[rest] then
        cands[0]
      else
        var k :| 0 <= k < |cands[1..]| && cands[1..][k] == rest && forall i :: 0 <= i < k ==> freq[cands[1..][i]] < freq[rest];
        assert cands[k + 1] == rest;
        assert forall i :: 0 <= i < k + 1 ==> freq[cands[i]] < freq[rest] by {
          forall i | 0 <= i < k + 1 ensures freq[cands[i]] < freq[rest] {
            if i > 0 {
              assert cands[i] == cands[1..][i - 1];
            }
          }
        }
        rest
  }

  /** x.mode()[0] when the mode is non-empty, else x.iloc[0]. */
  function Mode(vals: seq<Option<string>>): Option<string>
    requires |vals| > 0
  {
    var present := NonNull(vals);
    if present == [] then vals[0]
    else
      StrLtIsStrictOrder();
      Some(MostFrequent(SortedUnique(present, StrLt), multiset(present)))
  }

  lemma NonNullMembership(vals: seq<Option<string>>, v: string)
    ensures v in NonNull(vals) <==> Some(v) in vals
  {
    assert v in NonNull(vals) <==> v in multiset(NonNull(vals));
    assert Some(v) in vals <==> Some(v) in multiset(vals);
  }

  /** The mode is a most frequent non-null value, the least of them in code
      point order; with no non-null value it is null. */
  lemma ModeIsMostFrequent(vals: seq<Option<string>>)
    requires |vals| > 0
    ensures (forall i :: 0 <= i < |vals| ==> vals[i].None?) ==> Mode(vals) == None
    ensures (exists i :: 0 <= i < |vals| && vals[i].Some?) ==>
      && Mode(vals).Some?
      && Mode(vals) in vals
      && (forall v :: multiset(vals)[Some(v)] <= multiset(vals)[Mode(vals)])
      && (forall v :: v != Mode(vals).value && multiset(vals)[Some(v)] == multiset(vals)[Mode(vals)]
                      ==> StrLt(Mode(vals).value, v))
  {
    var present := NonNull(vals);
    if forall i :: 0 <= i < |vals| ==> vals[i].None? {
    } else {
      var i :| 0 <= i < |vals| && vals[i].Some?;
      NonNullMembership(vals, vals[i].value);
      ModeOfPresent(vals);
    }
  }

  /** Among ascending candidates, the value MostFrequent picks is the least
      of those sharing its frequency. */
  lemma MostFrequentLeastOfTies(cands: seq<string>, freq: multiset<string>, v: string)
    requires |cands| > 0 && Ascending(cands, StrLt)
    requires v in cands && v != MostFrequent(cands, freq) && freq[v] == freq[MostFrequent(cands, freq)]
    ensures StrLt(MostFrequent(cands, freq), v)
  {
    var m := MostFrequent(cands, freq);
    var k :| 0 <= k < |cands| && cands[k] == m && forall i :: 0 <= i < k ==> freq[cands[i]] < freq[m];
    var j :| 0 <= j < |cands| && cands[j] == v;
    TieComesLater(cands, freq, k, j);
  }

  /** In an ascending candidate list, a value as frequent as the first
      most frequent one, at position k, sits after it. */
  lemma TieComesLater(cands: seq<string>, freq: multiset<string>, k: int, j: int)
    requires Ascending(cands, StrLt)
    requires 0 <= k < |cands| && forall i :: 0 <= i < k ==> freq[cands[i]] < freq[cands[k]]
    requires 0 <= j < |cands| && cands[j] != cands[k] && freq[cands[j]] == freq[cands[k]]
    ensures StrLt(cands[k], cands[j])
  {
    assert j < k ==> freq[cands[j]] < freq[cands[k]];
  }

  lemma ModeOfPresent(vals: seq<Option<string>>)
    requires |vals| > 0 && NonNull(vals) != []
    ensures Mode(vals).Some?
    ensures Mode(vals) in vals
    ensures forall v :: multiset(vals)[Some(v)] <= multiset(vals)[Mode(vals)]
    ensures forall v :: v != Mode(vals).value && multiset(vals)[Some(v)] == multiset(vals)[Mode(vals)]
                        ==> StrLt(Mode(vals).value, v)
  {
    var present := NonNull(vals);
    StrLtIsStrictOrder();
    var cands := SortedUnique(present, StrLt);
    var freq := multiset(present);
    var m := MostFrequent(cands, freq);
    assert Mode(vals) == Some(m);
    NonNullMembership(vals, m);
    forall v ensures multiset(vals)[Some(v)] <= multiset(vals)[Some(m)] {
      if v in present {
        assert v in cands;
      } else {
        assert v !in multiset(present);
      }
    }
    forall v | v != m && multiset(vals)[Some(v)] == multiset(vals)[Some(m)]
      ensures StrLt(m, v)
    {
      assert v in multiset(present);
      MostFrequentLeastOfTies(cands, freq, v);
    }
  }

  // ---------------------------------------------------------------------
  // The per-pincode summary.

  datatype Summary = Summary(
    pincode: int,
    customerCount: nat,
    latitude: real,
    longitude: real,
    city: Option<string>,
    state: Option<string>,
    percentage: real)

  function PinOf(x: Located): int { x.pincode }
  function CountOf(s: Summary): int { s.customerCount }

  function Pins(view: seq<Located>): (r: seq<int>)
    ensures |r| == |view| && forall i :: 0 <= i < |view| ==> r[i] == view[i].pincode
  {
    seq(|view|, i requires 0 <= i < |view| => view[i].pincode)
  }

  /** The pincode column of the summary table. Each table keeps its own typed
      column projection, with an element-wise ensures, rather than sharing a
      higher-order map. */
  function SummaryPins(ss: seq<Summary>): (r: seq<int>)
    ensures |r| == |ss| && forall i :: 0 <= i < |ss| ==> r[i] == ss[i].pincode
  {
    seq(|ss|, i requires 0 <= i < |ss| => ss[i].pincode)
  }

  function Lats(g: seq<Located>): (r: seq<real>)
    ensures |r| == |g| && forall i :: 0 <= i < |g| ==> r[i] == g[i].latitude
  {
    seq(|g|, i requires 0 <= i < |g| => g[i].latitude)
  }

  function Lons(g: seq<Located>): (r: seq<real>)
    ensures |r| == |g| && forall i :: 0 <= i < |g| ==> r[i] == g[i].longitude
  {
    seq(|g|, i requires 0 <= i < |g| => g[i].longitude)
  }

  function Cities(g: seq<Located>): (r: seq<Option<string>>)
    ensures |r| == |g| && forall i :: 0 <= i < |g| ==> r[i] == g[i].city
  {
    seq(|g|, i requires 0 <= i < |g| => g[i].city)
  }

  function States(g: seq<Located>): (r: seq<Option<string>>)
    ensures |r| == |g| && forall i :: 0 <= i < |g| ==> r[i] == g[i].state
  {
    seq(|g|, i requires 0 <= i < |g| => g[i].state)
  }

  /** The summary of the rows of view with pincode p. */
  function SummaryOf(view: seq<Located>, p: int): Summary
    requires p in Pins(view)
  {
    GroupOfPin(view, p);
    var g := Group(view, PinOf, p);
    Summary(p, |g|, Median(Lats(g)), Median(Lons(g)), Mode(Cities(g)), Mode(States(g)),
            (|g| as real) / (|view| as real) * 100.0)
  }

  function Summaries(view: seq<Located>, ps: seq<int>): (r: seq<Summary>)
    requires forall p :: p in ps ==> p in Pins(view)
    ensures |r| == |ps|
    ensures forall i :: 0 <= i < |ps| ==> r[i] == SummaryOf(view, ps[i])
  {
    seq(|ps|, i requires 0 <= i < |ps| => SummaryOf(view, ps[i]))
  }

  /** pincode_summary: group by pincode (keys ascending), then sort by
      customer_count descending. */
  function Summarize(view: seq<Located>): seq<Summary> {
    IntLtIsStrictOrder();
    SortDesc(Summaries(view, SortedUnique(Pins(view), IntLt)), CountOf)
  }

  /** Every summary row is the summary of its own pincode's group. */
  lemma SummarizeRows(view: seq<Located>, s: Summary)
    requires s in Summarize(view)
    ensures s.pincode in Pins(view)
    ensures s == SummaryOf(view, s.pincode)
  {
    IntLtIsStrictOrder();
    var ps := SortedUnique(Pins(view), IntLt);
    var u := Summaries(view, ps);
    assert s in multiset(Summarize(view));
    assert s in u;
    var k :| 0 <= k < |u| && u[k] == s;
  }

  /** There is exactly one summary row per distinct pincode of the view. */
  lemma SummarizeOnePerPincode(view: seq<Located>)
    ensures forall p :: p in SummaryPins(Summarize(view)) <==> p in Pins(view)
    ensures NoDuplicates(SummaryPins(Summarize(view)))
  {
    IntLtIsStrictOrder();
    var ps := SortedUnique(Pins(view), IntLt);
    var u := Summaries(view, ps);
    var r := Summarize(view);
    var rp := SummaryPins(r);
    AscendingNoDuplicates(ps, IntLt);
    assert NoDuplicates(u) by {
      forall i, j | 0 <= i < j < |u| ensures u[i] != u[j] {
        assert u[i].pincode == ps[i] && u[j].pincode == ps[j];
      }
    }
    PermutationNoDuplicates(u, r);
    forall p | p in Pins(view) ensures p in rp {
      var k :| 0 <= k < |ps| && ps[k] == p;
      assert u[k] in multiset(r);
      var j :| 0 <= j < |r| && r[j] == u[k];
      assert rp[j] == p;
    }
    forall p | p in rp ensures p in Pins(view) {
      var j :| 0 <= j < |rp| && rp[j] == p;
      SummarizeRows(view, r[j]);
    }
    forall i, j | 0 <= i < j < |rp| ensures rp[i] != rp[j] {
      SummarizeRows(view, r[i]);
      SummarizeRows(view, r[j]);
    }
  }

  /** A pincode's group is non-empty and holds exactly its rows. */
  lemma GroupOfPin(view: seq<Located>, p: int)
    requires p in Pins(view)
    ensures |Group(view, PinOf, p)| >= 1
    ensures forall x :: x in Group(view, PinOf, p) <==> x in view && x.pincode == p
  {
    var i :| 0 <= i < |view| && Pins(view)[i] == p;
    assert view[i] in Group(view, PinOf, p);
  }

  /** Each row's count is the size of its pincode's group and at least one;
      its coordinate is the group median, inside the group's range; its
      city and state are the group's modes. */
  lemma SummarizeRowContents(view: seq<Located>, s: Summary)
    requires s in Summarize(view)
    ensures var g := Group(view, PinOf, s.pincode);
      && |g| >= 1
      && (forall x :: x in g <==> x in view && x.pincode == s.pincode)
      && s.customerCount == |g|
      && s.latitude == Median(Lats(g)) && Min(Lats(g)) <= s.latitude <= Max(Lats(g))
      && s.longitude == Median(Lons(g)) && Min(Lons(g)) <= s.longitude <= Max(Lons(g))
      && s.city == Mode(Cities(g))
      && s.state == Mode(States(g))
  {
    SummarizeRows(view, s);
    GroupOfPin(view, s.pincode);
    var g := Group(view, PinOf, s.pincode);
    MedianWithinRange(Lats(g));
    MedianWithinRange(Lons(g));
  }

  lemma SummariesCountTotal(view: seq<Located>, ps: seq<int>)
    requires forall p :: p in ps ==> p in Pins(view)
    ensures SumBy(Summaries(view, ps), CountOf) == GroupSizes(view, PinOf, ps)
  {
    var u := Summaries(view, ps);
    var size := (p: int) => |Group(view, PinOf, p)|;
    forall i | 0 <= i < |u| ensures CountOf(u[i]) == size(ps[i]) {
      SummaryCount(view, ps[i]);
    }
    SumByPointwise(u, CountOf, ps, size);
    GroupSizesAsSum(view, PinOf, ps, size);
  }

  lemma SummaryCount(view: seq<Located>, p: int)
    requires p in Pins(view)
    ensures CountOf(SummaryOf(view, p)) == |Group(view, PinOf, p)|
  {
  }

  /** The counts add up to the number of rows in the view. */
  lemma SummarizeTotal(view: seq<Located>)
    ensures SumBy(Summarize(view), CountOf) == |view|
  {
    IntLtIsStrictOrder();
    var ps := SortedUnique(Pins(view), IntLt);
    var u := Summaries(view, ps);
    SumByPermutation(u, Summarize(view), CountOf);
    SummariesCountTotal(view, ps);
    AscendingNoDuplicates(ps, IntLt);
    forall x | x in view ensures PinOf(x) in ps {
      var i :| 0 <= i < |view| && view[i] == x;
      assert Pins(view)[i] == x.pincode;
    }
    GroupsPartition(view, PinOf, ps);
  }

  function TotalPercentage(ss: seq<Summary>): real {
    if ss == [] then 0.0 else ss[0].percentage + TotalPercentage(ss[1..])
  }

  lemma {:induction false} TotalPercentageOfShares(ss: seq<Summary>, total: nat)
    requires total > 0
    requires forall s :: s in ss ==> s.percentage == (s.customerCount as real) / (total as real) * 100.0
    ensures TotalPercentage(ss) == (SumBy(ss, CountOf) as real) / (total as real) * 100.0
  {
    if ss != [] {
      assert ss[0] in ss;
      assert forall s :: s in ss[1..] ==> s in ss;
      TotalPercentageOfShares(ss[1..], total);
      SharesAdd(ss[0].customerCount as real, SumBy(ss[1..], CountOf) as real, total as real);
    }
  }

  lemma SharesAdd(a: real, b: real, t: real)
    requires t > 0.0
    ensures a / t * 100.0 + b / t * 100.0 == (a + b) / t * 100.0
  {
  }

  lemma ShareBounds(c: real, t: real)
    requires 0.0 < c <= t
    ensures 0.0 < c / t * 100.0 <= 100.0
  {
    assert c / t <= 1.0 by {
      assert c / t * t == c;
    }
  }

  lemma SummarizeEmpty(view: seq<Located>)
    requires view == []
    ensures Summarize(view) == []
  {
    IntLtIsStrictOrder();
    assert SortedUnique(Pins(view), IntLt) == [];
  }

  lemma SummaryShare(view: seq<Located>, s: Summary)
    requires s in Summarize(view)
    ensures s.percentage == (s.customerCount as real) / (|view| as real) * 100.0
    ensures 0.0 < s.percentage <= 100.0
  {
    SummarizeRows(view, s);
    GroupOfPin(view, s.pincode);
    var g := Group(view, PinOf, s.pincode);
    ShareBounds(|g| as real, |view| as real);
  }

  lemma PercentagesAddUp(ss: seq<Summary>, total: nat)
    requires total > 0 && SumBy(ss, CountOf) == total
    requires forall s :: s in ss ==> s.percentage == (s.customerCount as real) / (total as real) * 100.0
    ensures TotalPercentage(ss) == 100.0
  {
    TotalPercentageOfShares(ss, total);
    var t := total as real;
    assert t / t == 1.0;
  }

  /** Each share is count / total * 100, in (0, 100]; over a non-empty view
      the shares add up to 100. An empty view has no summary rows. */
  lemma SummarizePercentages(view: seq<Located>)
    ensures view == [] ==> Summarize(view) == []
    ensures forall s :: s in Summarize(view) ==>
      && s.percentage == (s.customerCount as real) / (|view| as real) * 100.0
      && 0.0 < s.percentage <= 100.0
    ensures view != [] ==> TotalPercentage(Summarize(view)) == 100.0
  {
    var r := Summarize(view);
    if view == [] {
      SummarizeEmpty(view);
    } else {
      forall s | s in r
        ensures s.percentage == (s.customerCount as real) / (|view| as real) * 100.0
        ensures 0.0 < s.percentage <= 100.0
      {
        SummaryShare(view, s);
      }
      SummarizeTotal(view);
      PercentagesAddUp(r, |view|);
    }
  }

  /** The summary is ordered by non-increasing customer count. */
  lemma SummarizeOrdered(view: seq<Located>)
    ensures forall i, j :: 0 <= i < j < |Summarize(view)| ==>
      Summarize(view)[i].customerCount >= Summarize(view)[j].customerCount
  {
    assert NonIncreasing(Summarize(view), CountOf);
  }

  /** The whole dashboard query: load, filter by year, summarize. */
  function DashboardSummary(rows: seq<Records.RawAddress>, cache: seq<Records.CacheRow>, selected: Option<int>): seq<Summary> {
    Summarize(FilterYear(LoadData(rows, cache), selected))
  }

  /** With one cache row per pincode and 'All Years', the counts add up to
      the number of input rows whose pincode parses and resolves in the
      cache to a coordinate. */
  lemma DashboardCountsResolvedRows(rows: seq<Records.RawAddress>, cache: seq<Records.CacheRow>)
    requires UniqueKeys(cache, Records.CachePin)
    ensures SumBy(DashboardSummary(rows, cache, None), CountOf) == CountSome(rows, r => ResolveRow(r, cache))
  {
    LoadDataWithUniqueKeys(rows, cache);
    SummarizeTotal(LoadData(rows, cache));
  }

  /** With one cache row per pincode and a selected year, the counts add up
      to the number of input rows of that year whose pincode parses and
      resolves in the cache to a coordinate. */
  lemma DashboardCountsInYear(rows: seq<Records.RawAddress>, cache: seq<Records.CacheRow>, y: int)
    requires UniqueKeys(cache, Records.CachePin)
    ensures SumBy(DashboardSummary(rows, cache, Some(y)), CountOf) == CountSome(rows, r => ResolveInYear(r, cache, y))
  {
    YearViewWithUniqueKeys(rows, cache, y);
    SummarizeTotal(FilterYear(LoadData(rows, cache), Some(y)));
  }
}
