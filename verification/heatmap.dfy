/** The legacy heatmap aggregation (create_heatmap.py): clean the address
    pincodes and the pincode reference table, left-join them (the reference
    may hold several rows per pincode, so a row can be multiplied), drop rows
    without coordinates, count rows per (latitude, longitude) pair, and pick
    the ten largest (city, pincode, latitude, longitude) groups. */
module Heatmap {
  import opened Seqs
  import opened Records

  /** One row of the pincode reference table as read: Pincode, Latitude and
      Longitude after numeric coercion, and the descriptive columns. */
  datatype RefRow = RefRow(
    pincode: Option<int>,
    latitude: Option<real>,
    longitude: Option<real>,
    officeName: Option<string>,
    district: Option<string>,
    stateName: Option<string>)

  /** A reference row whose pincode and coordinates all parsed. */
  datatype RefEntry = RefEntry(
    pincode: int,
    latitude: real,
    longitude: real,
    officeName: Option<string>,
    district: Option<string>,
    stateName: Option<string>)

  function ParseRef(r: RefRow): Option<RefEntry> {
    if r.pincode.Some? && r.latitude.Some? && r.longitude.Some? then
      Some(RefEntry(r.pincode.value, r.latitude.value, r.longitude.value, r.officeName, r.district, r.stateName))
    else None
  }

  function RefPin(e: RefEntry): int { e.pincode }

  /** Coerce the reference columns and drop rows missing any of the three. */
  function CleanReference(rows: seq<RefRow>): (r: seq<RefEntry>)
    ensures |r| <= |rows|
  {
    FilterMap(rows, ParseRef)
  }

  /** A reference row survives cleaning exactly when pincode, latitude and
      longitude all parsed. */
  lemma CleanReferenceMembership(rows: seq<RefRow>, e: RefEntry)
    ensures e in CleanReference(rows) <==>
      RefRow(Some(e.pincode), Some(e.latitude), Some(e.longitude), e.officeName, e.district, e.stateName) in rows
  {
    FilterMapMembership(rows, ParseRef, e);
    var raw := RefRow(Some(e.pincode), Some(e.latitude), Some(e.longitude), e.officeName, e.district, e.stateName);
    if raw in rows {
      var i :| 0 <= i < |rows| && rows[i] == raw;
      assert ParseRef(rows[i]) == Some(e);
    }
  }

  /** A merged row that has coordinates. */
  datatype Placed = Placed(pincode: int, city: Option<string>, latitude: real, longitude: real)

  /** Keep a joined row when it matched; reference rows always carry both
      coordinates, so "has coordinates" and "matched" coincide. */
  function Place(j: (Address, Option<RefEntry>)): Option<Placed> {
    match j.1
    case None => None
    case Some(e) => Some(Placed(j.0.pincode, j.0.city, e.latitude, e.longitude))
  }

  /** The merged rows with coordinates. */
  function Mapped(addresses: seq<RawAddress>, reference: seq<RefRow>): seq<Placed> {
    FilterMap(LeftJoin(CleanPins(addresses), CleanReference(reference), AddressPin, RefPin), Place)
  }

  /** The reference rows matching one address row. */
  function Matches(a: Address, ref: seq<RefEntry>): nat {
    |Group(ref, RefPin, a.pincode)|
  }

  /** Every address row contributes one mapped row per matching reference
      row, and none when nothing matches. */
  lemma {:induction false} MappedCount(left: seq<Address>, ref: seq<RefEntry>)
    ensures |FilterMap(LeftJoin(left, ref, AddressPin, RefPin), Place)|
         == SumBy(left, a => Matches(a, ref))
  {
    if left != [] {
      var a := left[0];
      var one := JoinOne(a, ref, AddressPin, RefPin);
      var rest := LeftJoin(left[1..], ref, AddressPin, RefPin);
      MappedCount(left[1..], ref);
      FilterMapConcat(one, rest, Place);
      var m := Group(ref, RefPin, a.pincode);
      if m == [] {
        assert FilterMap(one, Place) == [];
      } else {
        FilterMapAllSome(one, Place);
      }
    }
  }

  /** One address row's mapped rows: its pincode and city with the
      coordinates of each matching reference row, in reference order. */
  lemma MappedOne(a: Address, ref: seq<RefEntry>)
    ensures var m := Group(ref, RefPin, a.pincode);
      FilterMap(JoinOne(a, ref, AddressPin, RefPin), Place)
        == seq(|m|, i requires 0 <= i < |m| => Placed(a.pincode, a.city, m[i].latitude, m[i].longitude))
  {
    var m := Group(ref, RefPin, a.pincode);
    var one := JoinOne(a, ref, AddressPin, RefPin);
    if m != [] {
      FilterMapAllSome(one, Place);
    }
  }

  /** Mapping is row by row over the address table. */
  lemma MappedConcat(s: seq<RawAddress>, t: seq<RawAddress>, reference: seq<RefRow>)
    ensures Mapped(s + t, reference) == Mapped(s, reference) + Mapped(t, reference)
  {
    var ref := CleanReference(reference);
    CleanPinsConcat(s, t);
    LeftJoinConcat(CleanPins(s), CleanPins(t), ref, AddressPin, RefPin);
    FilterMapConcat(LeftJoin(CleanPins(s), ref, AddressPin, RefPin), LeftJoin(CleanPins(t), ref, AddressPin, RefPin), Place);
  }

  /** A mapped row is a matching pair: an address row and a reference row
      with its pincode, giving the address's pincode and city and the
      reference row's coordinates. */
  predicate MatchedPair(x: Placed, a: Address, e: RefEntry) {
    e.pincode == a.pincode && x == Placed(a.pincode, a.city, e.latitude, e.longitude)
  }

  /** One address row's mapped rows are its matching pairs. */
  lemma OneMembership(a: Address, ref: seq<RefEntry>, x: Placed)
    ensures x in FilterMap(JoinOne(a, ref, AddressPin, RefPin), Place) <==> exists e :: e in ref && MatchedPair(x, a, e)
  {
    var one := FilterMap(JoinOne(a, ref, AddressPin, RefPin), Place);
    var m := Group(ref, RefPin, a.pincode);
    MappedOne(a, ref);
    if x in one {
      var i :| 0 <= i < |one| && one[i] == x;
      assert m[i] in m;
      assert MatchedPair(x, a, m[i]);
    }
    if exists e :: e in ref && MatchedPair(x, a, e) {
      var e :| e in ref && MatchedPair(x, a, e);
      assert e in m;
      var i :| 0 <= i < |m| && m[i] == e;
      assert one[i] == x;
    }
  }

  lemma {:induction false} JoinedMembership(left: seq<Address>, ref: seq<RefEntry>, x: Placed)
    ensures x in FilterMap(LeftJoin(left, ref, AddressPin, RefPin), Place)
        <==> exists a, e :: a in left && e in ref && MatchedPair(x, a, e)
  {
    if left != [] {
      var a := left[0];
      FilterMapConcat(JoinOne(a, ref, AddressPin, RefPin), LeftJoin(left[1..], ref, AddressPin, RefPin), Place);
      JoinedMembership(left[1..], ref, x);
      OneMembership(a, ref, x);
      assert forall b :: b in left <==> b == a || b in left[1..];
    }
  }

  /** The rows with coordinates are exactly the matching pairs of a cleaned
      address row and a cleaned reference row. */
  lemma MappedMembership(addresses: seq<RawAddress>, reference: seq<RefRow>, x: Placed)
    ensures x in Mapped(addresses, reference) <==>
      exists a, e :: a in CleanPins(addresses) && e in CleanReference(reference) && MatchedPair(x, a, e)
  {
    JoinedMembership(CleanPins(addresses), CleanReference(reference), x);
  }

  /** A location of the count table is the coordinate pair of a cleaned
      reference row whose pincode some cleaned address row carries. */
  lemma MappedLocations(addresses: seq<RawAddress>, reference: seq<RefRow>, c: (real, real))
    ensures c in Locations(Mapped(addresses, reference)) <==>
      exists a, e :: a in CleanPins(addresses) && e in CleanReference(reference)
                     && e.pincode == a.pincode && c == (e.latitude, e.longitude)
  {
    var rows := Mapped(addresses, reference);
    if c in Coords(rows) {
      var k :| 0 <= k < |rows| && Coords(rows)[k] == c;
      MappedMembership(addresses, reference, rows[k]);
    }
    if exists a, e :: a in CleanPins(addresses) && e in CleanReference(reference)
                      && e.pincode == a.pincode && c == (e.latitude, e.longitude) {
      var a, e :| a in CleanPins(addresses) && e in CleanReference(reference)
                  && e.pincode == a.pincode && c == (e.latitude, e.longitude);
      var x := Placed(a.pincode, a.city, e.latitude, e.longitude);
      MappedMembership(addresses, reference, x);
      assert MatchedPair(x, a, e);
      var k :| 0 <= k < |rows| && rows[k] == x;
      assert Coords(rows)[k] == c;
    }
  }

  /** The rows with coordinates number, over the cleaned address rows, the
      matching cleaned reference rows of each: unmatched rows vanish and a
      pincode listed k times in the reference multiplies its rows by k. */
  lemma MappedRows(addresses: seq<RawAddress>, reference: seq<RefRow>)
    ensures |Mapped(addresses, reference)| == SumBy(CleanPins(addresses), a => Matches(a, CleanReference(reference)))
  {
    MappedCount(CleanPins(addresses), CleanReference(reference));
  }

  /** The coordinate pair of a mapped row. */
  function CoordOf(x: Placed): (real, real) { (x.latitude, x.longitude) }

  /** Order of the groupby keys: by latitude, then longitude. */
  predicate PairLt(a: (real, real), b: (real, real)) {
    a.0 < b.0 || (a.0 == b.0 && a.1 < b.1)
  }

  lemma PairLtIsStrictOrder()
    ensures StrictOrder(PairLt)
  {
  }

  function Coords(rows: seq<Placed>): (r: seq<(real, real)>)
    ensures |r| == |rows|
    ensures forall i :: 0 <= i < |rows| ==> r[i] == CoordOf(rows[i])
  {
    seq(|rows|, i requires 0 <= i < |rows| => CoordOf(rows[i]))
  }

  /** One location_counts row: a coordinate pair and how many rows sit there. */
  datatype LocationCount = LocationCount(latitude: real, longitude: real, count: nat)

  function CountsAt(rows: seq<Placed>, pairs: seq<(real, real)>): (r: seq<LocationCount>)
    ensures |r| == |pairs|
  {
    if pairs == [] then []
    else [LocationCount(pairs[0].0, pairs[0].1, |Group(rows, CoordOf, pairs[0])|)] + CountsAt(rows, pairs[1..])
  }

  /** The distinct coordinate pairs, in key order. */
  function Locations(rows: seq<Placed>): (r: seq<(real, real)>)
    ensures Ascending(r, PairLt)
    ensures forall c :: c in r <==> c in Coords(rows)
  {
    PairLtIsStrictOrder();
    SortedUnique(Coords(rows), PairLt)
  }

  /** groupby(['Latitude', 'Longitude']).size(). */
  function LocationCounts(rows: seq<Placed>): seq<LocationCount> {
    CountsAt(rows, Locations(rows))
  }

  function CountOfLocation(c: LocationCount): int { c.count }

  lemma {:induction false} CountsAtTotal(rows: seq<Placed>, pairs: seq<(real, real)>)
    ensures SumBy(CountsAt(rows, pairs), CountOfLocation) == GroupSizes(rows, CoordOf, pairs)
  {
    if pairs != [] {
      CountsAtTotal(rows, pairs[1..]);
    }
  }

  /** One location_counts row per distinct pair, with the number of rows at
      that pair, which is at least one. */
  lemma LocationCountsRows(rows: seq<Placed>)
    ensures var lc := LocationCounts(rows);
      && (forall i, j :: 0 <= i < j < |lc| ==> (lc[i].latitude, lc[i].longitude) != (lc[j].latitude, lc[j].longitude))
      && (forall c :: c in Coords(rows) <==> exists i :: 0 <= i < |lc| && (lc[i].latitude, lc[i].longitude) == c)
      && (forall i :: 0 <= i < |lc| ==>
            lc[i].count == |Group(rows, CoordOf, (lc[i].latitude, lc[i].longitude))| && lc[i].count >= 1)
  {
    var pairs := Locations(rows);
    var lc := LocationCounts(rows);
    PairLtIsStrictOrder();
    AscendingNoDuplicates(pairs, PairLt);
    CountsAtEntries(rows, pairs);
    forall i | 0 <= i < |lc| ensures lc[i].count >= 1 {
      assert pairs[i] in Coords(rows);
      var k :| 0 <= k < |Coords(rows)| && Coords(rows)[k] == pairs[i];
      assert rows[k] in Group(rows, CoordOf, pairs[i]);
    }
  }

  lemma {:induction false} CountsAtEntries(rows: seq<Placed>, pairs: seq<(real, real)>)
    ensures forall i :: 0 <= i < |pairs| ==>
      CountsAt(rows, pairs)[i] == LocationCount(pairs[i].0, pairs[i].1, |Group(rows, CoordOf, pairs[i])|)
  {
    if pairs != [] {
      CountsAtEntries(rows, pairs[1..]);
    }
  }

  /** The counts add up to the number of rows with coordinates. */
  lemma LocationCountsTotal(rows: seq<Placed>)
    ensures SumBy(LocationCounts(rows), CountOfLocation) == |rows|
  {
    var pairs := Locations(rows);
    PairLtIsStrictOrder();
    AscendingNoDuplicates(pairs, PairLt);
    CountsAtTotal(rows, pairs);
    forall x | x in rows ensures CoordOf(x) in pairs {
      var k :| 0 <= k < |rows| && rows[k] == x;
      assert Coords(rows)[k] == CoordOf(x);
    }
    GroupsPartition(rows, CoordOf, pairs);
  }

  // -----------------------------------------------------------------------
  // Top ten (city, pincode, latitude, longitude) groups.

  /** A top-locations key. Rows without a city have no key: groupby drops
      null keys. */
  datatype PlaceKey = PlaceKey(city: string, pincode: int, latitude: real, longitude: real)

  /** Lexicographic order of the group keys. */
  predicate KeyLt(a: PlaceKey, b: PlaceKey) {
    StrLt(a.city, b.city)
    || (a.city == b.city && (a.pincode < b.pincode
        || (a.pincode == b.pincode && PairLt((a.latitude, a.longitude), (b.latitude, b.longitude)))))
  }

  lemma KeyLtIsStrictOrder()
    ensures StrictOrder(KeyLt)
  {
    StrLtIsStrictOrder();
    forall a, b | a != b ensures KeyLt(a, b) || KeyLt(b, a) {
      if a.city == b.city && a.pincode == b.pincode {
        assert (a.latitude, a.longitude) != (b.latitude, b.longitude);
      }
    }
  }

  function KeyOf(x: Placed): Option<PlaceKey> {
    if x.city.Some? then Some(PlaceKey(x.city.value, x.pincode, x.latitude, x.longitude)) else None
  }

  /** The rows that carry a city, with their keys. */
  function Keys(rows: seq<Placed>): seq<PlaceKey> {
    FilterMap(rows, KeyOf)
  }

  /** One group of the top-locations table. */
  datatype PlaceCount = PlaceCount(key: PlaceKey, count: nat)

  function CountOfPlace(g: PlaceCount): int { g.count }

  function Identity(k: PlaceKey): PlaceKey { k }

  function PlaceCounts(keys: seq<PlaceKey>, ks: seq<PlaceKey>): (r: seq<PlaceCount>)
    ensures |r| == |ks|
    ensures forall i :: 0 <= i < |ks| ==> r[i] == PlaceCount(ks[i], |Group(keys, Identity, ks[i])|)
  {
    if ks == [] then [] else [PlaceCount(ks[0], |Group(keys, Identity, ks[0])|)] + PlaceCounts(keys, ks[1..])
  }

  /** groupby(['CPA_ADDR_CITY', 'CPA_PIN_CODE', 'Latitude', 'Longitude']).size(). */
  function PlaceGroups(rows: seq<Placed>): seq<PlaceCount> {
    KeyLtIsStrictOrder();
    PlaceCounts(Keys(rows), SortedUnique(Keys(rows), KeyLt))
  }

  /** The first ten, or all when there are fewer. */
  function Head<T>(s: seq<T>, n: nat): (r: seq<T>)
    ensures |r| == if |s| < n then |s| else n
    ensures forall i :: 0 <= i < |r| ==> r[i] == s[i]
  {
    if |s| <= n then s else s[..n]
  }

  /** sort_values('count', ascending=False).head(10). */
  function TopLocations(rows: seq<Placed>): seq<PlaceCount> {
    Head(SortDesc(PlaceGroups(rows), CountOfPlace), 10)
  }

  /** At most ten groups, largest first, each a real group with its true
      count, and no group left out is larger than one kept. */
  lemma TopLocationsSpec(rows: seq<Placed>)
    ensures var top := TopLocations(rows);
      var groups := PlaceGroups(rows);
      && |top| == (if |groups| < 10 then |groups| else 10)
      && NonIncreasing(top, CountOfPlace)
      && multiset(top) <= multiset(groups)
      && (forall g :: g in top ==> g in groups)
      && (forall g :: g in groups && g !in top ==> forall t :: t in top ==> g.count <= t.count)
  {
    HeadOfSorted(PlaceGroups(rows), CountOfPlace, 10);
  }

  /** The first n of a descending sort: largest first, drawn from the input
      without repeating any row, and nothing left out beats anything kept. */
  lemma HeadOfSorted<T>(groups: seq<T>, key: T -> int, n: nat)
    ensures var top := Head(SortDesc(groups, key), n);
      && |top| == (if |groups| < n then |groups| else n)
      && NonIncreasing(top, key)
      && multiset(top) <= multiset(groups)
      && (forall g :: g in top ==> g in groups)
      && (forall g :: g in groups && g !in top ==> forall t :: t in top ==> key(g) <= key(t))
  {
    HeadSortedPrefix(groups, key, n);
    HeadSubMultiset(groups, key, n);
    HeadKeepsLargest(groups, key, n);
  }

  /** The prefix keeps its length bound, its order and its rows. */
  lemma HeadSortedPrefix<T>(groups: seq<T>, key: T -> int, n: nat)
    ensures var top := Head(SortDesc(groups, key), n);
      && |top| == (if |groups| < n then |groups| else n)
      && NonIncreasing(top, key)
      && (forall g :: g in top ==> g in groups)
  {
    var sorted := SortDesc(groups, key);
    var top := Head(sorted, n);
    forall i, j | 0 <= i < j < |top| ensures key(top[i]) >= key(top[j]) {
      assert top[i] == sorted[i] && top[j] == sorted[j];
    }
    forall g | g in top ensures g in groups {
      var j :| 0 <= j < |top| && top[j] == g;
      assert sorted[j] == g;
      assert g in multiset(sorted);
    }
  }

  /** The prefix repeats no row more often than the input has it. */
  lemma HeadSubMultiset<T>(groups: seq<T>, key: T -> int, n: nat)
    ensures multiset(Head(SortDesc(groups, key), n)) <= multiset(groups)
  {
    var sorted := SortDesc(groups, key);
    var top := Head(sorted, n);
    PrefixSubMultiset(sorted, |top|);
    assert top == sorted[..|top|];
  }

  /** A row left out has a key no larger than any row kept. */
  lemma HeadKeepsLargest<T>(groups: seq<T>, key: T -> int, n: nat)
    ensures var top := Head(SortDesc(groups, key), n);
      forall g :: g in groups && g !in top ==> forall t :: t in top ==> key(g) <= key(t)
  {
    var sorted := SortDesc(groups, key);
    var top := Head(sorted, n);
    forall g, t | g in groups && g !in top && t in top ensures key(g) <= key(t) {
      assert g in multiset(sorted);
      var k :| 0 <= k < |sorted| && sorted[k] == g;
      var j :| 0 <= j < |top| && top[j] == t;
      assert sorted[j] == t;
    }
  }

  /** A prefix takes no row more often than the whole sequence has it. */
  lemma PrefixSubMultiset<T>(s: seq<T>, m: nat)
    requires m <= |s|
    ensures multiset(s[..m]) <= multiset(s)
  {
    assert s == s[..m] + s[m..];
  }

  /** Every group holds the rows with a city at that key, at least one, and
      the groups cover those rows exactly once. */
  lemma PlaceGroupsSpec(rows: seq<Placed>)
    ensures var groups := PlaceGroups(rows);
      && (forall i, j :: 0 <= i < j < |groups| ==> groups[i].key != groups[j].key)
      && (forall k :: k in Keys(rows) <==> exists i :: 0 <= i < |groups| && groups[i].key == k)
      && (forall i :: 0 <= i < |groups| ==> groups[i].count == |Group(Keys(rows), Identity, groups[i].key)|)
      && (forall i :: 0 <= i < |groups| ==> groups[i].count >= 1)
      && SumBy(groups, CountOfPlace) == |Keys(rows)|
  {
    KeyLtIsStrictOrder();
    var keys := Keys(rows);
    var ks := SortedUnique(keys, KeyLt);
    var groups := PlaceGroups(rows);
    AscendingNoDuplicates(ks, KeyLt);
    PlaceGroupsCounts(rows);
    PlaceCountsTotal(keys, ks);
    GroupsPartition(keys, Identity, ks);
  }

  /** Each group's count is the number of rows with its key, at least one. */
  lemma PlaceGroupsCounts(rows: seq<Placed>)
    ensures var groups := PlaceGroups(rows);
      forall i :: 0 <= i < |groups| ==>
        groups[i].count == |Group(Keys(rows), Identity, groups[i].key)| && groups[i].count >= 1
  {
    KeyLtIsStrictOrder();
    var keys := Keys(rows);
    var ks := SortedUnique(keys, KeyLt);
    var groups := PlaceGroups(rows);
    forall i | 0 <= i < |groups| ensures groups[i].count >= 1 {
      assert ks[i] in Group(keys, Identity, ks[i]);
    }
  }

  lemma {:induction false} PlaceCountsTotal(keys: seq<PlaceKey>, ks: seq<PlaceKey>)
    ensures SumBy(PlaceCounts(keys, ks), CountOfPlace) == GroupSizes(keys, Identity, ks)
  {
    if ks != [] {
      PlaceCountsTotal(keys, ks[1..]);
    }
  }
}
