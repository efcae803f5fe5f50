/** The coordinate cache builder (fetch_coordinates.py, main): choose a mode
    against an existing cache, work out which pincodes still need a lookup,
    look each of them up once, and write the new cache table. The prompts'
    answers (already stripped and case-normalised), the existing cache table,
    the address table and the geocoding oracle are inputs; the table written
    is the output, None when nothing is written. */
module Reconciler {
  import opened Seqs
  import opened Records
  import opened Geocoder

  /** The three answers to the prompt shown when a cache file exists. */
  datatype Mode = UseExisting | AppendNew | RefetchAll

  /** "U" keeps the cache, "A" appends, any other answer refetches; with no
      cache file there is no prompt and everything is fetched. */
  function SelectMode(cacheExists: bool, answer: string): (m: Mode)
    ensures m == UseExisting <==> cacheExists && answer == "U"
    ensures m == AppendNew <==> cacheExists && answer == "A"
  {
    if !cacheExists then RefetchAll
    else if answer == "U" then UseExisting
    else if answer == "A" then AppendNew
    else RefetchAll
  }

  /** The pincode column of a cache table. */
  function PincodesOf(rows: seq<CacheRow>): (r: seq<int>)
    ensures |r| == |rows|
    ensures forall i :: 0 <= i < |rows| ==> r[i] == rows[i].pincode
  {
    seq(|rows|, i requires 0 <= i < |rows| => rows[i].pincode)
  }

  /** The pincodes to skip: those of the cache in append mode, none otherwise. */
  function CachedPincodes(mode: Mode, cache: seq<CacheRow>): (r: set<int>)
    ensures forall p :: p in r <==> mode == AppendNew && p in PincodesOf(cache)
  {
    if mode == AppendNew then set p | p in PincodesOf(cache) else {}
  }

  function RawPin(r: RawAddress): Option<int> { r.pincode }

  /** The CPA_PIN_CODE values that parsed, in row order, repeats included. */
  function ObservedPincodes(addresses: seq<RawAddress>): (r: seq<int>)
    ensures |r| <= |addresses|
  {
    FilterMap(addresses, RawPin)
  }

  lemma ObservedPincodesMembership(addresses: seq<RawAddress>, p: int)
    ensures p in ObservedPincodes(addresses) <==> exists i :: 0 <= i < |addresses| && addresses[i].pincode == Some(p)
  {
    FilterMapMembership(addresses, RawPin, p);
  }

  /** The ascending pincodes of ps that are not in cached. */
  function Without(ps: seq<int>, cached: set<int>): (r: seq<int>)
    requires Ascending(ps, IntLt)
    ensures Ascending(r, IntLt)
    ensures forall p :: p in r <==> p in ps && p !in cached
  {
    if ps == [] then []
    else
      var rest := Without(ps[1..], cached);
      assert forall p :: p in rest ==> ps[0] < p by {
        forall p | p in rest ensures ps[0] < p {
          var j :| 0 <= j < |ps[1..]| && ps[1..][j] == p;
          assert ps[j + 1] == p;
        }
      }
      assert forall p :: p in ps <==> p == ps[0] || p in ps[1..];
      var head := if ps[0] in cached then [] else [ps[0]];
      assert Ascending(head + rest, IntLt) by {
        forall i, j | 0 <= i < j < |head + rest| ensures (head + rest)[i] < (head + rest)[j] {
          if i < |head| {
            assert (head + rest)[j] in rest;
          } else {
            assert (head + rest)[i] == rest[i - |head|];
          }
        }
      }
      head + rest
  }

  /** The lookups to make: the distinct observed pincodes, ascending, minus
      the cached ones. */
  function ToFetch(addresses: seq<RawAddress>, cached: set<int>): (r: seq<int>)
    ensures Ascending(r, IntLt)
    ensures forall p :: p in r <==> p in ObservedPincodes(addresses) && p !in cached
  {
    IntLtIsStrictOrder();
    Without(SortedUnique(ObservedPincodes(addresses), IntLt), cached)
  }

  /** The rows the lookups of ps yield, in lookup order; failed lookups add
      nothing. */
  function Successes(ps: seq<int>, geocode: int -> Response): (r: seq<CacheRow>)
    ensures |r| <= |ps|
  {
    if ps == [] then []
    else
      var p := ps[|ps| - 1];
      var prev := Successes(ps[..|ps| - 1], geocode);
      match Resolve(p, geocode(p))
      case None => prev
      case Some(e) => prev + [e]
  }

  /** The fetch loop: one lookup per pincode, successes appended in order. */
  method FetchAll(toFetch: seq<int>, geocode: int -> Response) returns (results: seq<CacheRow>)
    ensures results == Successes(toFetch, geocode)
  {
    results := [];
    for i := 0 to |toFetch|
      invariant results == Successes(toFetch[..i], geocode)
    {
      assert toFetch[..i + 1][..i] == toFetch[..i];
      var result := GetCoordinates(toFetch[i], geocode);
      if result.Some? {
        results := results + [result.value];
      }
    }
    assert toFetch[..|toFetch|] == toFetch;
  }

  /** A row is fetched exactly when its pincode was looked up and the lookup
      of that pincode gave this very row. */
  lemma {:induction false} SuccessesMembership(ps: seq<int>, geocode: int -> Response, e: CacheRow)
    ensures e in Successes(ps, geocode) <==> e.pincode in ps && Resolve(e.pincode, geocode(e.pincode)) == Some(e)
  {
    if ps != [] {
      var n := |ps| - 1;
      SuccessesMembership(ps[..n], geocode, e);
      assert forall q :: q in ps <==> q in ps[..n] || q == ps[n] by {
        assert ps == ps[..n] + [ps[n]];
      }
    }
  }

  /** Looked up in ascending order, the fetched rows have ascending pincodes. */
  lemma {:induction false} SuccessesAscending(ps: seq<int>, geocode: int -> Response)
    requires Ascending(ps, IntLt)
    ensures Ascending(PincodesOf(Successes(ps, geocode)), IntLt)
  {
    if ps != [] {
      var n := |ps| - 1;
      var init := ps[..n];
      SuccessesAscending(init, geocode);
      var prev := Successes(init, geocode);
      if Resolve(ps[n], geocode(ps[n])).Some? {
        forall i | 0 <= i < |prev| ensures prev[i].pincode < ps[n] {
          SuccessesMembership(init, geocode, prev[i]);
          var j :| 0 <= j < n && init[j] == prev[i].pincode;
          assert ps[j] == init[j];
        }
      }
    }
  }

  /** The table written: the fetched rows, after the old cache when the skip
      set is non-empty. */
  function MergeCache(cached: set<int>, cache: seq<CacheRow>, results: seq<CacheRow>): seq<CacheRow> {
    if cached != {} then cache + results else results
  }

  /** What a run writes: nothing in "use" mode, when nothing is left to fetch
      or when the cost prompt is not answered "y"; otherwise the merge. */
  function Outcome(cacheExists: bool, modeAnswer: string, cache: seq<CacheRow>,
                   addresses: seq<RawAddress>, confirm: string, geocode: int -> Response): Option<seq<CacheRow>>
  {
    var mode := SelectMode(cacheExists, modeAnswer);
    if mode == UseExisting then None
    else
      var cached := CachedPincodes(mode, cache);
      var toFetch := ToFetch(addresses, cached);
      if |toFetch| == 0 || confirm != "y" then None
      else Some(MergeCache(cached, cache, Successes(toFetch, geocode)))
  }

  /** main: the run with its early returns. */
  method Reconcile(cacheExists: bool, modeAnswer: string, cache: seq<CacheRow>,
                   addresses: seq<RawAddress>, confirm: string, geocode: int -> Response)
    returns (written: Option<seq<CacheRow>>)
    ensures written == Outcome(cacheExists, modeAnswer, cache, addresses, confirm, geocode)
  {
    var cached: set<int>;
    if cacheExists {
      if modeAnswer == "U" {
        return None;
      } else if modeAnswer == "A" {
        cached := set p | p in PincodesOf(cache);
      } else {
        cached := {};
      }
    } else {
      cached := {};
    }
    var toFetch := ToFetch(addresses, cached);
    if |toFetch| == 0 {
      return None;
    }
    if confirm != "y" {
      return None;
    }
    var results := FetchAll(toFetch, geocode);
    if cached != {} {
      written := Some(cache + results);
    } else {
      written := Some(results);
    }
  }

  /** The emptiness test on the skip set is the same as asking for append
      mode: an appended empty cache contributes no rows either way. */
  lemma WrittenTable(cacheExists: bool, modeAnswer: string, cache: seq<CacheRow>,
                     addresses: seq<RawAddress>, confirm: string, geocode: int -> Response)
    requires Outcome(cacheExists, modeAnswer, cache, addresses, confirm, geocode).Some?
    ensures var mode := SelectMode(cacheExists, modeAnswer);
      var fetched := Successes(ToFetch(addresses, CachedPincodes(mode, cache)), geocode);
      Outcome(cacheExists, modeAnswer, cache, addresses, confirm, geocode).value
        == if mode == AppendNew then cache + fetched else fetched
  {
    var mode := SelectMode(cacheExists, modeAnswer);
    if mode == AppendNew && cache != [] {
      assert cache[0].pincode in CachedPincodes(mode, cache);
    }
    if mode == AppendNew && cache == [] {
      assert cache + Successes(ToFetch(addresses, CachedPincodes(mode, cache)), geocode)
          == Successes(ToFetch(addresses, CachedPincodes(mode, cache)), geocode);
    }
  }

  /** Which pincodes the written table holds: the old cache's in append mode,
      plus every observed pincode not skipped whose lookup succeeded. */
  lemma WrittenPincodes(cacheExists: bool, modeAnswer: string, cache: seq<CacheRow>,
                        addresses: seq<RawAddress>, confirm: string, geocode: int -> Response, p: int)
    requires Outcome(cacheExists, modeAnswer, cache, addresses, confirm, geocode).Some?
    ensures var mode := SelectMode(cacheExists, modeAnswer);
      var w := Outcome(cacheExists, modeAnswer, cache, addresses, confirm, geocode).value;
      p in PincodesOf(w) <==>
        (mode == AppendNew && p in PincodesOf(cache))
        || (p in ObservedPincodes(addresses) && !(mode == AppendNew && p in PincodesOf(cache))
            && Resolve(p, geocode(p)).Some?)
  {
    var mode := SelectMode(cacheExists, modeAnswer);
    var cached := CachedPincodes(mode, cache);
    var toFetch := ToFetch(addresses, cached);
    var fetched := Successes(toFetch, geocode);
    WrittenTable(cacheExists, modeAnswer, cache, addresses, confirm, geocode);
    FetchedPincodes(toFetch, geocode, p);
    if mode == AppendNew {
      PincodesOfConcat(cache, fetched);
    }
  }

  /** A pincode is among the fetched rows exactly when it was looked up and
      its lookup succeeded. */
  lemma FetchedPincodes(toFetch: seq<int>, geocode: int -> Response, p: int)
    ensures p in PincodesOf(Successes(toFetch, geocode)) <==> p in toFetch && Resolve(p, geocode(p)).Some?
  {
    var fetched := Successes(toFetch, geocode);
    if p in PincodesOf(fetched) {
      var i :| 0 <= i < |fetched| && fetched[i].pincode == p;
      SuccessesMembership(toFetch, geocode, fetched[i]);
    }
    if p in toFetch && Resolve(p, geocode(p)).Some? {
      var e := Resolve(p, geocode(p)).value;
      SuccessesMembership(toFetch, geocode, e);
      var i :| 0 <= i < |fetched| && fetched[i] == e;
      assert PincodesOf(fetched)[i] == p;
    }
  }

  lemma PincodesOfConcat(a: seq<CacheRow>, b: seq<CacheRow>)
    ensures PincodesOf(a + b) == PincodesOf(a) + PincodesOf(b)
  {
  }

  /** The written table has one row per pincode: appended rows are new and
      fetched in ascending order. Only an append run needs the old cache to
      have one row per pincode; a refetch writes fresh rows alone, so it
      repairs a cache with repeated pincodes. */
  lemma WrittenKeysUnique(cacheExists: bool, modeAnswer: string, cache: seq<CacheRow>,
                          addresses: seq<RawAddress>, confirm: string, geocode: int -> Response)
    requires SelectMode(cacheExists, modeAnswer) == AppendNew ==> UniqueKeys(cache, CachePin)
    requires Outcome(cacheExists, modeAnswer, cache, addresses, confirm, geocode).Some?
    ensures UniqueKeys(Outcome(cacheExists, modeAnswer, cache, addresses, confirm, geocode).value, CachePin)
  {
    var mode := SelectMode(cacheExists, modeAnswer);
    var cached := CachedPincodes(mode, cache);
    var toFetch := ToFetch(addresses, cached);
    var fetched := Successes(toFetch, geocode);
    WrittenTable(cacheExists, modeAnswer, cache, addresses, confirm, geocode);
    SuccessesAscending(toFetch, geocode);
    assert UniqueKeys(fetched, CachePin) by {
      forall i, j | 0 <= i < j < |fetched| ensures fetched[i].pincode != fetched[j].pincode {
        assert PincodesOf(fetched)[i] < PincodesOf(fetched)[j];
      }
    }
    if mode == AppendNew {
      var w := cache + fetched;
      forall i, j | 0 <= i < j < |w| ensures w[i].pincode != w[j].pincode {
        if j >= |cache| && i < |cache| {
          assert PincodesOf(cache)[i] == w[i].pincode;
          SuccessesMembership(toFetch, geocode, fetched[j - |cache|]);
        } else if j >= |cache| {
          assert fetched[i - |cache|].pincode != fetched[j - |cache|].pincode;
        }
      }
    }
  }

  /** Appending when every observed pincode is already cached asks nothing
      and writes nothing. */
  lemma AppendWithNothingNew(cache: seq<CacheRow>, addresses: seq<RawAddress>,
                             confirm: string, geocode: int -> Response)
    requires forall i :: 0 <= i < |addresses| && addresses[i].pincode.Some? ==> addresses[i].pincode.value in PincodesOf(cache)
    ensures Outcome(true, "A", cache, addresses, confirm, geocode) == None
  {
    var toFetch := ToFetch(addresses, CachedPincodes(AppendNew, cache));
    if |toFetch| > 0 {
      var p := toFetch[0];
      ObservedPincodesMembership(addresses, p);
      assert false;
    }
  }

  /** A run in which every lookup it makes succeeds leaves nothing for a
      later append run to fetch; pincodes it skips as cached need not resolve. */
  lemma AppendAfterCompleteRun(cacheExists: bool, modeAnswer: string, cache: seq<CacheRow>,
                               addresses: seq<RawAddress>, confirm: string, geocode: int -> Response,
                               confirm2: string)
    requires Outcome(cacheExists, modeAnswer, cache, addresses, confirm, geocode).Some?
    requires var mode := SelectMode(cacheExists, modeAnswer);
      forall p :: p in ToFetch(addresses, CachedPincodes(mode, cache)) ==> Resolve(p, geocode(p)).Some?
    ensures var w := Outcome(cacheExists, modeAnswer, cache, addresses, confirm, geocode).value;
      Outcome(true, "A", w, addresses, confirm2, geocode) == None
  {
    var w := Outcome(cacheExists, modeAnswer, cache, addresses, confirm, geocode).value;
    forall i | 0 <= i < |addresses| && addresses[i].pincode.Some?
      ensures addresses[i].pincode.value in PincodesOf(w)
    {
      var p := addresses[i].pincode.value;
      ObservedPincodesMembership(addresses, p);
      WrittenPincodes(cacheExists, modeAnswer, cache, addresses, confirm, geocode, p);
    }
    AppendWithNothingNew(w, addresses, confirm2, geocode);
  }
}
