/** The dashboard's data loading (app.py, load_data): pincode cleaning, the
    left join against the coordinate cache, the city fallback, the drop of
    rows without coordinates, and the year filter applied to the result. */
module Dashboard {
  import opened Seqs
  import opened Records

  /** A customer row that reached the dashboard: its pincode, the cached
      coordinates, the effective city, the cached state (StateName) and the
      registration year. */
  datatype Located = Located(
    pincode: int,
    latitude: real,
    longitude: real,
    city: Option<string>,
    state: Option<string>,
    year: Option<int>)

  /** The cache's city, or the row's own city when the cache has none. */
  function FillCity(cacheCity: Option<string>, rawCity: Option<string>): Option<string> {
    if cacheCity.Some? then cacheCity else rawCity
  }

  /** A joined row, kept when its cache match has both coordinates. A row
      without a match has null coordinates and is dropped. */
  function Locate(j: (Address, Option<CacheRow>)): Option<Located> {
    var a := j.0;
    match j.1
    case None => None
    case Some(e) =>
      if e.latitude.Some? && e.longitude.Some? then
        Some(Located(a.pincode, e.latitude.value, e.longitude.value, FillCity(e.city, a.city), e.state, a.year))
      else None
  }

  /** load_data: clean, left-join on pincode, fill the city, drop rows
      without coordinates. */
  function LoadData(rows: seq<RawAddress>, cache: seq<CacheRow>): seq<Located> {
    FilterMap(LeftJoin(CleanPins(rows), cache, AddressPin, CachePin), Locate)
  }

  /** What one raw row contributes, stated directly: nothing unless its
      pincode parses and the cache holds a row for that pincode with both
      coordinates; then the row with that entry's coordinates and state and
      the cache city falling back to the row's own city. */
  function ResolveRow(r: RawAddress, cache: seq<CacheRow>): Option<Located> {
    if r.pincode.None? then None
    else
      match Lookup(cache, CachePin, r.pincode.value)
      case None => None
      case Some(e) =>
        if e.latitude.Some? && e.longitude.Some? then
          Some(Located(r.pincode.value, e.latitude.value, e.longitude.value, FillCity(e.city, r.city), e.state, r.year))
        else None
  }

  /** With one cache row per pincode, load_data keeps, in order and without
      duplication, exactly the rows that ResolveRow accepts, and nothing else
      excludes a row. */
  lemma {:induction false} LoadDataWithUniqueKeys(rows: seq<RawAddress>, cache: seq<CacheRow>)
    requires UniqueKeys(cache, CachePin)
    ensures LoadData(rows, cache) == FilterMap(rows, r => ResolveRow(r, cache))
    ensures |LoadData(rows, cache)| == CountSome(rows, r => ResolveRow(r, cache))
  {
    if rows == [] {
    } else {
      var head, rest := [rows[0]], rows[1..];
      LoadDataWithUniqueKeys(rest, cache);
      assert rows == head + rest;
      FilterMapConcat(head, rest, ParseAddress);
      LeftJoinConcat(CleanPins(head), CleanPins(rest), cache, AddressPin, CachePin);
      FilterMapConcat(LeftJoin(CleanPins(head), cache, AddressPin, CachePin),
                      LeftJoin(CleanPins(rest), cache, AddressPin, CachePin), Locate);
      if rows[0].pincode.Some? {
        var a := ParseAddress(rows[0]).value;
        assert CleanPins(head) == [a];
        LeftJoinUniqueKeys(a, cache, AddressPin, CachePin);
        assert LeftJoin(CleanPins(head), cache, AddressPin, CachePin) == [(a, Lookup(cache, CachePin, a.pincode))];
      } else {
        assert CleanPins(head) == [];
      }
    }
  }

  /** The year filter; None stands for 'All Years'. */
  function YearOf(x: Located): Option<int> { x.year }

  /** 'All Years' keeps the view; a year keeps each row of that year as
      often as the view holds it, and no other row. */
  function FilterYear(view: seq<Located>, selected: Option<int>): (r: seq<Located>)
    ensures selected.None? ==> r == view
    ensures selected.Some? ==> forall x :: multiset(r)[x] == if x.year == selected then multiset(view)[x] else 0
    ensures selected.Some? ==> forall x :: x in r <==> x in view && x.year == selected
    ensures |r| <= |view|
  {
    if selected.None? then view
    else
      GroupMultiset(view, YearOf, selected);
      Group(view, YearOf, selected)
  }

  /** The filter is row by row, so the kept rows keep their order. */
  lemma FilterYearConcat(s: seq<Located>, t: seq<Located>, selected: Option<int>)
    ensures FilterYear(s + t, selected) == FilterYear(s, selected) + FilterYear(t, selected)
  {
    if selected.Some? {
      GroupConcat(s, t, YearOf, selected);
    }
  }

  /** What one raw row contributes to the view of year y. */
  function ResolveInYear(r: RawAddress, cache: seq<CacheRow>, y: int): Option<Located> {
    if r.year == Some(y) then ResolveRow(r, cache) else None
  }

  /** With one cache row per pincode, the view of year y keeps, in order,
      exactly the raw rows of year y that load_data keeps. */
  lemma {:induction false} YearViewWithUniqueKeys(rows: seq<RawAddress>, cache: seq<CacheRow>, y: int)
    requires UniqueKeys(cache, CachePin)
    ensures FilterYear(LoadData(rows, cache), Some(y)) == FilterMap(rows, r => ResolveInYear(r, cache, y))
    ensures |FilterYear(LoadData(rows, cache), Some(y))| == CountSome(rows, r => ResolveInYear(r, cache, y))
  {
    LoadDataWithUniqueKeys(rows, cache);
    YearOfResolved(rows, cache, y);
    FilterMapLength(rows, r => ResolveInYear(r, cache, y));
  }

  lemma {:induction false} YearOfResolved(rows: seq<RawAddress>, cache: seq<CacheRow>, y: int)
    ensures FilterYear(FilterMap(rows, r => ResolveRow(r, cache)), Some(y)) == FilterMap(rows, r => ResolveInYear(r, cache, y))
  {
    if rows != [] {
      YearOfResolved(rows[1..], cache, y);
      var f := (r: RawAddress) => ResolveRow(r, cache);
      var head := if f(rows[0]).Some? then [f(rows[0]).value] else [];
      assert FilterMap(rows, f) == head + FilterMap(rows[1..], f);
      FilterYearConcat(head, FilterMap(rows[1..], f), Some(y));
    }
  }
}
