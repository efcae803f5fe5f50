/** One geocoding lookup (fetch_coordinates.py, get_coordinates_for_pincode):
    the provider's answer for a pincode is reduced to a cache row built from
    the first candidate only. The provider call itself is an oracle: a
    function from pincode to its response. */
module Geocoder {
  import opened Seqs
  import opened Records

  /** One typed address component of a candidate. */
  datatype Component = Component(longName: string, types: seq<string>)

  /** One geocoding candidate: its location and its address components. */
  datatype Candidate = Candidate(lat: real, lng: real, components: seq<Component>, formattedAddress: string)

  /** What the client call gives back: the candidate list (possibly empty),
      or an exception. */
  datatype Response = Candidates(list: seq<Candidate>) | Raised

  predicate IsLocality(c: Component) { "locality" in c.types }

  /** A state component: tagged administrative_area_level_1 and not locality
      (a component tagged both only ever sets the city). */
  predicate IsState(c: Component) { !IsLocality(c) && "administrative_area_level_1" in c.types }

  /** The long_name of the last component satisfying p, if any. */
  function LastMatch(cs: seq<Component>, p: Component -> bool): Option<string> {
    if cs == [] then None
    else if p(cs[|cs| - 1]) then Some(cs[|cs| - 1].longName)
    else LastMatch(cs[..|cs| - 1], p)
  }

  /** LastMatch finds nothing exactly when no component satisfies p, and
      otherwise the name of a satisfying component after which none does. */
  lemma LastMatchSpec(cs: seq<Component>, p: Component -> bool)
    ensures LastMatch(cs, p).None? <==> forall i :: 0 <= i < |cs| ==> !p(cs[i])
    ensures LastMatch(cs, p).Some? ==>
      exists i :: 0 <= i < |cs| && p(cs[i]) && cs[i].longName == LastMatch(cs, p).value
                  && forall j :: i < j < |cs| ==> !p(cs[j])
  {
    var i := LastMatchIndex(cs, p);
    if i < |cs| {
      assert p(cs[i]);
    }
  }

  /** The position LastMatch reports: the last satisfying component, or
      |cs| when there is none. */
  lemma {:induction false} LastMatchIndex(cs: seq<Component>, p: Component -> bool) returns (i: nat)
    ensures i <= |cs|
    ensures i == |cs| <==> LastMatch(cs, p).None?
    ensures i == |cs| ==> forall j :: 0 <= j < |cs| ==> !p(cs[j])
    ensures i < |cs| ==> p(cs[i]) && LastMatch(cs, p) == Some(cs[i].longName)
    ensures forall j :: i < j < |cs| ==> !p(cs[j])
  {
    if cs == [] {
      i := 0;
    } else {
      var n := |cs| - 1;
      if p(cs[n]) {
        i := n;
      } else {
        var init := cs[..n];
        var k := LastMatchIndex(init, p);
        assert forall j :: 0 <= j < n ==> init[j] == cs[j];
        i := if k == n then |cs| else k;
      }
    }
  }

  /** The component walk: city and state are overwritten by every later
      component that matches. */
  method ExtractLocality(cs: seq<Component>) returns (city: Option<string>, state: Option<string>)
    ensures city == LastMatch(cs, IsLocality)
    ensures state == LastMatch(cs, IsState)
  {
    city, state := None, None;
    for i := 0 to |cs|
      invariant city == LastMatch(cs[..i], IsLocality)
      invariant state == LastMatch(cs[..i], IsState)
    {
      assert cs[..i + 1][..i] == cs[..i];
      if "locality" in cs[i].types {
        city := Some(cs[i].longName);
      } else if "administrative_area_level_1" in cs[i].types {
        state := Some(cs[i].longName);
      }
    }
    assert cs[..|cs|] == cs;
  }

  /** The cache row a response yields: none for an exception or an empty
      candidate list, else the first candidate's location and labels. */
  function Resolve(pin: int, response: Response): Option<CacheRow> {
    match response
    case Raised => None
    case Candidates(list) =>
      if list == [] then None
      else
        var c := list[0];
        Some(CacheRow(pin, Some(c.lat), Some(c.lng),
                      LastMatch(c.components, IsLocality), LastMatch(c.components, IsState),
                      Some(c.formattedAddress)))
  }

  /** get_coordinates_for_pincode: ask the oracle, keep the first candidate. */
  method GetCoordinates(pin: int, geocode: int -> Response) returns (r: Option<CacheRow>)
    ensures r == Resolve(pin, geocode(pin))
  {
    var response := geocode(pin);
    match response {
      case Raised =>
        r := None;
      case Candidates(list) =>
        if |list| == 0 {
          r := None;
        } else {
          var first := list[0];
          var city, state := ExtractLocality(first.components);
          r := Some(CacheRow(pin, Some(first.lat), Some(first.lng), city, state, Some(first.formattedAddress)));
        }
    }
  }

  /** A lookup fails, without raising, exactly on an exception or an empty
      result; a success carries the asked pincode and both coordinates of
      the first candidate. */
  lemma ResolveOutcome(pin: int, response: Response)
    ensures Resolve(pin, response).None? <==> response.Raised? || response.list == []
    ensures Resolve(pin, response).Some? ==>
      var e := Resolve(pin, response).value;
      && e.pincode == pin
      && e.latitude == Some(response.list[0].lat)
      && e.longitude == Some(response.list[0].lng)
  {
  }

  /** Only the first candidate matters: two responses that agree on it give
      the same row, whatever follows. */
  lemma ResolveUsesFirstCandidate(pin: int, a: seq<Candidate>, b: seq<Candidate>)
    requires a != [] && b != [] && a[0] == b[0]
    ensures Resolve(pin, Candidates(a)) == Resolve(pin, Candidates(b))
  {
  }

  /** The city and state of a success are the last locality component and
      the last state-only component of the first candidate, or null. */
  lemma ResolveLabels(pin: int, c: Candidate, rest: seq<Candidate>)
    ensures var e := Resolve(pin, Candidates([c] + rest)).value;
      && (e.city.None? <==> forall i :: 0 <= i < |c.components| ==> !IsLocality(c.components[i]))
      && (e.state.None? <==> forall i :: 0 <= i < |c.components| ==> !IsState(c.components[i]))
  {
    LastMatchSpec(c.components, IsLocality);
    LastMatchSpec(c.components, IsState);
  }
}
