/** The rows the pipelines read: customer address rows and the rows of the
    pincode coordinate cache. */
module Records {
  import opened Seqs

  /** One address row as read: CPA_PIN_CODE after numeric coercion (None when
      it did not parse), the free-text CPA_ADDR_CITY (None when empty) and the
      year of RegistrationDate (None when the date did not parse). The date
      parser itself is not part of this model; its outcome is an input. */
  datatype RawAddress = RawAddress(pincode: Option<int>, city: Option<string>, year: Option<int>)

  /** An address row whose pincode parsed. */
  datatype Address = Address(pincode: int, city: Option<string>, year: Option<int>)

  function ParseAddress(r: RawAddress): Option<Address> {
    if r.pincode.Some? then Some(Address(r.pincode.value, r.city, r.year)) else None
  }

  function AddressPin(a: Address): int { a.pincode }

  /** Coerce CPA_PIN_CODE to a number and drop the rows where it failed. */
  function CleanPins(rows: seq<RawAddress>): (r: seq<Address>)
    ensures |r| <= |rows|
  {
    FilterMap(rows, ParseAddress)
  }

  /** A row survives cleaning exactly when its pincode parsed, unchanged
      otherwise. */
  lemma CleanPinsMembership(rows: seq<RawAddress>, a: Address)
    ensures a in CleanPins(rows) <==> RawAddress(Some(a.pincode), a.city, a.year) in rows
  {
    FilterMapMembership(rows, ParseAddress, a);
    var raw := RawAddress(Some(a.pincode), a.city, a.year);
    if raw in rows {
      var i :| 0 <= i < |rows| && rows[i] == raw;
      assert ParseAddress(rows[i]) == Some(a);
    }
  }

  /** Cleaning is row by row: cleaning two tables one after the other gives
      the cleaning of their concatenation, so the kept rows keep their order. */
  lemma CleanPinsConcat(s: seq<RawAddress>, t: seq<RawAddress>)
    ensures CleanPins(s + t) == CleanPins(s) + CleanPins(t)
  {
    FilterMapConcat(s, t, ParseAddress);
  }

  /** One row of the coordinate cache table: pincode, latitude, longitude,
      city, state and the provider's formatted address. Coordinates and
      labels are nullable, as in the stored table. */
  datatype CacheRow = CacheRow(
    pincode: int,
    latitude: Option<real>,
    longitude: Option<real>,
    city: Option<string>,
    state: Option<string>,
    formattedAddress: Option<string>)

  function CachePin(e: CacheRow): int { e.pincode }
}
