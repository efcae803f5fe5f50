/** The address-file merge (merge_addresses.py, merge_address_files): each
    listed file is loaded, its pincodes coerced and the rows that fail
    dropped; a missing file aborts the whole merge; otherwise the kept rows
    of all files are concatenated in file order and written out. A file is
    given as its table, or None when it does not exist. */
module AddressMerge {
  import opened Seqs
  import opened Records

  /** The figures reported for one loaded file. */
  datatype FileStats = FileStats(loaded: nat, dropped: nat, uniquePincodes: nat)

  /** The distinct pincodes of a table. */
  function PinSet(rows: seq<Address>): set<int> {
    set a | a in rows :: a.pincode
  }

  /** The pincodes that parsed in a raw table, as a set. */
  function ParsedPins(raw: seq<RawAddress>): set<int> {
    set r | r in raw && r.pincode.Some? :: r.pincode.value
  }

  /** The distinct pincodes of the cleaned table are those that parsed. */
  lemma PinSetOfCleaned(raw: seq<RawAddress>)
    ensures PinSet(CleanPins(raw)) == ParsedPins(raw)
  {
    forall p | p in PinSet(CleanPins(raw)) ensures p in ParsedPins(raw) {
      var a :| a in CleanPins(raw) && a.pincode == p;
      CleanPinsMembership(raw, a);
      assert RawAddress(Some(p), a.city, a.year) in raw;
    }
    forall p | p in ParsedPins(raw) ensures p in PinSet(CleanPins(raw)) {
      var r :| r in raw && r.pincode == Some(p);
      var a := Address(p, r.city, r.year);
      CleanPinsMembership(raw, a);
    }
  }

  /** The figures for one file: rows whose pincode parsed, rows whose
      pincode did not, and the number of distinct parsed pincodes. */
  function StatsOf(raw: seq<RawAddress>): (st: FileStats)
    ensures st.loaded == CountSome(raw, ParseAddress)
    ensures st.loaded + st.dropped == |raw|
    ensures st.uniquePincodes == |ParsedPins(raw)|
  {
    var kept := CleanPins(raw);
    FilterMapLength(raw, ParseAddress);
    PinSetOfCleaned(raw);
    FileStats(|kept|, |raw| - |kept|, |PinSet(kept)|)
  }

  /** Position of the first missing file, or the number of files. */
  function FirstMissing(files: seq<Option<seq<RawAddress>>>): (k: nat)
    ensures k <= |files|
    ensures forall i :: 0 <= i < k ==> files[i].Some?
    ensures k < |files| ==> files[k].None?
  {
    if files == [] || files[0].None? then 0 else 1 + FirstMissing(files[1..])
  }

  predicate AllPresent(files: seq<Option<seq<RawAddress>>>) {
    forall i :: 0 <= i < |files| ==> files[i].Some?
  }

  /** The kept rows of every file, file by file. */
  function CleanedFiles(files: seq<Option<seq<RawAddress>>>): (r: seq<seq<Address>>)
    requires AllPresent(files)
    ensures |r| == |files|
    ensures forall i :: 0 <= i < |files| ==> r[i] == CleanPins(files[i].value)
  {
    seq(|files|, i requires 0 <= i < |files| => CleanPins(files[i].value))
  }

  /** The merge. ok is false, and nothing is written, as soon as one file is
      missing; stats covers the files loaded before that point. */
  method MergeAddressFiles(files: seq<Option<seq<RawAddress>>>)
    returns (ok: bool, stats: seq<FileStats>, written: Option<seq<Address>>)
    ensures ok <==> AllPresent(files)
    ensures |stats| == FirstMissing(files)
    ensures forall i :: 0 <= i < |stats| ==> stats[i] == StatsOf(files[i].value)
    ensures ok ==> written == Some(Flatten(CleanedFiles(files)))
    ensures !ok ==> written.None?
  {
    var dataframes: seq<seq<Address>> := [];
    stats := [];
    for i := 0 to |files|
      invariant |dataframes| == i && |stats| == i
      invariant forall j :: 0 <= j < i ==> files[j].Some?
      invariant forall j :: 0 <= j < i ==> dataframes[j] == CleanPins(files[j].value)
      invariant forall j :: 0 <= j < i ==> stats[j] == StatsOf(files[j].value)
    {
      match files[i] {
        case None =>
          assert FirstMissing(files) == i;
          return false, stats, None;
        case Some(raw) =>
          var originalCount := |raw|;
          var df := CleanPins(raw);
          var dropped := originalCount - |df|;
          stats := stats + [FileStats(|df|, dropped, |PinSet(df)|)];
          dataframes := dataframes + [df];
      }
    }
    assert dataframes == CleanedFiles(files);
    ok, written := true, Some(Flatten(dataframes));
  }

  /** The raw tables of all files, concatenated. */
  function RawTables(files: seq<Option<seq<RawAddress>>>): seq<seq<RawAddress>>
    requires AllPresent(files)
  {
    seq(|files|, i requires 0 <= i < |files| => files[i].value)
  }

  function Length<T>(s: seq<T>): int { |s| }

  /** Cleaning file by file and concatenating is the same as cleaning the
      concatenated raw tables: no row is lost, duplicated or reordered. */
  lemma {:induction false} CombinedIsCleanedConcat(files: seq<Option<seq<RawAddress>>>)
    requires AllPresent(files)
    ensures Flatten(CleanedFiles(files)) == CleanPins(Flatten(RawTables(files)))
  {
    if files != [] {
      var rest := files[1..];
      CombinedIsCleanedConcat(rest);
      assert CleanedFiles(files)[1..] == CleanedFiles(rest);
      assert RawTables(files)[1..] == RawTables(rest);
      CleanPinsConcat(files[0].value, Flatten(RawTables(rest)));
    }
  }

  /** The combined table has as many rows as the files kept in total. */
  lemma {:induction false} CombinedLength(files: seq<Option<seq<RawAddress>>>)
    requires AllPresent(files)
    ensures |Flatten(CleanedFiles(files))| == SumBy(CleanedFiles(files), Length)
  {
    if files != [] {
      CombinedLength(files[1..]);
      assert CleanedFiles(files)[1..] == CleanedFiles(files[1..]);
    }
  }

  /** A table never has more distinct pincodes than rows. */
  lemma {:induction false} PinSetSize(rows: seq<Address>)
    ensures |PinSet(rows)| <= |rows|
  {
    if rows != [] {
      PinSetSize(rows[1..]);
      assert PinSet(rows) == {rows[0].pincode} + PinSet(rows[1..]) by {
        assert forall a :: a in rows <==> a == rows[0] || a in rows[1..];
      }
    }
  }

  /** The distinct pincodes of all files together. */
  function UnionPins(ss: seq<seq<Address>>): set<int> {
    if ss == [] then {} else PinSet(ss[0]) + UnionPins(ss[1..])
  }

  /** The distinct pincodes of the combined table are the union of the
      files' own, and there are no more of them than combined rows. */
  lemma {:induction false} CombinedPincodes(ss: seq<seq<Address>>)
    ensures PinSet(Flatten(ss)) == UnionPins(ss)
    ensures |UnionPins(ss)| <= |Flatten(ss)|
  {
    if ss != [] {
      CombinedPincodes(ss[1..]);
      var f := Flatten(ss);
      assert forall a :: a in f <==> a in ss[0] || a in Flatten(ss[1..]);
      PinSetSize(f);
    }
  }
}
