/** Whole-table operations shared by the pipelines: a column coerced and
    null rows dropped (FilterMap), grouping by a key, the ascending list of
    distinct keys a group-by produces, sums over a column, a descending sort
    by a count column, concatenation of tables and a left join. */
module Seqs {

  datatype Option<+T> = None | Some(value: T)

  predicate NoDuplicates<T(==)>(s: seq<T>) {
    forall i, j :: 0 <= i < j < |s| ==> s[i] != s[j]
  }

  // ---------------------------------------------------------------------
  // Coerce-and-drop: keep the rows f accepts, converted, in input order.

  function FilterMap<A, B>(s: seq<A>, f: A -> Option<B>): (r: seq<B>)
    ensures |r| <= |s|
  {
    if s == [] then []
    else (if f(s[0]).Some? then [f(s[0]).value] else []) + FilterMap(s[1..], f)
  }

  /** Number of rows f accepts. */
  function CountSome<A, B>(s: seq<A>, f: A -> Option<B>): nat {
    if s == [] then 0 else (if f(s[0]).Some? then 1 else 0) + CountSome(s[1..], f)
  }

  lemma {:induction false} FilterMapConcat<A, B>(s: seq<A>, t: seq<A>, f: A -> Option<B>)
    ensures FilterMap(s + t, f) == FilterMap(s, f) + FilterMap(t, f)
  {
    if s == [] {
      assert s + t == t;
    } else {
      var head := if f(s[0]).Some? then [f(s[0]).value] else [];
      assert (s + t)[0] == s[0];
      assert (s + t)[1..] == s[1..] + t;
      assert FilterMap(s + t, f) == head + FilterMap(s[1..] + t, f);
      FilterMapConcat(s[1..], t, f);
      assert head + (FilterMap(s[1..], f) + FilterMap(t, f)) == (head + FilterMap(s[1..], f)) + FilterMap(t, f);
    }
  }

  lemma {:induction false} FilterMapLength<A, B>(s: seq<A>, f: A -> Option<B>)
    ensures |FilterMap(s, f)| == CountSome(s, f)
  {
    if s != [] {
      FilterMapLength(s[1..], f);
    }
  }

  /** An output row is exactly the conversion of some accepted input row. */
  lemma {:induction false} FilterMapMembership<A, B>(s: seq<A>, f: A -> Option<B>, y: B)
    ensures y in FilterMap(s, f) <==> exists i :: 0 <= i < |s| && f(s[i]) == Some(y)
  {
    if s != [] {
      FilterMapMembership(s[1..], f, y);
      if y in FilterMap(s[1..], f) {
        var i :| 0 <= i < |s[1..]| && f(s[1..][i]) == Some(y);
        assert f(s[i + 1]) == Some(y);
      }
      if exists i :: 0 <= i < |s| && f(s[i]) == Some(y) {
        var i :| 0 <= i < |s| && f(s[i]) == Some(y);
        if i > 0 {
          assert f(s[1..][i - 1]) == Some(y);
        }
      }
    }
  }

  /** When f accepts every row, nothing is dropped: the output is the
      conversion of the input, row by row. */
  lemma {:induction false} FilterMapAllSome<A, B>(s: seq<A>, f: A -> Option<B>)
    requires forall i :: 0 <= i < |s| ==> f(s[i]).Some?
    ensures |FilterMap(s, f)| == |s|
    ensures forall i :: 0 <= i < |s| ==> Some(FilterMap(s, f)[i]) == f(s[i])
  {
    if s != [] {
      FilterMapAllSome(s[1..], f);
      var r := FilterMap(s, f);
      forall i | 0 <= i < |s| ensures Some(r[i]) == f(s[i]) {
        if i > 0 {
          assert r[i] == FilterMap(s[1..], f)[i - 1];
          assert s[i] == s[1..][i - 1];
        }
      }
    }
  }

  // ---------------------------------------------------------------------
  // Grouping by a key.

  /** The rows of s whose key is k, in input order. */
  function Group<T(!new), K(==)>(s: seq<T>, key: T -> K, k: K): (r: seq<T>)
    ensures |r| <= |s|
    ensures forall x :: x in r <==> x in s && key(x) == k
  {
    if s == [] then []
    else (if key(s[0]) == k then [s[0]] else []) + Group(s[1..], key, k)
  }

  /** A group holds every row with its key, as often as the table does, and
      nothing else. */
  lemma {:induction false} GroupMultiset<T(!new), K>(s: seq<T>, key: T -> K, k: K)
    ensures forall x :: multiset(Group(s, key, k))[x] == if key(x) == k then multiset(s)[x] else 0
  {
    if s != [] {
      GroupMultiset(s[1..], key, k);
      assert s == [s[0]] + s[1..];
    }
  }

  /** Grouping is row by row, so it keeps the order of the rows. */
  lemma {:induction false} GroupConcat<T(!new), K>(s: seq<T>, t: seq<T>, key: T -> K, k: K)
    ensures Group(s + t, key, k) == Group(s, key, k) + Group(t, key, k)
  {
    if s == [] {
      assert s + t == t;
    } else {
      assert (s + t)[0] == s[0];
      assert (s + t)[1..] == s[1..] + t;
      GroupConcat(s[1..], t, key, k);
    }
  }

  /** Total size of the groups named by ks. */
  function GroupSizes<T(!new), K(==)>(s: seq<T>, key: T -> K, ks: seq<K>): nat {
    if ks == [] then 0 else |Group(s, key, ks[0])| + GroupSizes(s, key, ks[1..])
  }

  lemma {:induction false} GroupSizesOfEmpty<T(!new), K>(s: seq<T>, key: T -> K, ks: seq<K>)
    requires s == []
    ensures GroupSizes(s, key, ks) == 0
  {
    if ks != [] {
      GroupSizesOfEmpty(s, key, ks[1..]);
    }
  }

  lemma {:induction false} GroupSizesStep<T(!new), K>(s: seq<T>, key: T -> K, ks: seq<K>)
    requires s != [] && NoDuplicates(ks)
    ensures GroupSizes(s, key, ks) == GroupSizes(s[1..], key, ks) + (if key(s[0]) in ks then 1 else 0)
  {
    if ks != [] {
      assert NoDuplicates(ks[1..]) by {
        forall i, j | 0 <= i < j < |ks[1..]| ensures ks[1..][i] != ks[1..][j] {
          assert ks[1..][i] == ks[i + 1] && ks[1..][j] == ks[j + 1];
        }
      }
      GroupSizesStep(s, key, ks[1..]);
      if key(s[0]) == ks[0] {
        forall j | 0 <= j < |ks[1..]| ensures ks[1..][j] != key(s[0]) {
          assert ks[1..][j] == ks[j + 1];
        }
      }
      assert key(s[0]) in ks <==> key(s[0]) == ks[0] || key(s[0]) in ks[1..];
    }
  }

  /** Grouping by a key loses and duplicates no row: over a duplicate-free
      list of keys covering every row's key, the group sizes add up to the
      number of rows. */
  lemma {:induction false} GroupsPartition<T(!new), K>(s: seq<T>, key: T -> K, ks: seq<K>)
    requires NoDuplicates(ks)
    requires forall x :: x in s ==> key(x) in ks
    ensures GroupSizes(s, key, ks) == |s|
  {
    if s == [] {
      GroupSizesOfEmpty(s, key, ks);
    } else {
      GroupSizesStep(s, key, ks);
      assert s[0] in s;
      forall x | x in s[1..] ensures key(x) in ks {
        assert x in s;
      }
      GroupsPartition(s[1..], key, ks);
    }
  }

  // ---------------------------------------------------------------------
  // Sorted distinct keys, as produced by sorted(unique(...)) and groupby.

  ghost predicate StrictOrder<T(!new)>(lt: (T, T) -> bool) {
    && (forall x :: !lt(x, x))
    && (forall x, y, z :: lt(x, y) && lt(y, z) ==> lt(x, z))
    && (forall x, y :: x != y ==> lt(x, y) || lt(y, x))
  }

  predicate Ascending<T>(s: seq<T>, lt: (T, T) -> bool) {
    forall i, j :: 0 <= i < j < |s| ==> lt(s[i], s[j])
  }

  lemma AscendingNoDuplicates<T(!new)>(s: seq<T>, lt: (T, T) -> bool)
    requires StrictOrder(lt) && Ascending(s, lt)
    ensures NoDuplicates(s)
  {
    forall i, j | 0 <= i < j < |s| ensures s[i] != s[j] {
      assert lt(s[i], s[j]);
    }
  }

  /** Adds x to an ascending duplicate-free list, unless already present. */
  function InsertUnique<T(==,!new)>(x: T, s: seq<T>, lt: (T, T) -> bool): (r: seq<T>)
    requires StrictOrder(lt) && Ascending(s, lt)
    ensures Ascending(r, lt)
    ensures forall y :: y in r <==> y in s || y == x
  {
    if s == [] then [x]
    else if x == s[0] then s
    else if lt(x, s[0]) then [x] + s
    else
      var rest := InsertUnique(x, s[1..], lt);
      assert lt(s[0], x);
      assert forall y :: y in rest ==> lt(s[0], y) by {
        forall y | y in rest ensures lt(s[0], y) {
          if y != x {
            var j :| 0 <= j < |s[1..]| && s[1..][j] == y;
            assert s[j + 1] == y;
          }
        }
      }
      assert forall y :: y in s <==> y == s[0] || y in s[1..];
      [s[0]] + rest
  }

  /** The distinct values of s in ascending order. */
  function SortedUnique<T(==,!new)>(s: seq<T>, lt: (T, T) -> bool): (r: seq<T>)
    requires StrictOrder(lt)
    ensures Ascending(r, lt)
    ensures forall y :: y in r <==> y in s
  {
    if s == [] then []
    else
      var rest := SortedUnique(s[1..], lt);
      assert forall y :: y in s <==> y == s[0] || y in s[1..];
      InsertUnique(s[0], rest, lt)
  }

  predicate IntLt(a: int, b: int) { a < b }

  lemma IntLtIsStrictOrder()
    ensures StrictOrder(IntLt)
  {
  }

  /** Strings compare by code point, lexicographically. */
  predicate StrLt(a: string, b: string) {
    if |a| == 0 then |b| > 0
    else if |b| == 0 then false
    else a[0] < b[0] || (a[0] == b[0] && StrLt(a[1..], b[1..]))
  }

  lemma {:induction false} StrLtIrreflexive(a: string)
    ensures !StrLt(a, a)
  {
    if |a| > 0 {
      StrLtIrreflexive(a[1..]);
    }
  }

  lemma {:induction false} StrLtTransitive(a: string, b: string, c: string)
    requires StrLt(a, b) && StrLt(b, c)
    ensures StrLt(a, c)
  {
    if |a| > 0 && |b| > 0 && |c| > 0 && a[0] == b[0] == c[0] {
      StrLtTransitive(a[1..], b[1..], c[1..]);
    }
  }

  lemma {:induction false} StrLtConnected(a: string, b: string)
    requires a != b
    ensures StrLt(a, b) || StrLt(b, a)
  {
    if |a| > 0 && |b| > 0 && a[0] == b[0] {
      assert a == [a[0]] + a[1..] && b == [b[0]] + b[1..];
      StrLtConnected(a[1..], b[1..]);
    }
  }

  lemma StrLtIsStrictOrder()
    ensures StrictOrder(StrLt)
  {
    forall a ensures !StrLt(a, a) {
      StrLtIrreflexive(a);
    }
    forall a, b, c | StrLt(a, b) && StrLt(b, c) ensures StrLt(a, c) {
      StrLtTransitive(a, b, c);
    }
    forall a, b | a != b ensures StrLt(a, b) || StrLt(b, a) {
      StrLtConnected(a, b);
    }
  }

  // ---------------------------------------------------------------------
  // Sums over a column and a descending sort by an integer column.

  function SumBy<T>(s: seq<T>, f: T -> int): int {
    if s == [] then 0 else f(s[0]) + SumBy(s[1..], f)
  }

  lemma {:induction false} SumByConcat<T>(s: seq<T>, t: seq<T>, f: T -> int)
    ensures SumBy(s + t, f) == SumBy(s, f) + SumBy(t, f)
  {
    if s == [] {
      assert s + t == t;
    } else {
      assert (s + t)[0] == s[0];
      assert (s + t)[1..] == s[1..] + t;
      SumByConcat(s[1..], t, f);
    }
  }

  /** Two columns that agree row by row have the same sum. */
  lemma {:induction false} SumByPointwise<A, B>(r: seq<A>, f: A -> int, ps: seq<B>, g: B -> int)
    requires |r| == |ps|
    requires forall i :: 0 <= i < |r| ==> f(r[i]) == g(ps[i])
    ensures SumBy(r, f) == SumBy(ps, g)
  {
    if r != [] {
      assert forall i :: 0 <= i < |r| - 1 ==> r[1..][i] == r[i + 1] && ps[1..][i] == ps[i + 1];
      SumByPointwise(r[1..], f, ps[1..], g);
    }
  }

  /** The group sizes add up like any other column. */
  lemma {:induction false} GroupSizesAsSum<T(!new), K>(s: seq<T>, key: T -> K, ks: seq<K>, size: K -> int)
    requires forall k :: size(k) == |Group(s, key, k)|
    ensures GroupSizes(s, key, ks) == SumBy(ks, size)
  {
    if ks != [] {
      GroupSizesAsSum(s, key, ks[1..], size);
    }
  }

  /** A sum over a column does not depend on the order of the rows. */
  lemma {:induction false} SumByPermutation<T>(s: seq<T>, t: seq<T>, f: T -> int)
    requires multiset(s) == multiset(t)
    ensures SumBy(s, f) == SumBy(t, f)
  {
    if s == [] {
      assert |t| == |multiset(t)| == 0;
    } else {
      var x := s[0];
      assert x in multiset(t) by {
        assert x in multiset(s);
      }
      var j :| 0 <= j < |t| && t[j] == x;
      var rest := t[..j] + t[j + 1..];
      RemoveAtMultiset(t, j);
      RemoveAtSum(t, j, f);
      assert multiset(s) == multiset(s[1..]) + multiset{x} by {
        assert s == [x] + s[1..];
      }
      assert multiset(s[1..]) == multiset(s) - multiset{x};
      assert multiset(rest) == multiset(t) - multiset{x};
      SumByPermutation(s[1..], rest, f);
    }
  }

  /** Taking one row out of a table removes exactly that row from its
      multiset ... */
  lemma RemoveAtMultiset<T>(t: seq<T>, j: int)
    requires 0 <= j < |t|
    ensures multiset(t) == multiset(t[..j] + t[j + 1..]) + multiset{t[j]}
  {
    var front, back := t[..j], t[j + 1..];
    assert t == front + [t[j]] + back;
    calc {
      multiset(t);
      multiset(front + [t[j]] + back);
      multiset(front + [t[j]]) + multiset(back);
      multiset(front) + multiset{t[j]} + multiset(back);
      multiset(front + back) + multiset{t[j]};
    }
  }

  /** ... and exactly its value from the sum of a column. */
  lemma RemoveAtSum<T>(t: seq<T>, j: int, f: T -> int)
    requires 0 <= j < |t|
    ensures SumBy(t, f) == f(t[j]) + SumBy(t[..j] + t[j + 1..], f)
  {
    var front, back := t[..j], t[j + 1..];
    var tail := [t[j]] + back;
    assert t == front + tail;
    assert tail[0] == t[j] && tail[1..] == back;
    assert SumBy(tail, f) == f(t[j]) + SumBy(back, f);
    SumByConcat(front, tail, f);
    SumByConcat(front, back, f);
  }

  lemma {:induction false} NoDuplicatesCount<T>(s: seq<T>, x: T)
    requires NoDuplicates(s)
    ensures multiset(s)[x] <= 1
  {
    if s != [] {
      assert s == [s[0]] + s[1..];
      assert NoDuplicates(s[1..]) by {
        forall i, j | 0 <= i < j < |s[1..]| ensures s[1..][i] != s[1..][j] {
          assert s[1..][i] == s[i + 1] && s[1..][j] == s[j + 1];
        }
      }
      NoDuplicatesCount(s[1..], x);
      if s[0] == x {
        assert x !in s[1..] by {
          forall j | 0 <= j < |s[1..]| ensures s[1..][j] != x {
            assert s[1..][j] == s[j + 1];
          }
        }
      }
    }
  }

  /** Reordering rows cannot create a duplicate. */
  lemma PermutationNoDuplicates<T>(s: seq<T>, t: seq<T>)
    requires multiset(s) == multiset(t) && NoDuplicates(s)
    ensures NoDuplicates(t)
  {
    forall i, j | 0 <= i < j < |t| ensures t[i] != t[j] {
      if t[i] == t[j] {
        var x := t[i];
        assert t == t[..j] + t[j..];
        assert x in t[..j] && x in t[j..] by {
          assert t[..j][i] == x && t[j..][0] == x;
        }
        assert multiset(t)[x] == multiset(t[..j])[x] + multiset(t[j..])[x];
        NoDuplicatesCount(s, x);
        assert false;
      }
    }
  }

  predicate NonIncreasing<T>(s: seq<T>, key: T -> int) {
    forall i, j :: 0 <= i < j < |s| ==> key(s[i]) >= key(s[j])
  }

  /** Places x before the first element whose key is not larger than its own. */
  function InsertDesc<T>(x: T, s: seq<T>, key: T -> int): (r: seq<T>)
    ensures |r| == |s| + 1
  {
    if s == [] || key(x) >= key(s[0]) then [x] + s
    else [s[0]] + InsertDesc(x, s[1..], key)
  }

  lemma {:induction false} InsertDescPermutation<T>(x: T, s: seq<T>, key: T -> int)
    ensures multiset(InsertDesc(x, s, key)) == multiset(s) + multiset{x}
  {
    if s != [] && key(x) < key(s[0]) {
      InsertDescPermutation(x, s[1..], key);
      assert s == [s[0]] + s[1..];
    }
  }

  lemma ConsDesc<T>(x: T, s: seq<T>, key: T -> int)
    requires NonIncreasing(s, key)
    requires forall k :: 0 <= k < |s| ==> key(s[k]) <= key(x)
    ensures NonIncreasing([x] + s, key)
  {
    var r := [x] + s;
    forall i, j | 0 <= i < j < |r| ensures key(r[i]) >= key(r[j]) {
      assert r[j] == s[j - 1];
      if i > 0 {
        assert r[i] == s[i - 1];
      }
    }
  }

  lemma {:induction false} InsertDescSorted<T>(x: T, s: seq<T>, key: T -> int)
    requires NonIncreasing(s, key)
    ensures NonIncreasing(InsertDesc(x, s, key), key)
  {
    if s == [] || key(x) >= key(s[0]) {
      ConsDesc(x, s, key);
    } else {
      var rest := InsertDesc(x, s[1..], key);
      InsertDescSorted(x, s[1..], key);
      InsertDescPermutation(x, s[1..], key);
      forall k | 0 <= k < |rest| ensures key(rest[k]) <= key(s[0]) {
        var y := rest[k];
        assert y in multiset(rest);
        if y != x {
          assert y in multiset(s[1..]);
          var j :| 0 <= j < |s[1..]| && s[1..][j] == y;
          assert s[j + 1] == y;
        }
      }
      ConsDesc(s[0], rest, key);
    }
  }

  /** The rows of s ordered by non-increasing key. */
  function SortDesc<T>(s: seq<T>, key: T -> int): (r: seq<T>)
    ensures NonIncreasing(r, key)
    ensures multiset(r) == multiset(s)
    ensures |r| == |s|
  {
    if s == [] then []
    else
      var rest := SortDesc(s[1..], key);
      InsertDescSorted(s[0], rest, key);
      InsertDescPermutation(s[0], rest, key);
      assert s == [s[0]] + s[1..];
      InsertDesc(s[0], rest, key)
  }

  // ---------------------------------------------------------------------
  // Concatenation of tables and the left join.

  function Flatten<T>(ss: seq<seq<T>>): seq<T> {
    if ss == [] then [] else ss[0] + Flatten(ss[1..])
  }

  /** Key-uniqueness of a table. */
  predicate UniqueKeys<B, K(==)>(right: seq<B>, rk: B -> K) {
    forall i, j :: 0 <= i < j < |right| ==> rk(right[i]) != rk(right[j])
  }

  /** The first row of right with key k, if any. */
  function Lookup<B, K(==)>(right: seq<B>, rk: B -> K, k: K): (r: Option<B>)
    ensures r.Some? ==> r.value in right && rk(r.value) == k
    ensures r.None? ==> forall b :: b in right ==> rk(b) != k
  {
    if right == [] then None
    else if rk(right[0]) == k then Some(right[0])
    else Lookup(right[1..], rk, k)
  }

  /** The rows that a left join produces for one left row a: one per
      matching right row, in right order, or a single unmatched row. */
  function JoinOne<A, B(!new), K(==)>(a: A, right: seq<B>, lk: A -> K, rk: B -> K): (r: seq<(A, Option<B>)>)
    ensures |r| >= 1
  {
    var m := Group(right, rk, lk(a));
    if m == [] then [(a, None)] else seq(|m|, i requires 0 <= i < |m| => (a, Some(m[i])))
  }

  function LeftJoin<A, B(!new), K(==)>(left: seq<A>, right: seq<B>, lk: A -> K, rk: B -> K): (r: seq<(A, Option<B>)>)
    ensures |r| >= |left|
  {
    if left == [] then [] else JoinOne(left[0], right, lk, rk) + LeftJoin(left[1..], right, lk, rk)
  }

  lemma {:induction false} LeftJoinConcat<A, B(!new), K>(s: seq<A>, t: seq<A>, right: seq<B>, lk: A -> K, rk: B -> K)
    ensures LeftJoin(s + t, right, lk, rk) == LeftJoin(s, right, lk, rk) + LeftJoin(t, right, lk, rk)
  {
    if s == [] {
      assert s + t == t;
    } else {
      assert (s + t)[0] == s[0];
      assert (s + t)[1..] == s[1..] + t;
      LeftJoinConcat(s[1..], t, right, lk, rk);
    }
  }

  /** The joined table is each left row's own block, in left order. */
  lemma {:induction false} LeftJoinBlocks<A, B(!new), K>(left: seq<A>, right: seq<B>, lk: A -> K, rk: B -> K)
    ensures LeftJoin(left, right, lk, rk)
         == Flatten(seq(|left|, i requires 0 <= i < |left| => JoinOne(left[i], right, lk, rk)))
  {
    if left != [] {
      LeftJoinBlocks(left[1..], right, lk, rk);
      var blocks := seq(|left|, i requires 0 <= i < |left| => JoinOne(left[i], right, lk, rk));
      assert blocks[1..] == seq(|left[1..]|, i requires 0 <= i < |left[1..]| => JoinOne(left[1..][i], right, lk, rk));
    }
  }

  /** With unique right keys a key has at most one match, the looked-up row. */
  lemma {:induction false} UniqueKeysGroup<B(!new), K>(right: seq<B>, rk: B -> K, k: K)
    requires UniqueKeys(right, rk)
    ensures Group(right, rk, k) == (if Lookup(right, rk, k).Some? then [Lookup(right, rk, k).value] else [])
  {
    if right != [] {
      assert UniqueKeys(right[1..], rk) by {
        forall i, j | 0 <= i < j < |right[1..]| ensures rk(right[1..][i]) != rk(right[1..][j]) {
          assert right[1..][i] == right[i + 1] && right[1..][j] == right[j + 1];
        }
      }
      UniqueKeysGroup(right[1..], rk, k);
      if rk(right[0]) == k {
        assert Group(right[1..], rk, k) == [] by {
          forall b | b in right[1..] ensures rk(b) != k {
            var j :| 0 <= j < |right[1..]| && right[1..][j] == b;
            assert right[j + 1] == b;
          }
        }
      }
    }
  }

  /** With unique right keys the left join neither multiplies nor reorders
      left rows: it pairs every left row with its looked-up right row. */
  lemma {:induction false} LeftJoinUniqueKeys<A, B(!new), K>(a: A, right: seq<B>, lk: A -> K, rk: B -> K)
    requires UniqueKeys(right, rk)
    ensures JoinOne(a, right, lk, rk) == [(a, Lookup(right, rk, lk(a)))]
  {
    UniqueKeysGroup(right, rk, lk(a));
  }

  function JoinWidth<A, B(!new), K(==)>(a: A, right: seq<B>, lk: A -> K, rk: B -> K): int {
    var n := |Group(right, rk, lk(a))|;
    if n == 0 then 1 else n
  }

  /** A left row yields as many joined rows as it has matches, and one if none. */
  lemma {:induction false} LeftJoinLength<A, B(!new), K>(left: seq<A>, right: seq<B>, lk: A -> K, rk: B -> K)
    ensures |LeftJoin(left, right, lk, rk)| == SumBy(left, a => JoinWidth(a, right, lk, rk))
  {
    if left != [] {
      LeftJoinLength(left[1..], right, lk, rk);
    }
  }
}
