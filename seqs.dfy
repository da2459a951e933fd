/** Order-preserving selection over database tables kept as sequences of rows,
    the building block of every repository query of the model. */
module Seqs {

  import opened Common

  /** The rows of `s` satisfying `p`, in table order. */
  function Filter<T(!new)>(s: seq<T>, p: T -> bool): (r: seq<T>)
    ensures |r| <= |s|
    ensures forall x :: x in r <==> x in s && p(x)
    ensures forall i :: 0 <= i < |r| ==> p(r[i])
  {
    if s == [] then []
    else if p(s[0]) then [s[0]] + Filter(s[1..], p)
    else Filter(s[1..], p)
  }

  /** Index of the first row satisfying `p`, if any. */
  function IndexWhere<T(!new)>(s: seq<T>, p: T -> bool): (r: Option<nat>)
    ensures r.Some? ==> r.value < |s| && p(s[r.value])
    ensures r.Some? ==> forall j :: 0 <= j < r.value ==> !p(s[j])
    ensures r.None? <==> forall x :: x in s ==> !p(x)
  {
    if s == [] then None
    else if p(s[0]) then Some(0)
    else match IndexWhere(s[1..], p)
      case None => None
      case Some(k) => Some(k + 1)
  }

  /** No two rows of `s` share a key: the unique constraint of a table. */
  ghost predicate DistinctBy<T, K>(s: seq<T>, key: T -> K) {
    forall i, j :: 0 <= i < j < |s| ==> key(s[i]) != key(s[j])
  }

  /** The set of keys occurring in `s`. */
  ghost function Keys<T(!new), K>(s: seq<T>, key: T -> K): (r: set<K>)
    ensures forall x :: x in s ==> key(x) in r
    ensures forall k :: k in r ==> exists x :: x in s && key(x) == k
  {
    set x | x in s :: key(x)
  }

  /** A filtered table still satisfies each unique constraint of the table. */
  lemma {:induction false} FilterDistinct<T(!new), K>(s: seq<T>, p: T -> bool, key: T -> K)
    requires DistinctBy(s, key)
    ensures DistinctBy(Filter(s, p), key)
  {
    if s != [] {
      var tail := s[1..];
      DistinctTail(s, key);
      FilterDistinct(tail, p, key);
      if p(s[0]) {
        var ft := Filter(tail, p);
        var r := [s[0]] + ft;
        forall i, j | 0 <= i < j < |r| ensures key(r[i]) != key(r[j]) {
          if i == 0 {
            assert r[j] == ft[j - 1];
            assert ft[j - 1] in tail;
            var k :| 0 <= k < |tail| && tail[k] == ft[j - 1];
            assert s[k + 1] == tail[k];
          } else {
            assert r[i] == ft[i - 1] && r[j] == ft[j - 1];
          }
        }
      }
    }
  }

  /** The rows after the first of a table with a unique constraint keep it, and none
      of them shares the first row's key. */
  lemma DistinctTail<T, K>(s: seq<T>, key: T -> K)
    requires DistinctBy(s, key) && s != []
    ensures DistinctBy(s[1..], key)
    ensures forall x :: x in s[1..] ==> key(x) != key(s[0])
  {
    var tail := s[1..];
    forall i, j | 0 <= i < j < |tail| ensures key(tail[i]) != key(tail[j]) {
      assert tail[i] == s[i + 1] && tail[j] == s[j + 1];
    }
    forall x | x in tail ensures key(x) != key(s[0]) {
      var k :| 0 <= k < |tail| && tail[k] == x;
      assert s[k + 1] == x;
    }
  }

  /** The keys of a non-empty table: the first row's key and the keys of the rest. */
  lemma KeysCons<T(!new), K>(s: seq<T>, key: T -> K)
    requires s != []
    ensures Keys(s, key) == {key(s[0])} + Keys(s[1..], key)
  {
    assert s == [s[0]] + s[1..];
  }

  /** Nothing is kept when no element satisfies the predicate. */
  lemma {:induction false} FilterNone<T(!new)>(s: seq<T>, p: T -> bool)
    requires forall x :: x in s ==> !p(x)
    ensures Filter(s, p) == []
  {
    if s != [] {
      assert s[0] in s;
      assert forall x :: x in s[1..] ==> x in s;
      FilterNone(s[1..], p);
    }
  }

  /** Filtering depends only on the values the predicate takes. */
  lemma {:induction false} FilterExt<T(!new)>(s: seq<T>, p: T -> bool, q: T -> bool)
    requires forall x :: x in s ==> p(x) == q(x)
    ensures Filter(s, p) == Filter(s, q)
  {
    if s != [] {
      assert s[0] in s;
      assert forall x :: x in s[1..] ==> x in s;
      FilterExt(s[1..], p, q);
    }
  }

  /** A selection by a disjunction of two exclusive predicates counts as many rows
      as the two selections together. */
  lemma {:induction false} FilterSplit<T(!new)>(s: seq<T>, u: T -> bool, p: T -> bool, q: T -> bool)
    requires forall x :: x in s ==> (u(x) <==> p(x) || q(x))
    requires forall x :: x in s ==> !(p(x) && q(x))
    ensures |Filter(s, u)| == |Filter(s, p)| + |Filter(s, q)|
  {
    if s != [] {
      assert s[0] in s;
      assert forall x :: x in s[1..] ==> x in s;
      FilterSplit(s[1..], u, p, q);
    }
  }

  /** Overwriting the first row satisfying `p` with another such row keeps it first. */
  lemma IndexWhereReplace<T(!new)>(s: seq<T>, p: T -> bool, i: nat, x: T)
    requires IndexWhere(s, p) == Some(i) && p(x)
    ensures IndexWhere(s[i := x], p) == Some(i)
  {
    var s' := s[i := x];
    assert s'[i] in s';
    var k := IndexWhere(s', p).value;
    assert k == i;
  }

  /** A row satisfying `p` appended after rows that do not is found at the end. */
  lemma IndexWhereAppend<T(!new)>(s: seq<T>, p: T -> bool, x: T)
    requires IndexWhere(s, p).None? && p(x)
    ensures IndexWhere(s + [x], p) == Some(|s|)
  {
    var s' := s + [x];
    assert s'[|s|] in s';
    var k := IndexWhere(s', p).value;
    assert k == |s|;
  }

  /** In a table whose rows have distinct keys, a row is determined by its key. */
  lemma DistinctByUnique<T, K>(s: seq<T>, key: T -> K, x: T, y: T)
    requires DistinctBy(s, key)
    requires x in s && y in s && key(x) == key(y)
    ensures x == y
  {
    var i :| 0 <= i < |s| && s[i] == x;
    var j :| 0 <= j < |s| && s[j] == y;
    assert i == j;
  }

  /** Appending a row whose key is new keeps a unique constraint. */
  lemma AppendDistinct<T, K>(s: seq<T>, key: T -> K, x: T)
    requires DistinctBy(s, key)
    requires forall y :: y in s ==> key(y) != key(x)
    ensures DistinctBy(s + [x], key)
  {
    var r := s + [x];
    forall i, j | 0 <= i < j < |r| ensures key(r[i]) != key(r[j]) {
      if j == |s| {
        assert r[i] == s[i] && s[i] in s;
      } else {
        assert r[i] == s[i] && r[j] == s[j];
      }
    }
  }

  /** Replacing a row by one with the same key keeps a unique constraint. */
  lemma ReplaceDistinct<T, K>(s: seq<T>, key: T -> K, i: nat, x: T)
    requires DistinctBy(s, key)
    requires i < |s| && key(s[i]) == key(x)
    ensures DistinctBy(s[i := x], key)
  {
  }

  /** Replacing one row with another (any key) where the new key occurs nowhere else. */
  lemma ReplaceFreshDistinct<T, K>(s: seq<T>, key: T -> K, i: nat, x: T)
    requires DistinctBy(s, key)
    requires i < |s|
    requires forall j :: 0 <= j < |s| && j != i ==> key(s[j]) != key(x)
    ensures DistinctBy(s[i := x], key)
  {
  }
}
