/** `remove_duplicates`: keep the first occurrence of every element. */
module Dedup {

  predicate NoDuplicates<T(==)>(s: seq<T>)
  {
    forall i, j :: 0 <= i < j < |s| ==> s[i] != s[j]
  }

  /** The position of the first occurrence of `x` in `s`. */
  function FirstIndex<T(==)>(s: seq<T>, x: T): (k: nat)
    requires x in s
    ensures k < |s| && s[k] == x && x !in s[..k]
  {
    if s[0] == x then 0
    else
      var k' := FirstIndex(s[1..], x);
      assert s[..k' + 1] == [s[0]] + s[1..][..k'];
      k' + 1
  }

  /** The elements of `s` in order, each kept only where it first occurs. It
      is defined the way the loop of `remove_duplicates` builds its list: the
      last element is added unless it has been seen before. */
  function Unique<T(==)>(s: seq<T>): (r: seq<T>)
    ensures forall i :: 0 <= i < |r| ==> r[i] in s
    ensures forall i :: 0 <= i < |s| ==> s[i] in r
    ensures NoDuplicates(r)
  {
    if s == [] then []
    else
      var p := Unique(s[..|s| - 1]);
      assert s == s[..|s| - 1] + [s[|s| - 1]];
      if s[|s| - 1] in p then p else p + [s[|s| - 1]]
  }

  /** The first occurrence of an element is the only index where it occurs
      with no earlier copy. */
  lemma FirstIndexUnique<T>(s: seq<T>, x: T, k: nat)
    requires k < |s| && s[k] == x && x !in s[..k]
    ensures FirstIndex(s, x) == k
  {
    var f := FirstIndex(s, x);
    assert forall j :: 0 <= j < k ==> s[..k][j] == s[j];
    assert forall j :: 0 <= j < f ==> s[..f][j] == s[j];
  }

  /** A prefix that already holds `x` sees its first occurrence where the
      whole sequence does. */
  lemma FirstIndexPrefix<T>(s: seq<T>, m: nat, x: T)
    requires m <= |s| && x in s[..m]
    ensures FirstIndex(s, x) == FirstIndex(s[..m], x)
  {
    var k := FirstIndex(s[..m], x);
    assert s[..k] == s[..m][..k];
    FirstIndexUnique(s, x, k);
  }

  /** The output lists the distinct elements in the order of their first
      occurrence in the input, so it is a subsequence of the input (the
      indices `FirstIndex` picks increase); with `Unique`'s own contract
      (same elements, no repeats) this pins the output down completely. */
  lemma {:induction false} UniqueFirstOccurrenceOrder<T>(s: seq<T>)
    ensures forall i, j :: 0 <= i < j < |Unique(s)| ==>
      FirstIndex(s, Unique(s)[i]) < FirstIndex(s, Unique(s)[j])
  {
    if s != [] {
      var n := |s| - 1;
      var t := s[..n];
      var p := Unique(t);
      UniqueFirstOccurrenceOrder(t);
      forall i | 0 <= i < |p| ensures FirstIndex(s, p[i]) == FirstIndex(t, p[i]) < n {
        FirstIndexPrefix(s, n, p[i]);
      }
      var r := Unique(s);
      if s[n] !in p {
        FirstIndexUnique(s, s[n], n);
      }
      forall i, j | 0 <= i < j < |r| ensures FirstIndex(s, r[i]) < FirstIndex(s, r[j]) {
        assert r[i] == p[i];
      }
    }
  }

  /** A sequence with no repeats is its own deduplication. */
  lemma {:induction false} UniqueOfDistinct<T>(s: seq<T>)
    requires NoDuplicates(s)
    ensures Unique(s) == s
  {
    if s != [] {
      var n := |s| - 1;
      UniqueOfDistinct(s[..n]);
      assert s[n] !in s[..n];
      assert s[..n] + [s[n]] == s;
    }
  }

  /** The loop of `remove_duplicates`: walk the items and append each one not
      yet in the output list. */
  method RemoveDuplicates<T(==)>(items: seq<T>) returns (unique: seq<T>)
    ensures unique == Unique(items)
  {
    unique := [];
    for i := 0 to |items|
      invariant unique == Unique(items[..i])
    {
      assert items[..i + 1][..i] == items[..i];
      if items[i] !in unique {
        unique := unique + [items[i]];
      }
    }
    assert items[..|items|] == items;
  }
}
