/** Counting how often each value occurs in an array (`countFreq`).

    `countFreq` fills a hash map value -> count in one pass, then emits one
    `[value, count]` entry per key in the map's iteration order, which is
    unspecified; here that order is a nondeterministic choice, and every
    property is stated independently of it. */
module Frequency {

  /** The number of indices `i` with `a[i] == x`. */
  function Count(a: seq<int>, x: int): nat
  {
    if a == [] then 0
    else Count(a[..|a| - 1], x) + (if a[|a| - 1] == x then 1 else 0)
  }

  lemma {:induction false} CountIsMultiplicity(a: seq<int>, x: int)
    ensures Count(a, x) == multiset(a)[x]
  {
    if a != [] {
      CountIsMultiplicity(a[..|a| - 1], x);
      assert a == a[..|a| - 1] + [a[|a| - 1]];
    }
  }

  /** Sum of the counts of a list of entries. */
  function SumCounts(entries: seq<(int, int)>): int
  {
    if entries == [] then 0
    else SumCounts(entries[..|entries| - 1]) + entries[|entries| - 1].1
  }

  /** The first loop: the map from each value of `a` to its number of
      occurrences. */
  method BuildTable(a: seq<int>) returns (table: map<int, nat>)
    ensures table.Keys == set x | x in a
    ensures forall x :: x in table ==> table[x] == Count(a, x)
  {
    table := map[];
    var i := 0;
    while i < |a|
      invariant 0 <= i <= |a|
      invariant table.Keys == set x | x in a[..i]
      invariant forall x :: Count(a[..i], x) == if x in table then table[x] else 0
    {
      assert a[..i + 1][..i] == a[..i];
      assert forall x :: Count(a[..i + 1], x) == Count(a[..i], x) + if a[i] == x then 1 else 0;
      var old_count := if a[i] in table then table[a[i]] else 0;
      table := table[a[i] := old_count + 1];
      i := i + 1;
    }
    assert a[..i] == a;
  }

  /** `countFreq`: one `(value, count)` entry per distinct value of `a`. */
  method CountFreq(a: seq<int>) returns (entries: seq<(int, int)>)
    ensures forall e :: e in entries ==> e.0 in a && e.1 == Count(a, e.0)
    ensures forall x :: x in a ==> exists e :: e in entries && e.0 == x
    ensures forall i, j :: 0 <= i < j < |entries| ==> entries[i].0 != entries[j].0
    ensures forall e :: e in entries ==> e.1 >= 1
    ensures SumCounts(entries) == |a|
    ensures a == [] ==> entries == []
  {
    var table := BuildTable(a);
    var keys := table.Keys;
    entries := [];
    // the occurrences in `a` of the values not yet emitted
    ghost var rest := multiset(a);
    while keys != {}
      invariant keys <= table.Keys
      invariant forall e :: e in entries ==> e.0 in table && e.0 !in keys && e.1 == table[e.0]
      invariant forall x :: x in table && x !in keys ==> exists e :: e in entries && e.0 == x
      invariant forall i, j :: 0 <= i < j < |entries| ==> entries[i].0 != entries[j].0
      invariant forall x :: rest[x] == if x in keys then multiset(a)[x] else 0
      invariant SumCounts(entries) + |rest| == |a|
      decreases keys
    {
      HasElement(keys);
      // the hash map's iteration order is unspecified: any key may come next
      var k :| k in keys;
      CountIsMultiplicity(a, k);
      RemoveAll(rest, k);
      rest := rest[k := 0];
      entries := entries + [(k, table[k])];
      keys := keys - {k};
    }
    forall e | e in entries
      ensures e.1 >= 1
    {
      assert e.0 in a;
      CountIsMultiplicity(a, e.0);
    }
    assert forall x :: rest[x] == 0;
    assert rest == multiset{};
    forall x | x in a
      ensures exists e :: e in entries && e.0 == x
    {
      assert x in table;
    }
  }

  lemma HasElement(s: set<int>)
    requires s != {}
    ensures exists x :: x in s
  {
    if forall x :: x !in s {
      assert false;
    }
  }

  /** Dropping every copy of `x` shrinks a multiset by the multiplicity of `x`. */
  lemma RemoveAll(m: multiset<int>, x: int)
    ensures |m[x := 0]| + m[x] == |m|
  {
    var copies := Copies(x, m[x]);
    assert m == m[x := 0] + copies;
  }

  /** `n` copies of `x`. */
  function Copies(x: int, n: nat): (c: multiset<int>)
    ensures |c| == n
    ensures c[x] == n
    ensures forall y :: y != x ==> c[y] == 0
  {
    if n == 0 then multiset{} else Copies(x, n - 1) + multiset{x}
  }
}
