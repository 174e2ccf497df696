/** The doubly linked list of ints (`DLinkedList`, `DNode`).

    The object heap is a map from addresses to nodes, and a reference is
    `Null` or `Ref(address)`; `free` is the next address the allocator hands
    out for `new DNode(v)`. Nodes that are unlinked stay in the map, as
    unreachable objects do until collected. Each operation is a function from
    the list before the call to the list after it; what the list holds is
    given by the representation predicate `Repr`, which ties the list to its
    spine (the node addresses from `start` to `end`) and to the sequence of
    values stored in them. */
module DoublyLinkedList {

  import opened NodeHeap

  datatype DNode = DNode(value: int, prev: Ptr, next: Ptr)

  datatype DList = DList(heap: map<nat, DNode>, start: Ptr, end: Ptr, free: nat)

  ghost predicate PointsIntoHeap(heap: map<nat, DNode>, p: Ptr)
  {
    p.Ref? ==> p.addr in heap
  }

  /** Every reference is null or allocated, and every allocated address is
      below `free`. */
  ghost predicate Closed(l: DList)
  {
    && PointsIntoHeap(l.heap, l.start)
    && PointsIntoHeap(l.heap, l.end)
    && (forall a :: a in l.heap ==> a < l.free)
    && (forall a :: a in l.heap ==> PointsIntoHeap(l.heap, l.heap[a].prev) && PointsIntoHeap(l.heap, l.heap[a].next))
  }

  /** `l` holds the values `s`, in the nodes at addresses `spine`. */
  ghost predicate Repr(l: DList, spine: seq<nat>, s: seq<int>)
  {
    && Closed(l)
    && |spine| == |s|
    && (forall i :: 0 <= i < |spine| ==> spine[i] in l.heap)
    && Distinct(spine)
    && l.start == (if s == [] then Null else Ref(spine[0]))
    && l.end == (if s == [] then Null else Ref(spine[|s| - 1]))
    && Linked(l.heap, spine, s)
  }

  /** Node `spine[i]` holds `s[i]`, and its `prev` and `next` are the
      neighbouring nodes of the spine, or null at the ends. */
  ghost predicate Linked(heap: map<nat, DNode>, spine: seq<nat>, s: seq<int>)
    requires |spine| == |s| && forall i :: 0 <= i < |spine| ==> spine[i] in heap
  {
    forall i {:trigger heap[spine[i]]} :: 0 <= i < |spine| ==>
      && heap[spine[i]].value == s[i]
      && heap[spine[i]].prev == (if i == 0 then Null else Ref(spine[i - 1]))
      && heap[spine[i]].next == (if i == |s| - 1 then Null else Ref(spine[i + 1]))
  }

  /** `new DLinkedList()`. */
  function Empty(): (l: DList)
    ensures Repr(l, [], [])
  {
    DList(map[], Null, Null, 0)
  }

  /** `addFront(v)`: a new node becomes `start`. */
  function AddFront(l: DList, v: int): (r: DList)
    requires Closed(l)
    ensures Closed(r) && r.free == l.free + 1
    ensures r.start == Ref(l.free) && r.heap[l.free] == DNode(v, Null, l.start)
    ensures l.start.Ref? ==> r.end == l.end
  {
    var a := l.free;
    if l.start == Null then
      DList(l.heap[a := DNode(v, Null, Null)], Ref(a), Ref(a), a + 1)
    else
      var old_start := l.heap[l.start.addr];
      var heap := l.heap[a := DNode(v, Null, l.start)];
      DList(heap[l.start.addr := old_start.(prev := Ref(a))], Ref(a), l.end, a + 1)
  }

  /** `addBack(v)`: a new node becomes `end`. */
  function AddBack(l: DList, v: int): (r: DList)
    requires Closed(l)
    ensures Closed(r) && r.free == l.free + 1
    ensures r.end == Ref(l.free) && r.heap[l.free] == DNode(v, l.end, Null)
    ensures l.end.Ref? ==> r.start == l.start
  {
    var a := l.free;
    if l.end == Null then
      DList(l.heap[a := DNode(v, Null, Null)], Ref(a), Ref(a), a + 1)
    else
      var old_end := l.heap[l.end.addr];
      var heap := l.heap[a := DNode(v, l.end, Null)];
      DList(heap[l.end.addr := old_end.(next := Ref(a))], l.start, Ref(a), a + 1)
  }

  /** `removeFront()`: no-op on an empty list; a single node empties it;
      otherwise `start` moves to its successor, whose `prev` is cleared. */
  function RemoveFront(l: DList): (r: DList)
    requires Closed(l)
    ensures Closed(r) && r.free == l.free
    ensures l.start == Null ==> r == l
    ensures l.start.Ref? && l.start == l.end ==> r.start == Null && r.end == Null
  {
    if l.start == Null then l
    else if l.start == l.end then DList(l.heap, Null, Null, l.free)
    else
      var next := l.heap[l.start.addr].next;
      if next == Null then DList(l.heap, Null, l.end, l.free)
      else DList(l.heap[next.addr := l.heap[next.addr].(prev := Null)], next, l.end, l.free)
  }

  /** `removeBack()`: no-op on an empty list; a single node empties it;
      otherwise `end` moves to its predecessor, whose `next` is cleared. */
  function RemoveBack(l: DList): (r: DList)
    requires Closed(l)
    ensures Closed(r) && r.free == l.free
    ensures l.end == Null ==> r == l
    ensures l.end.Ref? && l.start == l.end ==> r.start == Null && r.end == Null
  {
    if l.end == Null then l
    else if l.start == l.end then DList(l.heap, Null, Null, l.free)
    else
      var prev := l.heap[l.end.addr].prev;
      if prev == Null then DList(l.heap, l.start, Null, l.free)
      else DList(l.heap[prev.addr := l.heap[prev.addr].(next := Null)], l.start, prev, l.free)
  }

  /** The structural invariant: `start` and `end` are null together, the first
      node has no predecessor, the last no successor, and every forward link
      is matched by a backward one. */
  lemma {:induction false} ReprIsWellLinked(l: DList, spine: seq<nat>, s: seq<int>)
    requires Repr(l, spine, s)
    ensures l.start == Null <==> l.end == Null
    ensures l.start.Ref? ==> l.heap[l.start.addr].prev == Null
    ensures l.end.Ref? ==> l.heap[l.end.addr].next == Null
    ensures forall i :: 0 <= i < |spine| && l.heap[spine[i]].next.Ref? ==>
      var n := l.heap[spine[i]].next.addr; n in l.heap && l.heap[n].prev == Ref(spine[i])
  {
    forall i | 0 <= i < |spine| && l.heap[spine[i]].next.Ref?
      ensures var n := l.heap[spine[i]].next.addr; n in l.heap && l.heap[n].prev == Ref(spine[i])
    {
      assert i + 1 < |spine|;
    }
  }

  /** A list holds one sequence only: the spine and the values are
      determined by the heap and `start`. */
  lemma {:induction false} ReprIsUnique(l: DList, spine1: seq<nat>, s1: seq<int>, spine2: seq<nat>, s2: seq<int>)
    requires Repr(l, spine1, s1) && Repr(l, spine2, s2)
    ensures spine1 == spine2 && s1 == s2
  {
    var n := if |spine1| <= |spine2| then |spine1| else |spine2|;
    var k := 0;
    while k < n
      invariant 0 <= k <= n
      invariant forall i :: 0 <= i < k ==> spine1[i] == spine2[i]
    {
      if k > 0 {
        assert l.heap[spine1[k - 1]].next == Ref(spine1[k]);
        assert l.heap[spine2[k - 1]].next == Ref(spine2[k]);
      }
      k := k + 1;
    }
    assert spine1 == spine2;
    forall i | 0 <= i < |s1|
      ensures s1[i] == s2[i]
    {
      assert l.heap[spine1[i]].value == s1[i];
      assert l.heap[spine2[i]].value == s2[i];
    }
  }

  lemma AddFrontRefines(l: DList, spine: seq<nat>, s: seq<int>, v: int)
    requires Repr(l, spine, s)
    ensures Repr(AddFront(l, v), [l.free] + spine, [v] + s)
  {
    var r := AddFront(l, v);
    assert forall i :: 0 <= i < |spine| ==> spine[i] != l.free;
    LinkedCons(l.heap, r.heap, spine, s, l.free, v);
  }

  lemma AddBackRefines(l: DList, spine: seq<nat>, s: seq<int>, v: int)
    requires Repr(l, spine, s)
    ensures Repr(AddBack(l, v), spine + [l.free], s + [v])
  {
    var r := AddBack(l, v);
    assert forall i :: 0 <= i < |spine| ==> spine[i] != l.free;
    LinkedSnoc(l.heap, r.heap, spine, s, l.free, v);
  }

  lemma RemoveFrontRefines(l: DList, spine: seq<nat>, s: seq<int>)
    requires Repr(l, spine, s)
    ensures s == [] ==> RemoveFront(l) == l
    ensures s != [] ==> Repr(RemoveFront(l), spine[1..], s[1..])
  {
    if |s| > 1 {
      assert l.heap[spine[0]].next == Ref(spine[1]);
      LinkedTail(l.heap, RemoveFront(l).heap, spine, s);
    }
  }

  lemma RemoveBackRefines(l: DList, spine: seq<nat>, s: seq<int>)
    requires Repr(l, spine, s)
    ensures s == [] ==> RemoveBack(l) == l
    ensures s != [] ==> Repr(RemoveBack(l), spine[..|s| - 1], s[..|s| - 1])
  {
    var n := |s|;
    if n > 1 {
      var r, spine', s' := RemoveBack(l), spine[..n - 1], s[..n - 1];
      assert r.heap == l.heap[spine[n - 2] := l.heap[spine[n - 2]].(next := Null)] by {
        assert spine[0] != spine[n - 1];
        assert l.heap[spine[n - 1]].prev == Ref(spine[n - 2]);
      }
      assert Distinct(spine');
      assert Linked(r.heap, spine', s') by {
        LinkedInit(l.heap, r.heap, spine, s);
      }
    }
  }

  /** The links after a new node `a` is put in front of the spine. */
  lemma LinkedCons(heap: map<nat, DNode>, heap': map<nat, DNode>, spine: seq<nat>, s: seq<int>, a: nat, v: int)
    requires |spine| == |s| && (forall i :: 0 <= i < |spine| ==> spine[i] in heap && spine[i] != a)
    requires Distinct(spine) && Linked(heap, spine, s)
    requires heap' == if spine == [] then heap[a := DNode(v, Null, Null)]
                      else heap[a := DNode(v, Null, Ref(spine[0]))][spine[0] := heap[spine[0]].(prev := Ref(a))]
    ensures forall i :: 0 <= i < |spine| + 1 ==> ([a] + spine)[i] in heap'
    ensures Linked(heap', [a] + spine, [v] + s)
  {
    var spine', s' := [a] + spine, [v] + s;
    forall i | 0 <= i < |spine'|
      ensures spine'[i] in heap'
      ensures heap'[spine'[i]].value == s'[i]
      ensures heap'[spine'[i]].prev == if i == 0 then Null else Ref(spine'[i - 1])
      ensures heap'[spine'[i]].next == if i == |s'| - 1 then Null else Ref(spine'[i + 1])
    {
      if i > 1 {
        assert spine'[i] == spine[i - 1] && spine[i - 1] != spine[0];
        assert heap'[spine'[i]] == heap[spine[i - 1]];
      } else if i == 1 {
        assert spine'[i] == spine[0];
      }
    }
  }

  /** The links after a new node `a` is put behind the spine. */
  lemma LinkedSnoc(heap: map<nat, DNode>, heap': map<nat, DNode>, spine: seq<nat>, s: seq<int>, a: nat, v: int)
    requires |spine| == |s| && (forall i :: 0 <= i < |spine| ==> spine[i] in heap && spine[i] != a)
    requires Distinct(spine) && Linked(heap, spine, s)
    requires heap' == if spine == [] then heap[a := DNode(v, Null, Null)]
                      else var e := spine[|spine| - 1];
                           heap[a := DNode(v, Ref(e), Null)][e := heap[e].(next := Ref(a))]
    ensures forall i :: 0 <= i < |spine| + 1 ==> (spine + [a])[i] in heap'
    ensures Linked(heap', spine + [a], s + [v])
  {
    var spine', s' := spine + [a], s + [v];
    var n := |spine|;
    forall i | 0 <= i < |spine'|
      ensures spine'[i] in heap'
      ensures heap'[spine'[i]].value == s'[i]
      ensures heap'[spine'[i]].prev == if i == 0 then Null else Ref(spine'[i - 1])
      ensures heap'[spine'[i]].next == if i == |s'| - 1 then Null else Ref(spine'[i + 1])
    {
      if i < n - 1 {
        assert spine'[i] == spine[i] && spine[i] != spine[n - 1];
        assert heap'[spine'[i]] == heap[spine[i]];
      } else if i == n - 1 {
        assert spine'[i] == spine[n - 1];
      }
    }
  }

  /** The links after the first node is dropped and its successor's `prev`
      cleared. */
  lemma LinkedTail(heap: map<nat, DNode>, heap': map<nat, DNode>, spine: seq<nat>, s: seq<int>)
    requires |spine| == |s| > 1 && (forall i :: 0 <= i < |spine| ==> spine[i] in heap)
    requires Distinct(spine) && Linked(heap, spine, s)
    requires heap' == heap[spine[1] := heap[spine[1]].(prev := Null)]
    ensures Linked(heap', spine[1..], s[1..])
  {
    var spine', s' := spine[1..], s[1..];
    forall i | 0 <= i < |spine'|
      ensures spine'[i] in heap'
      ensures heap'[spine'[i]].value == s'[i]
      ensures heap'[spine'[i]].prev == if i == 0 then Null else Ref(spine'[i - 1])
      ensures heap'[spine'[i]].next == if i == |s'| - 1 then Null else Ref(spine'[i + 1])
    {
      assert spine'[i] == spine[i + 1];
      if i > 0 {
        assert spine[i + 1] != spine[1];
        assert heap'[spine'[i]] == heap[spine[i + 1]];
      }
    }
  }

  /** The links after the last node is dropped and its predecessor's `next`
      cleared. */
  lemma LinkedInit(heap: map<nat, DNode>, heap': map<nat, DNode>, spine: seq<nat>, s: seq<int>)
    requires |spine| == |s| > 1 && (forall i :: 0 <= i < |spine| ==> spine[i] in heap)
    requires (forall i :: 0 <= i < |spine| - 2 ==> spine[i] != spine[|spine| - 2]) && Linked(heap, spine, s)
    requires var p := spine[|spine| - 2]; heap' == heap[p := heap[p].(next := Null)]
    ensures Linked(heap', spine[..|spine| - 1], s[..|s| - 1])
  {
    var n := |spine|;
    var spine', s' := spine[..n - 1], s[..n - 1];
    forall i | 0 <= i < |spine'|
      ensures spine'[i] in heap'
      ensures heap'[spine'[i]].value == s'[i]
      ensures heap'[spine'[i]].prev == if i == 0 then Null else Ref(spine'[i - 1])
      ensures heap'[spine'[i]].next == if i == |s'| - 1 then Null else Ref(spine'[i + 1])
    {
      LinkedInitAt(heap, heap', spine, s, i);
    }
  }

  lemma LinkedInitAt(heap: map<nat, DNode>, heap': map<nat, DNode>, spine: seq<nat>, s: seq<int>, i: int)
    requires |spine| == |s| > 1 && (forall i :: 0 <= i < |spine| ==> spine[i] in heap)
    requires (forall i :: 0 <= i < |spine| - 2 ==> spine[i] != spine[|spine| - 2]) && Linked(heap, spine, s)
    requires var p := spine[|spine| - 2]; heap' == heap[p := heap[p].(next := Null)]
    requires 0 <= i < |spine| - 1
    ensures var spine', s' := spine[..|spine| - 1], s[..|s| - 1];
      && spine'[i] in heap'
      && heap'[spine'[i]].value == s'[i]
      && heap'[spine'[i]].prev == (if i == 0 then Null else Ref(spine'[i - 1]))
      && heap'[spine'[i]].next == (if i == |s'| - 1 then Null else Ref(spine'[i + 1]))
  {
    var n := |spine|;
    if i < n - 2 {
      assert heap'[spine[i]] == heap[spine[i]];
    }
  }

  /** `printList()`: walks `next` from `start` and emits each value; the
      values come out exactly as the list holds them. */
  method PrintList(l: DList, ghost spine: seq<nat>, ghost s: seq<int>) returns (out: seq<int>)
    requires Repr(l, spine, s)
    ensures out == s
  {
    out := Collect(l.heap, l.start, spine, s);
  }

  /** The loop of `printList()`, on the links alone. */
  method Collect(heap: map<nat, DNode>, start: Ptr, ghost spine: seq<nat>, ghost s: seq<int>) returns (out: seq<int>)
    requires |spine| == |s| && (forall i :: 0 <= i < |spine| ==> spine[i] in heap) && Linked(heap, spine, s)
    requires start == if s == [] then Null else Ref(spine[0])
    ensures out == s
  {
    var cur := start;
    out := [];
    ghost var k := 0;
    while cur != Null
      invariant 0 <= k <= |s| && out == s[..k]
      invariant k < |s| ==> cur == Ref(spine[k])
      invariant k == |s| ==> cur == Null
      decreases |s| - k
    {
      assert heap[spine[k]].value == s[k];
      TakeOneMore(s, k);
      out := out + [heap[cur.addr].value];
      cur := heap[cur.addr].next;
      k := k + 1;
    }
  }

  /** The demonstration in `main`: add 1 at the front, 2 at the back, 3 at
      the front, giving [3, 1, 2]; then remove at both ends, giving [1]. */
  method Demo() returns (full: DList, trimmed: DList)
    ensures Repr(full, [2, 0, 1], [3, 1, 2])
    ensures Repr(trimmed, [0], [1])
  {
    full := DemoBuild();
    trimmed := DemoTrim(full);
  }

  method DemoBuild() returns (full: DList)
    ensures Repr(full, [2, 0, 1], [3, 1, 2])
  {
    var l0 := Empty();
    var l1 := AddFront(l0, 1);
    assert Repr(l1, [0], [1]) by {
      AddFrontRefines(l0, [], [], 1);
    }
    var l2 := AddBack(l1, 2);
    assert Repr(l2, [0, 1], [1, 2]) by {
      AddBackRefines(l1, [0], [1], 2);
    }
    full := AddFront(l2, 3);
    assert Repr(full, [2, 0, 1], [3, 1, 2]) by {
      AddFrontRefines(l2, [0, 1], [1, 2], 3);
      assert [2] + [0, 1] == [2, 0, 1] && [3] + [1, 2] == [3, 1, 2];
    }
  }

  method DemoTrim(full: DList) returns (trimmed: DList)
    requires Repr(full, [2, 0, 1], [3, 1, 2])
    ensures Repr(trimmed, [0], [1])
  {
    var l4 := RemoveFront(full);
    assert Repr(l4, [0, 1], [1, 2]) by {
      RemoveFrontRefines(full, [2, 0, 1], [3, 1, 2]);
      assert [2, 0, 1][1..] == [0, 1] && [3, 1, 2][1..] == [1, 2];
    }
    trimmed := RemoveBack(l4);
    assert Repr(trimmed, [0], [1]) by {
      RemoveBackRefines(l4, [0, 1], [1, 2]);
      assert [0, 1][..1] == [0] && [1, 2][..1] == [1];
    }
  }
}
