/** The circular singly linked list of ints (`CLinkedList`, `CNode`).

    The only handle is `rear`, the last node; `rear.next` is the first. The
    heap is modelled as in `DoublyLinkedList`: a map from addresses to nodes,
    references `Null` or `Ref(address)` (`NodeHeap`), and `free` the next address handed
    out for `new CNode(v)`. `Repr` ties a list to its spine (the node
    addresses from the first node to `rear`) and to the values in them. */
module CircularList {

  import opened NodeHeap

  datatype CNode = CNode(val: int, next: Ptr)

  datatype CList = CList(heap: map<nat, CNode>, rear: Ptr, free: nat)

  ghost predicate PointsIntoHeap(heap: map<nat, CNode>, p: Ptr)
  {
    p.Ref? ==> p.addr in heap
  }

  /** `rear` is null or allocated, every node's `next` is allocated (a node
      gets a non-null successor as soon as it is linked in), and every
      allocated address is below `free`. */
  ghost predicate Closed(c: CList)
  {
    && PointsIntoHeap(c.heap, c.rear)
    && (forall a :: a in c.heap ==> a < c.free)
    && (forall a :: a in c.heap ==> c.heap[a].next.Ref? && c.heap[a].next.addr in c.heap)
  }

  /** Node `spine[i]` holds `s[i]` and links to the next node of the spine,
      the last one back to the first. */
  ghost predicate Linked(heap: map<nat, CNode>, spine: seq<nat>, s: seq<int>)
    requires |spine| == |s| && forall i :: 0 <= i < |spine| ==> spine[i] in heap
  {
    forall i {:trigger heap[spine[i]]} :: 0 <= i < |spine| ==>
      && heap[spine[i]].val == s[i]
      && heap[spine[i]].next == Ref(spine[if i == |spine| - 1 then 0 else i + 1])
  }

  /** `c` holds the values `s`, in the nodes at addresses `spine`. */
  ghost predicate Repr(c: CList, spine: seq<nat>, s: seq<int>)
  {
    && Closed(c)
    && |spine| == |s|
    && (forall i :: 0 <= i < |spine| ==> spine[i] in c.heap)
    && Distinct(spine)
    && c.rear == (if s == [] then Null else Ref(spine[|s| - 1]))
    && Linked(c.heap, spine, s)
  }

  /** `new CLinkedList()`. */
  function Empty(): (c: CList)
    ensures Repr(c, [], [])
  {
    CList(map[], Null, 0)
  }

  /** `addFront(v)`: the new node goes right after `rear`, which stays. */
  function AddFront(c: CList, v: int): (r: CList)
    requires Closed(c)
    ensures Closed(r) && r.free == c.free + 1
    ensures c.rear.Ref? ==> r.rear == c.rear && r.heap[c.rear.addr].next == Ref(c.free)
    ensures c.rear == Null ==> r.rear == Ref(c.free) && r.heap[c.free].next == Ref(c.free)
  {
    var a := c.free;
    if c.rear == Null then
      CList(c.heap[a := CNode(v, Ref(a))], Ref(a), a + 1)
    else
      var last := c.heap[c.rear.addr];
      CList(c.heap[a := CNode(v, last.next)][c.rear.addr := last.(next := Ref(a))], c.rear, a + 1)
  }

  /** `addBack(v)`: the new node goes right after `rear` and becomes `rear`. */
  function AddBack(c: CList, v: int): (r: CList)
    requires Closed(c)
    ensures Closed(r) && r.free == c.free + 1
    ensures r.rear == Ref(c.free)
    ensures c.rear.Ref? ==> c.rear.addr in r.heap && r.heap[c.rear.addr].next == Ref(c.free)
  {
    var a := c.free;
    if c.rear == Null then
      CList(c.heap[a := CNode(v, Ref(a))], Ref(a), a + 1)
    else
      var last := c.heap[c.rear.addr];
      CList(c.heap[a := CNode(v, last.next)][c.rear.addr := last.(next := Ref(a))], Ref(a), a + 1)
  }

  /** `removeFront()`: no-op on an empty list; a list whose head is `rear`
      becomes empty; otherwise `rear` skips over the head. */
  function RemoveFront(c: CList): (r: CList)
    requires Closed(c)
    ensures Closed(r) && r.free == c.free
    ensures c.rear == Null ==> r == c
  {
    if c.rear == Null then c
    else
      var head := c.heap[c.rear.addr].next;
      if c.rear == head then CList(c.heap, Null, c.free)
      else CList(c.heap[c.rear.addr := c.heap[c.rear.addr].(next := c.heap[head.addr].next)], c.rear, c.free)
  }

  /** `removeBack()`: no-op on an empty list; a list whose head is `rear`
      becomes empty; otherwise the node just before `rear` is linked to the
      head and becomes `rear`. */
  method RemoveBack(c: CList, ghost spine: seq<nat>, ghost s: seq<int>) returns (r: CList)
    requires Repr(c, spine, s)
    ensures s == [] ==> r == c
    ensures s != [] ==> Repr(r, spine[..|s| - 1], s[..|s| - 1])
  {
    if c.rear == Null {
      return c;
    }
    var n := |s|;
    var head := c.heap[c.rear.addr].next;
    if head == c.rear {
      assert n == 1;
      return CList(c.heap, Null, c.free);
    }
    var cur := BeforeRear(c, spine, s);
    r := CList(c.heap[cur.addr := c.heap[cur.addr].(next := head)], cur, c.free);
    assert Closed(r);
    assert Linked(r.heap, spine[..n - 1], s[..n - 1]) by {
      LinkedInit(c.heap, r.heap, spine, s);
    }
    assert Distinct(spine[..n - 1]);
  }

  /** The loop of `removeBack()`: walks from the head until the node whose
      `next` is `rear`. */
  method BeforeRear(c: CList, ghost spine: seq<nat>, ghost s: seq<int>) returns (cur: Ptr)
    requires Repr(c, spine, s) && |s| >= 2
    ensures cur == Ref(spine[|s| - 2])
  {
    var n := |s|;
    cur := c.heap[c.rear.addr].next;
    ghost var k := 0;
    while c.heap[cur.addr].next != c.rear
      invariant 0 <= k <= n - 2
      invariant cur == Ref(spine[k])
      decreases n - 2 - k
    {
      assert c.heap[spine[k]].next == Ref(spine[k + 1]);
      cur := c.heap[cur.addr].next;
      k := k + 1;
    }
    assert k == n - 2;
  }

  /** Follows `next` references `k` times from `p` (a null or dangling
      reference stops the walk at null). */
  function Follow(heap: map<nat, CNode>, p: Ptr, k: nat): Ptr
    decreases k
  {
    if k == 0 then p
    else if p.Ref? && p.addr in heap then Follow(heap, heap[p.addr].next, k - 1)
    else Null
  }

  lemma {:induction false} FollowAlongSpine(heap: map<nat, CNode>, spine: seq<nat>, s: seq<int>, i: nat, k: nat)
    requires |spine| == |s| && forall j :: 0 <= j < |spine| ==> spine[j] in heap
    requires Linked(heap, spine, s) && i + k < |s|
    ensures Follow(heap, Ref(spine[i]), k) == Ref(spine[i + k])
    decreases k
  {
    if k > 0 {
      assert heap[spine[i]].next == Ref(spine[i + 1]);
      FollowAlongSpine(heap, spine, s, i + 1, k - 1);
    }
  }

  /** The circularity invariant: walking `next` from `rear` first comes back
      to `rear` after exactly as many steps as the list has elements, having
      visited the elements in order. */
  lemma Circular(c: CList, spine: seq<nat>, s: seq<int>)
    requires Repr(c, spine, s) && s != []
    ensures Follow(c.heap, c.rear, |s|) == c.rear
    ensures forall k :: 0 < k < |s| ==> Follow(c.heap, c.rear, k) != c.rear
    ensures forall k :: 0 < k <= |s| ==> Follow(c.heap, c.rear, k) == Ref(spine[k - 1])
  {
    var n := |s|;
    assert c.heap[spine[n - 1]].next == Ref(spine[0]);
    forall k | 0 < k <= n
      ensures Follow(c.heap, c.rear, k) == Ref(spine[k - 1])
    {
      FollowAlongSpine(c.heap, spine, s, 0, k - 1);
    }
    forall k | 0 < k < n
      ensures Follow(c.heap, c.rear, k) != c.rear
    {
      assert spine[k - 1] != spine[n - 1];
    }
  }

  lemma AddFrontRefines(c: CList, spine: seq<nat>, s: seq<int>, v: int)
    requires Repr(c, spine, s)
    ensures Repr(AddFront(c, v), [c.free] + spine, [v] + s)
  {
    var r, spine', s' := AddFront(c, v), [c.free] + spine, [v] + s;
    assert forall i :: 0 <= i < |spine| ==> spine[i] != c.free;
    assert Distinct(spine');
    assert (forall i :: 0 <= i < |spine'| ==> spine'[i] in r.heap) && Linked(r.heap, spine', s') by {
      LinkedCons(c.heap, r.heap, spine, s, c.free, v);
    }
  }

  lemma AddBackRefines(c: CList, spine: seq<nat>, s: seq<int>, v: int)
    requires Repr(c, spine, s)
    ensures Repr(AddBack(c, v), spine + [c.free], s + [v])
  {
    var r, spine', s' := AddBack(c, v), spine + [c.free], s + [v];
    assert forall i :: 0 <= i < |spine| ==> spine[i] != c.free;
    assert Distinct(spine');
    assert (forall i :: 0 <= i < |spine'| ==> spine'[i] in r.heap) && Linked(r.heap, spine', s') by {
      LinkedSnoc(c.heap, r.heap, spine, s, c.free, v);
    }
  }

  lemma RemoveFrontRefines(c: CList, spine: seq<nat>, s: seq<int>)
    requires Repr(c, spine, s)
    ensures s == [] ==> RemoveFront(c) == c
    ensures s != [] ==> Repr(RemoveFront(c), spine[1..], s[1..])
  {
    var n := |s|;
    if n == 1 {
      assert c.heap[spine[0]].next == Ref(spine[0]);
    } else if n > 1 {
      assert c.heap[spine[n - 1]].next == Ref(spine[0]);
      assert c.heap[spine[0]].next == Ref(spine[1]);
      assert spine[0] != spine[n - 1];
      LinkedTail(c.heap, RemoveFront(c).heap, spine, s);
    }
  }

  /** The links after a new node `a` is put in front of the spine. */
  lemma LinkedCons(heap: map<nat, CNode>, heap': map<nat, CNode>, spine: seq<nat>, s: seq<int>, a: nat, v: int)
    requires |spine| == |s| && (forall i :: 0 <= i < |spine| ==> spine[i] in heap && spine[i] != a)
    requires Distinct(spine) && Linked(heap, spine, s)
    requires heap' == if spine == [] then heap[a := CNode(v, Ref(a))]
                      else var e := spine[|spine| - 1];
                           heap[a := CNode(v, heap[e].next)][e := heap[e].(next := Ref(a))]
    ensures forall i :: 0 <= i < |spine| + 1 ==> ([a] + spine)[i] in heap'
    ensures Linked(heap', [a] + spine, [v] + s)
  {
    var spine', s' := [a] + spine, [v] + s;
    var n := |spine|;
    forall i | 0 <= i < |spine'|
      ensures spine'[i] in heap'
      ensures heap'[spine'[i]].val == s'[i]
      ensures heap'[spine'[i]].next == Ref(spine'[if i == |spine'| - 1 then 0 else i + 1])
    {
      if 0 < i < n {
        assert spine'[i] == spine[i - 1] && spine[i - 1] != spine[n - 1];
        assert heap'[spine'[i]] == heap[spine[i - 1]];
      } else if i == n && n > 0 {
        assert spine'[i] == spine[n - 1];
      } else if n > 0 {
        assert heap[spine[n - 1]].next == Ref(spine[0]);
      }
    }
  }

  /** The links after a new node `a` is put behind the spine. */
  lemma LinkedSnoc(heap: map<nat, CNode>, heap': map<nat, CNode>, spine: seq<nat>, s: seq<int>, a: nat, v: int)
    requires |spine| == |s| && (forall i :: 0 <= i < |spine| ==> spine[i] in heap && spine[i] != a)
    requires Distinct(spine) && Linked(heap, spine, s)
    requires heap' == if spine == [] then heap[a := CNode(v, Ref(a))]
                      else var e := spine[|spine| - 1];
                           heap[a := CNode(v, heap[e].next)][e := heap[e].(next := Ref(a))]
    ensures forall i :: 0 <= i < |spine| + 1 ==> (spine + [a])[i] in heap'
    ensures Linked(heap', spine + [a], s + [v])
  {
    var spine', s' := spine + [a], s + [v];
    var n := |spine|;
    forall i | 0 <= i < |spine'|
      ensures spine'[i] in heap'
      ensures heap'[spine'[i]].val == s'[i]
      ensures heap'[spine'[i]].next == Ref(spine'[if i == |spine'| - 1 then 0 else i + 1])
    {
      if i < n - 1 {
        assert spine'[i] == spine[i] && spine[i] != spine[n - 1];
        assert heap'[spine'[i]] == heap[spine[i]];
      } else if i == n - 1 {
        assert spine'[i] == spine[n - 1];
      } else if n > 0 {
        assert heap[spine[n - 1]].next == Ref(spine[0]);
      }
    }
  }

  /** The links after the head is dropped: the last node now links to the
      second one. */
  lemma LinkedTail(heap: map<nat, CNode>, heap': map<nat, CNode>, spine: seq<nat>, s: seq<int>)
    requires |spine| == |s| > 1 && (forall i :: 0 <= i < |spine| ==> spine[i] in heap)
    requires Distinct(spine) && Linked(heap, spine, s)
    requires var e := spine[|spine| - 1]; heap' == heap[e := heap[e].(next := Ref(spine[1]))]
    ensures Linked(heap', spine[1..], s[1..])
  {
    var n := |spine|;
    var spine', s' := spine[1..], s[1..];
    forall i | 0 <= i < |spine'|
      ensures spine'[i] in heap'
      ensures heap'[spine'[i]].val == s'[i]
      ensures heap'[spine'[i]].next == Ref(spine'[if i == |spine'| - 1 then 0 else i + 1])
    {
      assert spine'[i] == spine[i + 1] && s'[i] == s[i + 1];
      if i < n - 2 {
        assert spine[i + 1] != spine[n - 1];
        assert heap'[spine'[i]] == heap[spine[i + 1]];
        assert spine'[i + 1] == spine[i + 2];
      }
    }
  }

  /** The links after the last node is dropped: the one before it now links
      to the head. */
  lemma LinkedInit(heap: map<nat, CNode>, heap': map<nat, CNode>, spine: seq<nat>, s: seq<int>)
    requires |spine| == |s| > 1 && (forall i :: 0 <= i < |spine| ==> spine[i] in heap)
    requires (forall i :: 0 <= i < |spine| - 2 ==> spine[i] != spine[|spine| - 2]) && Linked(heap, spine, s)
    requires var p := spine[|spine| - 2]; heap' == heap[p := heap[p].(next := Ref(spine[0]))]
    ensures Linked(heap', spine[..|spine| - 1], s[..|s| - 1])
  {
    var n := |spine|;
    var spine', s' := spine[..n - 1], s[..n - 1];
    forall i | 0 <= i < |spine'|
      ensures spine'[i] in heap'
      ensures heap'[spine'[i]].val == s'[i]
      ensures heap'[spine'[i]].next == Ref(spine'[if i == |spine'| - 1 then 0 else i + 1])
    {
      assert spine'[i] == spine[i] && s'[i] == s[i];
      if i < n - 2 {
        assert spine[i] != spine[n - 2];
        assert heap'[spine'[i]] == heap[spine[i]];
        assert spine'[i + 1] == spine[i + 1];
      }
    }
  }

  /** `show()`: an empty list emits nothing (it prints a notice instead);
      otherwise the walk starts at the head, emits each value, and stops on
      coming back to the head. The values come out exactly as the list holds
      them. */
  method Show(c: CList, ghost spine: seq<nat>, ghost s: seq<int>) returns (out: seq<int>)
    requires Repr(c, spine, s)
    ensures out == s
  {
    if c.rear == Null {
      return [];
    }
    var n := |s|;
    assert c.heap[spine[n - 1]].next == Ref(spine[0]);
    assert forall i :: 0 < i < n ==> spine[i] != spine[0];
    out := Cycle(c.heap, c.heap[c.rear.addr].next, spine, s);
  }

  /** The do-while loop of `show()`, on the links alone. */
  method Cycle(heap: map<nat, CNode>, head: Ptr, ghost spine: seq<nat>, ghost s: seq<int>) returns (out: seq<int>)
    requires |spine| == |s| > 0 && (forall i :: 0 <= i < |spine| ==> spine[i] in heap) && Linked(heap, spine, s)
    requires forall i :: 0 < i < |spine| ==> spine[i] != spine[0]
    requires head == Ref(spine[0])
    ensures out == s
  {
    var n := |s|;
    assert heap[spine[0]].val == s[0];
    out := [heap[head.addr].val];
    assert out == s[..1];
    var cur := heap[head.addr].next;
    ghost var k := 1;
    while cur != head
      invariant 1 <= k <= n
      invariant out == s[..k]
      invariant cur == Ref(spine[if k == n then 0 else k])
      invariant k < n ==> cur != head
      decreases n - k
    {
      assert heap[spine[k]].val == s[k];
      TakeOneMore(s, k);
      out := out + [heap[cur.addr].val];
      cur := heap[cur.addr].next;
      k := k + 1;
    }
  }

  /** The demonstration in `main`: add 1 at the front, 2 at the back, 3 at
      the front, giving [3, 1, 2]; then remove at both ends, giving [1]. */
  method Demo() returns (full: CList, trimmed: CList)
    ensures Repr(full, [2, 0, 1], [3, 1, 2])
    ensures Repr(trimmed, [0], [1])
  {
    full := DemoBuild();
    trimmed := DemoTrim(full);
  }

  method DemoBuild() returns (full: CList)
    ensures Repr(full, [2, 0, 1], [3, 1, 2])
  {
    var c2 := DemoPair();
    full := AddFront(c2, 3);
    assert Repr(full, [2, 0, 1], [3, 1, 2]) by {
      AddFrontRefines(c2, [0, 1], [1, 2], 3);
      assert [2] + [0, 1] == [2, 0, 1] && [3] + [1, 2] == [3, 1, 2];
    }
  }

  method DemoPair() returns (c2: CList)
    ensures Repr(c2, [0, 1], [1, 2]) && c2.free == 2
  {
    var c1 := DemoOne();
    c2 := AddBack(c1, 2);
    assert Repr(c2, [0, 1], [1, 2]) by {
      AddBackRefines(c1, [0], [1], 2);
    }
  }

  method DemoOne() returns (c1: CList)
    ensures Repr(c1, [0], [1]) && c1.free == 1
  {
    var c0 := Empty();
    c1 := AddFront(c0, 1);
    assert Repr(c1, [0], [1]) by {
      AddFrontRefines(c0, [], [], 1);
    }
  }

  method DemoTrim(full: CList) returns (trimmed: CList)
    requires Repr(full, [2, 0, 1], [3, 1, 2])
    ensures Repr(trimmed, [0], [1])
  {
    var c4 := RemoveFront(full);
    RemoveFrontRefines(full, [2, 0, 1], [3, 1, 2]);
    assert [2, 0, 1][1..] == [0, 1] && [3, 1, 2][1..] == [1, 2];
    trimmed := RemoveBack(c4, [0, 1], [1, 2]);
    assert [0, 1][..1] == [0] && [1, 2][..1] == [1];
  }
}
