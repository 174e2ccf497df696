/** What the two linked lists share: references into an object heap that
    is a map from addresses to nodes, and the facts about node spines that
    both lists use. */
module NodeHeap {

  /** A Java reference: `null`, or the address of an allocated node. */
  datatype Ptr = Null | Ref(addr: nat)

  /** No node address occurs twice on a spine. */
  ghost predicate Distinct(spine: seq<nat>)
  {
    forall i, j :: 0 <= i < j < |spine| ==> spine[i] != spine[j]
  }

  /** A prefix grown by one element, as a traversal collects it. */
  lemma TakeOneMore(s: seq<int>, k: int)
    requires 0 <= k < |s|
    ensures s[..k + 1] == s[..k] + [s[k]]
  {
  }
}
