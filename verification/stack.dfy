/** A bounded stack of ints kept in a fixed-size array (`MyStack`).

    The array is `data`, of length `maxSize`; `topIndex` is the index of the
    top element, `-1` when the stack is empty. Pushing onto a full stack and
    popping an empty one only print a message in `MyStack`, so here they
    leave the stack unchanged. */
module BoundedStack {

  datatype Stack = Stack(data: seq<int>, maxSize: int, topIndex: int)

  /** The representation invariant every operation keeps. */
  predicate Valid(s: Stack)
  {
    && |s.data| == s.maxSize
    && -1 <= s.topIndex <= s.maxSize - 1
  }

  /** The abstract contents, bottom first: the live prefix of the array. */
  function Contents(s: Stack): seq<int>
    requires Valid(s)
  {
    s.data[..s.topIndex + 1]
  }

  /** `new MyStack(n)`: an empty stack of capacity `n` (a negative `n` makes
      the array allocation fail, so callers must pass `n >= 0`). */
  function New(n: int): (r: Stack)
    requires n >= 0
    ensures Valid(r)
    ensures r.maxSize == n
    ensures Contents(r) == []
  {
    Stack(seq(n, _ => 0), n, -1)
  }

  function IsEmpty(s: Stack): (b: bool)
    requires Valid(s)
    ensures b <==> |Contents(s)| == 0
  {
    s.topIndex < 0
  }

  function IsFull(s: Stack): (b: bool)
    requires Valid(s)
    ensures b <==> |Contents(s)| == s.maxSize
  {
    s.topIndex == s.maxSize - 1
  }

  function Push(s: Stack, val: int): (r: Stack)
    requires Valid(s)
    ensures Valid(r) && r.maxSize == s.maxSize
    ensures |Contents(s)| == s.maxSize ==> r == s
    ensures |Contents(s)| < s.maxSize ==> Contents(r) == Contents(s) + [val]
  {
    if IsFull(s) then s
    else Stack(s.data[s.topIndex + 1 := val], s.maxSize, s.topIndex + 1)
  }

  function Pop(s: Stack): (r: Stack)
    requires Valid(s)
    ensures Valid(r) && r.maxSize == s.maxSize
    ensures Contents(s) == [] ==> r == s
    ensures Contents(s) != [] ==> Contents(r) == Contents(s)[..|Contents(s)| - 1]
  {
    if IsEmpty(s) then s
    else Stack(s.data, s.maxSize, s.topIndex - 1)
  }

  /** The top element, or the sentinel `-1` on an empty stack. */
  function Top(s: Stack): (t: int)
    requires Valid(s)
    ensures Contents(s) == [] ==> t == -1
    ensures Contents(s) != [] ==> t == Contents(s)[|Contents(s)| - 1]
  {
    if IsEmpty(s) then -1 else s.data[s.topIndex]
  }

  /** Pushing then popping gives back the same contents, unless the stack was full. */
  lemma PushPop(s: Stack, val: int)
    requires Valid(s) && !IsFull(s)
    ensures Contents(Pop(Push(s, val))) == Contents(s)
    ensures Top(Push(s, val)) == val
  {
    var c := Contents(s);
    assert Contents(Push(s, val)) == c + [val];
    assert (c + [val])[..|c|] == c;
  }

  /** The demonstration in `main`: capacity 5; push 10, 20, 30; pop; push
      40, 50, 60, 70 (the last one rejected); then pop until empty. */
  lemma Demo()
    ensures var s3 := Push(Push(Push(New(5), 10), 20), 30);
            && Top(s3) == 30
            && var s4 := Pop(s3);
            && Top(s4) == 20
            && var s7 := Push(Push(Push(s4, 40), 50), 60);
            && IsFull(s7)
            && Contents(s7) == [10, 20, 40, 50, 60]
            && Push(s7, 70) == s7
            && var e := Pop(Pop(Pop(Pop(Pop(s7)))));
            && IsEmpty(e) && Top(e) == -1 && Pop(e) == e
  {
  }
}
