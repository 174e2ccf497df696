# Algorithms-course exercises, modelled and verified in Dafny

This project models six small Java exercises. For each one, it proves what the code computes:

- **Lazy Dijkstra over an undirected graph** (`dijkstra`, `constructGraph`, `Pair.compareTo`), in `dijkstra.dfy`, module `ShortestPath`.
- **Quicksort with a two-pointer partition** (`quickSort`, `partition`), in `quicksort.dfy`, module `QuickSort`.
- **Memoised 0/1 knapsack** (`knapsack`, `helper`), in `knapsack.dfy`, module `Knapsack`.
- **The doubly linked list** `DLinkedList` (`dlist.dfy`, module `DoublyLinkedList`) and **the circular singly linked list** `CLinkedList` (`clist.dfy`, module `CircularList`).
- **The bounded array stack** `MyStack`, in `stack.dfy`, module `BoundedStack`.
- **The frequency count** `countFreq`, in `freq.dfy`, module `Frequency`.

Each operation is a pure function or a method on immutable values:

- Arrays are sequences.
- The `PriorityQueue` is a multiset of `(vertex, weight)` pairs, and `remove()` is an extract-min.
- The `HashMap` is a Dafny `map`.
- The object heap of each linked list is a map from addresses to nodes. A list's contents are given by a representation predicate that ties it to its chain of node addresses and to the values in them.

## Proof partners

Each operation is proved against an independent statement of what it should do:

- **Dijkstra.**
  - The result is tied to walks in the graph: the shortest cost of any walk from the source, or "unreachable".
  - The graph is tied to a recursive reference adjacency (`Adj`), which is equivalent to "some edge joins the two vertices".
- **Quicksort.** It is proved against sortedness and multiset equality.
- **Knapsack.** The memoised method is proved equal to the recursion as written. That recursion is proved optimal over every feasible choice of items only when every weight is at least 1. A zero-weight item can make it miss the optimum; see "## Findings". The recursion without the early return at capacity 0 is proved optimal for all non-negative weights.
- **Lists and stack.** Each operation is proved against the abstract sequence it should produce.
- **Frequency count.** It is proved against the multiplicity of each value.

## Model

| member | source | states |
|---|---|---|
| BoundedStack.New | Experiment_1/exp1.java:6-10 | a new stack is valid, has capacity `n` and holds nothing |
| BoundedStack.IsEmpty | Experiment_1/exp1.java:36-38 | true exactly when the stack holds no element |
| BoundedStack.IsFull | Experiment_1/exp1.java:40-42 | true exactly when the stack holds `maxSize` elements |
| BoundedStack.Push | Experiment_1/exp1.java:12-18 | a full stack is left unchanged; otherwise the contents become the old contents followed by `val`; validity and capacity are kept |
| BoundedStack.Pop | Experiment_1/exp1.java:20-26 | an empty stack is left unchanged; otherwise the last element is dropped; validity and capacity are kept |
| BoundedStack.Top | Experiment_1/exp1.java:28-34 | the last element pushed, or the sentinel -1 on an empty stack |
| BoundedStack.PushPop | Experiment_1/exp1.java:12-26 | on a stack that is not full, push then pop restores the contents, and top after push is the value pushed |
| BoundedStack.Demo | Experiment_1/exp1.java:44-65 | the trace of `main`: top is 30 and then 20; pushing 40, 50 and 60 fills the stack as [10, 20, 40, 50, 60]; 70 is rejected; five pops empty it; and a sixth pop changes nothing |
| Frequency.BuildTable | Experiment_3/exp3.java:4-7 | the map's keys are exactly the values of the array, each mapped to its number of occurrences |
| Frequency.CountFreq | Experiment_3/exp3.java:2-15 | every entry is a value of the array with its number of occurrences; every value has an entry; no value has two; every count is at least 1; the counts sum to the array length; an empty array gives no entries |
| Frequency.CountIsMultiplicity | Experiment_3/exp3.java:5-7 | the counted occurrences equal the value's multiplicity in the array |
| QuickSort.Swap | Experiment_5/exp5.java:19-21 | exchanges two entries, keeps all others, and preserves the multiset |
| QuickSort.Partition | Experiment_5/exp5.java:12-30 | returns `j` in `[low, high]` with the old `arr[low]` at `j`, entries at most it before `j` and entries greater than it after `j`; indices outside `[low, high]` are unchanged; the result is a permutation |
| QuickSort.Sort | Experiment_5/exp5.java:5-10 | a range with `low >= high` is unchanged; otherwise `[low, high]` ends sorted and is a permutation of its old contents, with everything outside unchanged |
| QuickSort.SortedStep | Experiment_5/exp5.java:7-9 | sorting both sides of a partition sorts the whole range |
| QuickSort.BoundsCarry | Experiment_5/exp5.java:8-9 | a bound against the pivot on every entry of a range survives the recursive sort of that range |
| QuickSort.SegmentPermutation | Experiment_5/exp5.java:5-10 | a whole-array permutation that keeps everything outside `[low, high]` permutes that range |
| Knapsack.Helper | Experiment_7/exp7.java:9-19 | returns the recursion's value, which is 0 when `i < 0` or `k == 0`; a table hit returns the stored entry; the table keeps its shape and stays coherent (each entry -1 or the true value); set entries are never overwritten |
| Knapsack.Knapsack | Experiment_7/exp7.java:2-8 | the answer for all items at capacity `W`; with positive weights, it is attained by a feasible choice of items and no feasible choice exceeds it |
| Knapsack.BestChoice | Experiment_7/exp7.java:12-18 | a choice of items that fits the capacity, is worth the optimum, and includes item `i` only when `wt[i] <= k` |
| Knapsack.BestIsUpperBound | Experiment_7/exp7.java:12-18 | no choice of items that fits the capacity is worth more than the recursion without the early return at capacity 0 |
| Knapsack.BestIsOptimum | Experiment_7/exp7.java:9-19 | the recursion without the early return is the maximum value over all feasible choices of items `0..i` |
| Knapsack.AsWrittenIsBestForPositiveWeights | Experiment_7/exp7.java:10 | when every weight is at least 1, the early return at capacity 0 does not change the result |
| Knapsack.ZeroWeightCounterexample | Experiment_7/exp7.java:10 | with values [5, 1], weights [0, 1] and capacity 1, the code as written gives 5 while the optimum is 6 |
| Knapsack.ExtraWeightsIgnored | Experiment_7/exp7.java:2-7 | weights past `val.length` are never read: cutting them off leaves the result unchanged |
| Knapsack.AsWrittenNonNegative | Experiment_7/exp7.java:11 | the recursion never produces the -1 "not computed" marker |
| Knapsack.ExcludeIsAvailable | Experiment_7/exp7.java:12-18 | adding item `i` never lowers the value, because leaving it out is always an option |
| DoublyLinkedList.Empty | Experiment_4/exp4.java:16-18 | a new list holds the empty sequence |
| DoublyLinkedList.AddFront | Experiment_4/exp4.java:20-29 | the new node becomes `start`, with no predecessor and the old start as its successor; `end` is kept unless the list was empty |
| DoublyLinkedList.AddBack | Experiment_4/exp4.java:31-40 | the new node becomes `end`, with no successor and the old end as its predecessor; `start` is kept unless the list was empty |
| DoublyLinkedList.RemoveFront | Experiment_4/exp4.java:42-50 | a no-op on an empty list; a list of one node becomes empty |
| DoublyLinkedList.RemoveBack | Experiment_4/exp4.java:52-60 | a no-op on an empty list; a list of one node becomes empty |
| DoublyLinkedList.AddFrontRefines | Experiment_4/exp4.java:20-29 | a list holding `s` holds `[v] + s` after `addFront(v)` |
| DoublyLinkedList.AddBackRefines | Experiment_4/exp4.java:31-40 | a list holding `s` holds `s + [v]` after `addBack(v)` |
| DoublyLinkedList.RemoveFrontRefines | Experiment_4/exp4.java:42-50 | `removeFront` is a no-op on an empty list and otherwise drops the first value |
| DoublyLinkedList.RemoveBackRefines | Experiment_4/exp4.java:52-60 | `removeBack` is a no-op on an empty list and otherwise drops the last value |
| DoublyLinkedList.ReprIsWellLinked | Experiment_4/exp4.java:22-58 | in every represented list: `start` is null exactly when `end` is; `start.prev` and `end.next` are null; and `x.next.prev == x` for every link |
| DoublyLinkedList.ReprIsUnique | Experiment_4/exp4.java:13-18 | a list represents one sequence only |
| DoublyLinkedList.PrintList | Experiment_4/exp4.java:62-69 | walking `next` from `start` yields exactly the values the list holds, in order |
| DoublyLinkedList.Demo | Experiment_4/exp4.java:154-162 | `addFront 1, addBack 2, addFront 3` gives [3, 1, 2]; then `removeFront, removeBack` gives [1] |
| CircularList.Empty | Experiment_4/exp4.java:86-88 | a new list holds the empty sequence |
| CircularList.AddFront | Experiment_4/exp4.java:90-99 | the new node goes after `rear`, which stays; a list that was empty gets a one-node cycle |
| CircularList.AddBack | Experiment_4/exp4.java:101-111 | the new node goes after the old `rear` and becomes `rear` |
| CircularList.RemoveFront | Experiment_4/exp4.java:113-121 | a no-op on an empty list; the heap stays closed |
| CircularList.RemoveBack | Experiment_4/exp4.java:123-135 | a no-op on an empty list; otherwise the last value is dropped and the result is again a circular list |
| CircularList.BeforeRear | Experiment_4/exp4.java:125-131 | the search loop stops at the node just before `rear` |
| CircularList.Circular | Experiment_4/exp4.java:92-133 | following `next` from `rear` visits the values in order and first returns to `rear` after exactly as many steps as the list has elements |
| CircularList.AddFrontRefines | Experiment_4/exp4.java:90-99 | a list holding `s` holds `[v] + s` after `addFront(v)` |
| CircularList.AddBackRefines | Experiment_4/exp4.java:101-111 | a list holding `s` holds `s + [v]` after `addBack(v)` |
| CircularList.RemoveFrontRefines | Experiment_4/exp4.java:113-121 | `removeFront` is a no-op on an empty list and otherwise drops the head value |
| CircularList.Show | Experiment_4/exp4.java:137-149 | the walk from the head back to the head yields exactly the values the list holds, in order; an empty list yields nothing |
| CircularList.Demo | Experiment_4/exp4.java:164-172 | `addFront 1, addBack 2, addFront 3` gives [3, 1, 2]; then `removeFront, removeBack` gives [1] |
| ShortestPath.CompareToOrdersByWeight | Experiment_8/exp8.java:45-47 | for weights in `[0, Integer.MAX_VALUE]`, the sign of `compareTo` is the order of the weights |
| ShortestPath.CompareToWrapsOnWideGap | Experiment_8/exp8.java:46 | for two `int` weights whose difference leaves the `int` range, the 32-bit subtraction wraps and inverts the order: the lighter pair compares above the heavier one (e.g. weight -2 above `Integer.MAX_VALUE`) |
| ShortestPath.ConstructGraph | Experiment_8/exp8.java:22-35 | `V` adjacency lists, the list of each vertex `x` holding, edge by edge in input order, `(v, w)` when the edge starts at `x` and then `(u, w)` when it ends at `x` (the reference adjacency `Adj`) |
| ShortestPath.AdjacencyIsIncidence | Experiment_8/exp8.java:27-33 | in the lists built, `q` is in the list of `x` exactly when some edge joins `x` to `q.v` with weight `q.wt`, in either direction |
| ShortestPath.AdjacencyIsSymmetric | Experiment_8/exp8.java:31-32 | in the lists built, `(y, w)` is in the list of `x` exactly when `(x, w)` is in the list of `y` |
| ShortestPath.JoinsMeansEdge | Experiment_8/exp8.java:27-33 | the reference adjacency of `x` contains `q` exactly when some edge is incident to `x` and `q` |
| ShortestPath.JoinsIsSymmetric | Experiment_8/exp8.java:31-32 | `(y, w)` is adjacent to `x` exactly when `(x, w)` is adjacent to `y` |
| ShortestPath.ExtractMin | Experiment_8/exp8.java:10 | removes one pair that `compareTo` ranks no higher than any queued pair, i.e. one of least weight |
| ShortestPath.Relax | Experiment_8/exp8.java:13-16 | pushes `(n.v, d + n.wt)` for every neighbour `n` not finalised |
| ShortestPath.RelaxSource | Experiment_8/exp8.java:14-16 | every pushed pair comes from a neighbour not finalised, with the popped weight plus the edge weight |
| ShortestPath.Visit | Experiment_8/exp8.java:11-16 | a stale pair changes nothing; otherwise only `rem.v` is finalised, at `rem.wt`; a finalised entry is never reassigned; no queued pair is lost; every neighbour not finalised is queued |
| ShortestPath.InitialInv | Experiment_8/exp8.java:4-8 | every entry `Integer.MAX_VALUE` with only `(src, 0)` queued satisfies the loop invariant |
| ShortestPath.StaleKeepsInv | Experiment_8/exp8.java:11 | skipping a pair of a finalised vertex keeps the loop invariant |
| ShortestPath.SettleKeepsInv | Experiment_8/exp8.java:12-16 | finalising the popped least pair and relaxing its neighbours keeps the loop invariant |
| ShortestPath.SettleDistance | Experiment_8/exp8.java:10-12 | the first pair popped for a vertex carries its shortest distance |
| ShortestPath.SettleOrdered | Experiment_8/exp8.java:10-16 | no finalised distance exceeds a queued weight, so vertices are finalised in non-decreasing order |
| ShortestPath.CrossingBound | Experiment_8/exp8.java:9-16 | every walk to a vertex not finalised costs at least some queued weight |
| ShortestPath.Finish | Experiment_8/exp8.java:9-18 | once the queue is empty, `ans[src] == 0`, and exactly the reachable vertices are finalised |
| ShortestPath.Turn | Experiment_8/exp8.java:9-17 | one loop turn never reassigns a finalised entry, keeps the invariant (finalised entries are distances, no finalised entry exceeds a queued weight, frontier pairs are queued), and shrinks either the set of vertices not finalised or the queue |
| ShortestPath.Dijkstra | Experiment_8/exp8.java:2-19 | `V` entries and `ans[src] == 0`; an entry is not `Integer.MAX_VALUE` exactly when its vertex is reachable from `src`; every such entry is the shortest walk cost from `src` |

## Left out

- `myPow` over `double` (Experiment_2) is floating point and is not modelled.
- Console output is not modelled. This covers the messages `MyStack` prints on a full push, an empty pop or an empty top, and the "List is empty" notice of `show`. `printList` and `show` are modelled as the sequence of values they would print.
- The library `PriorityQueue` is a multiset with an extract-min. When several pairs share the least weight, which one is removed is a nondeterministic choice, and every property holds for every choice. The internal heap order of `PriorityQueue` is not modelled.
- `HashMap` key iteration order is unspecified. `CountFreq` picks keys in a nondeterministic order, and its contract holds for every order.
- ShortestPath.Dijkstra: Java `int` overflow in `rem.wt + n.wt` is not modelled. The method instead requires every weight `w` to satisfy `0 <= w` and `V * w < Integer.MAX_VALUE`, under which no sum the search forms overflows or reaches `Integer.MAX_VALUE`. Negative weights, which the source does not handle, are excluded by precondition.
- ShortestPath.Dijkstra: an edge endpoint or `src` outside `0..V-1` makes the Java code throw. The model excludes this by precondition rather than modelling the exception.
- ShortestPath.ConstructGraph: an endpoint outside `0..V-1` makes the Java code throw. The model excludes this by precondition.
- Knapsack.Helper: negative weights and the 32-bit overflow of large value sums are not modelled. The weights of the items read are required to be non-negative. With `W >= 1`, a negative weight on an item `i >= 1` makes `helper(W, i)` look up `dp[i-1][W - wt[i]]`, past column `W`, and Java throws `ArrayIndexOutOfBoundsException`. A negative weight on item 0 only reaches `helper(k, -1)`, which returns 0 before touching the table, and with `W == 0` no weight is read at all; those inputs give a result without error, and the model leaves that result out. Negative values are modelled.
- Knapsack.Knapsack: `W < -1` makes `new int[val.length][W+1]` throw `NegativeArraySizeException`. `W == -1` with a non-empty `val` makes `dp[i][k]` throw `ArrayIndexOutOfBoundsException`. The model requires `W >= 0` rather than modelling these exceptions, so it also leaves out the 0 that `W == -1` with an empty `val` returns. A `wt` shorter than `val` makes Java throw when a missing weight is read; the model requires `wt.length >= val.length`. Longer `wt` arrays are modelled, and the extra weights are ignored.
- QuickSort.Sort: with `low < high`, a range that does not lie inside the array makes `quickSort` throw `ArrayIndexOutOfBoundsException` in `partition`. The model requires `0 <= low` and `high < arr.length` in that case rather than modelling the exception.
- BoundedStack.New: `new MyStack(n)` with `n < 0` throws on the array allocation, so `n >= 0` is required.
- Garbage collection is not modelled. Nodes unlinked by a remove stay in the heap map, unreachable.
- `CompareTo` itself has no contract of its own. Its meaning is stated by `CompareToOrdersByWeight` and `CompareToWrapsOnWideGap`.

## Findings

| source | as written | input that shows it | evidently intended | confidence | as-written member | corrected member |
|---|---|---|---|---|---|---|
| Experiment_7/exp7.java:10 | `helper` returns 0 as soon as `k == 0`, before looking at the remaining items | values [5, 1], weights [0, 1], `W = 1`: the code returns 5, but taking both items weighs 1 and is worth 6 | the optimum over all choices of items, which can still include items of weight 0 at capacity 0 | low: needs a zero-weight item; not executed | Knapsack.ZeroWeightCounterexample | Knapsack.BestIsOptimum |
