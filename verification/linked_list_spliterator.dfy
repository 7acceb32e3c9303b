/** LinkedList's spliterator: a late-binding, fail-fast walk along the node
    chain that splits off array-backed batches of growing size. The list is
    passed to each operation in its current state. */
module LinkedListSpliter {
  import opened JavaLang
  import opened LinkedChain

  /** Increment of the batch size from one split to the next. */
  const BATCH_UNIT: int := 1024
  /** Largest batch a split hands off. */
  const MAX_BATCH: int := 0x200_0000

  /** `est < 0` means "not yet bound"; `current` is a node identity. */
  datatype LLSpliter = LLSpliter(current: int, est: int, expectedModCount: int, batch: int)

  function Min(a: int, b: int): int {
    if a <= b then a else b
  }

  /** `p.item`. A node identity outside the arena does not arise in the
      source, where `current` is a reference; it reads as `null` here. */
  function ItemOf<T>(nodes: seq<Node<T>>, p: int): Ref<T> {
    if 0 <= p < |nodes| then nodes[p].item else Null
  }

  /** `spliterator()`: unbound, batch size zero. */
  function Spliterator<T>(l: LinkedList<T>): (r: LLSpliter)
    ensures r.est < 0 && r.batch == 0
    ensures GetEst(l, r) == (LLSpliter(l.first, l.size, l.modCount, 0), l.size)
  {
    LLSpliter(NIL, -1, 0, 0)
  }

  /** `getEst()`: on first use binds the estimate to the list's size, the
      expected modCount to its modCount and `current` to its first node. */
  function GetEst<T>(l: LinkedList<T>, s: LLSpliter): (r: (LLSpliter, int))
    ensures r.1 == r.0.est && r.0.batch == s.batch
    ensures 0 <= s.est ==> r.0 == s
    ensures s.est < 0 ==> r.0 == LLSpliter(l.first, l.size, l.modCount, s.batch)
  {
    if s.est < 0 then
      var b := s.(expectedModCount := l.modCount, current := l.first, est := l.size);
      (b, b.est)
    else (s, s.est)
  }

  /** Binding happens once: a bound spliterator ignores later list states. */
  lemma GetEstCommits<T>(l: LinkedList<T>, later: LinkedList<T>, s: LLSpliter)
    requires 0 <= l.size
    ensures GetEst(later, GetEst(l, s).0) == GetEst(l, s)
  {
  }

  /** A bound spliterator standing at position `k` of list `l`: `current` is
      the node there (`null` at the end) and the estimate counts the nodes
      from there on. Its expected modCount may be out of date. */
  predicate StandsAt<T>(l: LinkedList<T>, s: LLSpliter, k: int) {
    && Valid(l)
    && 0 <= k <= l.size && s.est == l.size - k
    && s.current == (if k < l.size then Order(l)[k] else NIL)
  }

  /** A spliterator at position `k` that is also in step with the list. */
  predicate At<T>(l: LinkedList<T>, s: LLSpliter, k: int) {
    StandsAt(l, s, k) && l.modCount == s.expectedModCount
  }

  /** A fresh spliterator, once bound, stands at position 0. */
  lemma FreshBindsAtStart<T>(l: LinkedList<T>)
    requires Valid(l)
    ensures At(l, GetEst(l, Spliterator(l)).0, 0)
  {
    EmptyEnds(l);
  }

  /** The do-while loop shared by `trySplit` and `forEachRemaining`: take the
      item of `p`, step to `p.next`, and go on while that is not `null` and
      fewer than `n` items are taken. Returns the items and where it stopped. */
  function TakeRun<T>(nodes: seq<Node<T>>, p: int, n: int): (r: (seq<Ref<T>>, int))
    requires 1 <= n
    ensures 1 <= |r.0| <= n
    decreases n
  {
    var x := ItemOf(nodes, p);
    var q := NextOf(nodes, p);
    if q == NIL || n == 1 then ([x], q)
    else
      var rest := TakeRun(nodes, q, n - 1);
      ([x] + rest.0, rest.1)
  }

  /** Along a chain, the run from position `k` takes exactly `n` items when
      `n` nodes are left or more, and stops on the node after them. */
  lemma {:induction false} TakeRunAlongChain<T>(nodes: seq<Node<T>>, o: seq<int>, first: int, last: int, k: int, n: int)
    requires IsChain(nodes, o, first, last) && InArena(nodes, o)
    requires 0 <= k && 1 <= n && k + n <= |o|
    ensures TakeRun(nodes, o[k], n).0 == ItemsAlong(nodes, o)[k..k + n]
    ensures TakeRun(nodes, o[k], n).1 == if k + n < |o| then o[k + n] else NIL
    decreases n
  {
    assert LinkedAt(nodes, o, k);
    if n > 1 {
      assert LinkedAt(nodes, o, k + 1);
      TakeRunAlongChain(nodes, o, first, last, k + 1, n - 1);
      var s := ItemsAlong(nodes, o);
      assert s[k..k + n] == [s[k]] + s[k + 1..k + n];
    }
  }

  /** The run from a spliterator at position `k`, in the list's terms. */
  lemma TakeRunInList<T>(l: LinkedList<T>, k: int, n: int)
    requires Valid(l) && 0 <= k && 1 <= n && k + n <= l.size
    ensures TakeRun(l.nodes, Order(l)[k], n).0 == Items(l)[k..k + n]
    ensures TakeRun(l.nodes, Order(l)[k], n).1 == if k + n < l.size then Order(l)[k + n] else NIL
  {
    ChainInArena(l.nodes, Order(l), l.first, l.last);
    TakeRunAlongChain(l.nodes, Order(l), l.first, l.last, k, n);
  }

  /** The size of the next batch: one unit more than the last, but no more
      than the estimate and `MAX_BATCH`. */
  function BatchSize(batch: int, est: int): (r: int)
    requires 0 <= batch && 1 < est
    ensures 1 <= r <= est && r <= MAX_BATCH
    ensures r == batch + BATCH_UNIT || r == est || r == MAX_BATCH
  {
    Min(Min(batch + BATCH_UNIT, est), MAX_BATCH)
  }

  /** `trySplit()`: unless at most one element is estimated or `current` is
      `null`, copies the next batch of items into an array, hands that off
      (as an array spliterator, represented by its items) and moves past it. */
  function TrySplit<T>(l: LinkedList<T>, s: LLSpliter): (r: (LLSpliter, Option<seq<Ref<T>>>))
    requires 0 <= s.batch
    ensures var (b, est) := GetEst(l, s);
            && (r.1.Some? <==> 1 < est && b.current != NIL)
            && (r.1.None? ==> r.0 == b)
            && (r.1.Some? ==> 1 <= |r.1.value| <= BatchSize(b.batch, est)
                              && r.0.batch == |r.1.value| && r.0.est == est - |r.1.value|)
  {
    var (b, est) := GetEst(l, s);
    if est > 1 && b.current != NIL then
      var n := BatchSize(b.batch, est);
      var (items, p) := TakeRun(l.nodes, b.current, n);
      (b.(current := p, batch := |items|, est := est - |items|), Some(items))
    else (b, None)
  }

  /** In step with the list, a split takes exactly the next `BatchSize`
      elements and leaves the spliterator standing just after them. */
  lemma TrySplitAt<T>(l: LinkedList<T>, s: LLSpliter, k: int)
    requires At(l, s, k) && 0 <= s.batch
    ensures var (suffix, prefix) := TrySplit(l, s);
            && (prefix.Some? <==> 1 < s.est)
            && (prefix.Some? ==>
                  var j := BatchSize(s.batch, s.est);
                  && prefix.value == Items(l)[k..k + j]
                  && At(l, suffix, k + j) && suffix.batch == j)
  {
    if 1 < s.est {
      TakeRunInList(l, k, BatchSize(s.batch, s.est));
    }
  }

  /** `forEachRemaining(action)`: binds, then (when the estimate is positive
      and `current` is not `null`) clears the spliterator and walks at most
      `est` nodes from `current`; the modification check comes last, after
      every item has been handed out. */
  function ForEachRemaining<T>(l: LinkedList<T>, s: LLSpliter): (r: Traversal<LLSpliter, Ref<T>>)
    ensures var (b, n) := GetEst(l, s);
            && (r.thrown.None? <==> l.modCount == b.expectedModCount)
            && (r.thrown.Some? ==> r.thrown == Some(ConcurrentModification))
            && (0 < n && b.current != NIL ==> r.state == b.(current := NIL, est := 0) && 1 <= |r.accepted| <= n)
            && (!(0 < n && b.current != NIL) ==> r.state == b && r.accepted == [])
  {
    var (b, n) := GetEst(l, s);
    var (state, accepted) :=
      if n > 0 && b.current != NIL then (b.(current := NIL, est := 0), TakeRun(l.nodes, b.current, n).0)
      else (b, []);
    Traversal(state, accepted, if l.modCount != b.expectedModCount then Some(ConcurrentModification) else None)
  }

  /** From position `k`, the bulk traversal hands out the rest of the list,
      also when the list was modified: the check only decides whether it
      then throws. */
  lemma ForEachRemainingAt<T>(l: LinkedList<T>, s: LLSpliter, k: int)
    requires StandsAt(l, s, k)
    ensures ForEachRemaining(l, s).accepted == Items(l)[k..]
    ensures ForEachRemaining(l, s).thrown.None? <==> l.modCount == s.expectedModCount
    ensures StandsAt(l, ForEachRemaining(l, s).state, l.size)
    ensures ForEachRemaining(l, s).state.expectedModCount == s.expectedModCount
  {
    if k < l.size {
      assert LinkedAt(l.nodes, Order(l), k);
      TakeRunInList(l, k, l.size - k);
      assert Items(l)[k..l.size] == Items(l)[k..];
    } else {
      assert Items(l)[k..] == [];
    }
  }

  /** `tryAdvance(action)`: binds, then (when the estimate is positive and
      `current` is not `null`) hands out `current`'s item, steps on and
      decrements the estimate; the modification check comes after the
      action. Java's `true` is one accepted item and no exception. */
  function TryAdvance<T>(l: LinkedList<T>, s: LLSpliter): (r: Traversal<LLSpliter, Ref<T>>)
    ensures var (b, n) := GetEst(l, s);
            && (r.accepted == [] <==> !(0 < n && b.current != NIL))
            && (r.accepted == [] ==> r == Traversal(b, [], None))
            && (0 < n && b.current != NIL ==>
                  && r.state == b.(current := NextOf(l.nodes, b.current), est := n - 1)
                  && r.accepted == [ItemOf(l.nodes, b.current)]
                  && (r.thrown.Some? <==> l.modCount != b.expectedModCount)
                  && (r.thrown.Some? ==> r.thrown == Some(ConcurrentModification)))
  {
    var (b, n) := GetEst(l, s);
    if n > 0 && b.current != NIL then
      var next := b.(est := n - 1, current := NextOf(l.nodes, b.current));
      Traversal(next, [ItemOf(l.nodes, b.current)],
                if l.modCount != b.expectedModCount then Some(ConcurrentModification) else None)
    else Traversal(b, [], None)
  }

  /** From position `k`, one advance hands out the item there and moves the
      spliterator on by one, throwing afterwards when the list was modified. */
  lemma TryAdvanceAt<T>(l: LinkedList<T>, s: LLSpliter, k: int)
    requires StandsAt(l, s, k)
    ensures var r := TryAdvance(l, s);
            k < l.size ==>
              && r.accepted == [Items(l)[k]]
              && (r.thrown.None? <==> l.modCount == s.expectedModCount)
              && StandsAt(l, r.state, k + 1) && r.state.expectedModCount == s.expectedModCount
              && r.state.batch == s.batch
    ensures k == l.size ==> TryAdvance(l, s) == Traversal(s, [], None)
  {
    if k < l.size {
      assert LinkedAt(l.nodes, Order(l), k);
      TakeRunInList(l, k, 1);
      assert Items(l)[k..k + 1] == [Items(l)[k]];
    }
  }

  /** `estimateSize()`: binds, then the estimate. */
  function EstimateSize<T>(l: LinkedList<T>, s: LLSpliter): (r: (LLSpliter, int))
    ensures r.0 == GetEst(l, s).0
    ensures 0 <= s.est ==> r.1 == s.est
    ensures s.est < 0 ==> r.1 == l.size
  {
    GetEst(l, s)
  }

  /** `tryAdvance` called until it returns `false` or throws. */
  function AdvanceLoop<T>(l: LinkedList<T>, s: LLSpliter): (r: Traversal<LLSpliter, Ref<T>>)
    requires 0 <= s.est
    decreases s.est
  {
    var step := TryAdvance(l, s);
    if step.accepted == [] || step.thrown.Some? then step
    else
      var rest := AdvanceLoop(l, step.state);
      Traversal(rest.state, step.accepted + rest.accepted, rest.thrown)
  }

  /** In step with the list, advancing one by one hands out the same
      elements as the bulk traversal and ends in the same state. */
  lemma {:induction false} AdvanceLoopMatchesForEach<T>(l: LinkedList<T>, s: LLSpliter, k: int)
    requires At(l, s, k)
    ensures AdvanceLoop(l, s) == ForEachRemaining(l, s)
    ensures AdvanceLoop(l, s).accepted == Items(l)[k..] && AdvanceLoop(l, s).thrown == None
    decreases l.size - k
  {
    ForEachRemainingAt(l, s, k);
    TryAdvanceAt(l, s, k);
    if k < l.size {
      var step := TryAdvance(l, s);
      AdvanceLoopMatchesForEach(l, step.state, k + 1);
      ForEachRemainingAt(l, step.state, k + 1);
      assert Items(l)[k..] == [Items(l)[k]] + Items(l)[k + 1..];
    } else {
      assert Items(l)[k..] == [];
    }
  }

  /** On a modified list the two traversals part ways: the advancing loop
      stops with the first item it hands out, the bulk traversal hands out
      all the rest before it throws. */
  lemma AdvanceLoopStopsAtFirstCheck<T>(l: LinkedList<T>, s: LLSpliter, k: int)
    requires StandsAt(l, s, k) && k < l.size && l.modCount != s.expectedModCount
    ensures AdvanceLoop(l, s).accepted == [Items(l)[k]]
    ensures AdvanceLoop(l, s).thrown == Some(ConcurrentModification)
    ensures ForEachRemaining(l, s).accepted == Items(l)[k..]
    ensures ForEachRemaining(l, s).thrown == Some(ConcurrentModification)
  {
    TryAdvanceAt(l, s, k);
    ForEachRemainingAt(l, s, k);
  }

  /** Splitting partitions the remaining elements: the batch handed off,
      followed by what the spliterator still covers, is everything it
      covered before; the estimates add up. */
  lemma SplitPartitions<T>(l: LinkedList<T>, s: LLSpliter, k: int)
    requires At(l, s, k) && 0 <= s.batch
    ensures var (suffix, prefix) := TrySplit(l, s);
            prefix.Some? ==>
              && prefix.value + ForEachRemaining(l, suffix).accepted == ForEachRemaining(l, s).accepted
              && |prefix.value| + EstimateSize(l, suffix).1 == EstimateSize(l, s).1
  {
    var (suffix, prefix) := TrySplit(l, s);
    TrySplitAt(l, s, k);
    ForEachRemainingAt(l, s, k);
    if prefix.Some? {
      var j := |prefix.value|;
      ForEachRemainingAt(l, suffix, k + j);
      assert Items(l)[k..k + j] + Items(l)[k + j..] == Items(l)[k..];
    }
  }

  /** A fresh spliterator traverses the whole list. */
  lemma WholeListTraversal<T>(l: LinkedList<T>)
    requires Valid(l)
    ensures ForEachRemaining(l, Spliterator(l)).accepted == Items(l)
    ensures ForEachRemaining(l, Spliterator(l)).thrown == None
  {
    FreshBindsAtStart(l);
    var b := GetEst(l, Spliterator(l)).0;
    ForEachRemainingAt(l, b, 0);
    assert ForEachRemaining(l, Spliterator(l)) == ForEachRemaining(l, b);
  }

  /** Successive splits of a large list hand off batches of 1024, 2048,
      3072, … elements. */
  lemma BatchesGrow<T>(l: LinkedList<T>, s: LLSpliter, k: int)
    requires At(l, s, k) && 0 <= s.batch && s.batch + BATCH_UNIT <= MAX_BATCH
    requires s.batch + BATCH_UNIT < s.est
    ensures var (suffix, prefix) := TrySplit(l, s);
            prefix.Some? && |prefix.value| == s.batch + BATCH_UNIT && suffix.batch == s.batch + BATCH_UNIT
  {
    TrySplitAt(l, s, k);
  }
}
