/** The node chain of a LinkedList. Nodes live in an arena (a sequence
    indexed by node identity) and refer to each other by index, with `NIL`
    for `null`. The list is the chain reached from `first` by `size` steps
    along `next`; nodes unlinked earlier stay in the arena, unreachable. */
module LinkedChain {
  import opened JavaLang
  import Seqs

  const NIL: int := -1

  /** `Node(prev, element, next)`. */
  datatype Node<T> = Node(prev: int, item: Ref<T>, next: int)

  datatype LinkedList<T> = LinkedList(nodes: seq<Node<T>>, first: int, last: int, size: int, modCount: int)

  function NextOf<T>(nodes: seq<Node<T>>, x: int): int {
    if 0 <= x < |nodes| then nodes[x].next else NIL
  }

  function PrevOf<T>(nodes: seq<Node<T>>, x: int): int {
    if 0 <= x < |nodes| then nodes[x].prev else NIL
  }

  /** The `n` nodes met following `next` from `x`. */
  function Walk<T>(nodes: seq<Node<T>>, x: int, n: nat): (r: seq<int>)
    ensures |r| == n
    decreases n
  {
    if n == 0 then [] else [x] + Walk(nodes, NextOf(nodes, x), n - 1)
  }

  /** The `n` nodes met following `prev` from `x`. */
  function WalkBack<T>(nodes: seq<Node<T>>, x: int, n: nat): (r: seq<int>)
    ensures |r| == n
    decreases n
  {
    if n == 0 then [] else [x] + WalkBack(nodes, PrevOf(nodes, x), n - 1)
  }

  /** Position `i` of node order `o` is a node whose links point at its
      neighbours in `o`, and at `NIL` past either end. */
  predicate LinkedAt<T>(nodes: seq<Node<T>>, o: seq<int>, i: int)
    requires 0 <= i < |o|
  {
    && 0 <= o[i] < |nodes|
    && nodes[o[i]].next == (if i + 1 < |o| then o[i + 1] else NIL)
    && nodes[o[i]].prev == (if 0 < i then o[i - 1] else NIL)
  }

  predicate Distinct(o: seq<int>) {
    forall i, j :: 0 <= i < j < |o| ==> o[i] != o[j]
  }

  /** `o` is a doubly linked chain from `first` to `last`. */
  predicate IsChain<T>(nodes: seq<Node<T>>, o: seq<int>, first: int, last: int) {
    && (if |o| == 0 then first == NIL && last == NIL else first == o[0] && last == o[|o| - 1])
    && Distinct(o)
    && forall i :: 0 <= i < |o| ==> LinkedAt(nodes, o, i)
  }

  /** The list's nodes, first to last. */
  function Order<T>(l: LinkedList<T>): (r: seq<int>)
    ensures 0 <= l.size ==> |r| == l.size
  {
    Walk(l.nodes, l.first, if l.size < 0 then 0 else l.size)
  }

  /** The representation invariant: walking `size` steps from `first` traces a
      doubly linked chain that ends at `last`. */
  predicate Valid<T>(l: LinkedList<T>) {
    0 <= l.size && IsChain(l.nodes, Order(l), l.first, l.last)
  }

  predicate InArena<T>(nodes: seq<Node<T>>, o: seq<int>) {
    forall i :: 0 <= i < |o| ==> 0 <= o[i] < |nodes|
  }

  /** The items held by the nodes of `o`, in order. */
  function ItemsAlong<T>(nodes: seq<Node<T>>, o: seq<int>): (r: seq<Ref<T>>)
    requires InArena(nodes, o)
    ensures |r| == |o|
    ensures forall i :: 0 <= i < |o| ==> r[i] == nodes[o[i]].item
  {
    seq(|o|, i requires 0 <= i < |o| => nodes[o[i]].item)
  }

  lemma ChainInArena<T>(nodes: seq<Node<T>>, o: seq<int>, first: int, last: int)
    requires IsChain(nodes, o, first, last)
    ensures InArena(nodes, o)
  {
    forall i | 0 <= i < |o|
      ensures 0 <= o[i] < |nodes|
    {
      assert LinkedAt(nodes, o, i);
    }
  }

  /** The list's elements, first to last. */
  function Items<T>(l: LinkedList<T>): (r: seq<Ref<T>>)
    requires Valid(l)
    ensures |r| == l.size
  {
    ChainInArena(l.nodes, Order(l), l.first, l.last);
    ItemsAlong(l.nodes, Order(l))
  }

  /** Walking a chain from any of its nodes follows the chain. */
  lemma {:induction false} WalkFollowsChain<T>(nodes: seq<Node<T>>, o: seq<int>, first: int, last: int, i: int)
    requires IsChain(nodes, o, first, last) && 0 <= i < |o|
    ensures Walk(nodes, o[i], |o| - i) == o[i..]
    decreases |o| - i
  {
    assert LinkedAt(nodes, o, i);
    if i + 1 < |o| {
      WalkFollowsChain(nodes, o, first, last, i + 1);
      assert o[i..] == [o[i]] + o[i + 1..];
    }
  }

  /** A chain is recovered by walking it from its first node: the invariant
      can be re-established from the links alone. */
  lemma ChainIsWalk<T>(nodes: seq<Node<T>>, o: seq<int>, first: int, last: int)
    requires IsChain(nodes, o, first, last)
    ensures Walk(nodes, first, |o|) == o
  {
    if |o| > 0 {
      WalkFollowsChain(nodes, o, first, last, 0);
    }
  }

  /** A list whose nodes form chain `o` is valid with order `o`. */
  lemma ChainIsValid<T>(l: LinkedList<T>, o: seq<int>)
    requires IsChain(l.nodes, o, l.first, l.last) && l.size == |o|
    ensures Valid(l) && Order(l) == o
  {
    ChainIsWalk(l.nodes, o, l.first, l.last);
  }

  /** Walking back along `prev` from a chain node follows the chain backwards. */
  lemma {:induction false} WalkBackFollowsChain<T>(nodes: seq<Node<T>>, o: seq<int>, first: int, last: int, i: int)
    requires IsChain(nodes, o, first, last) && 0 <= i < |o|
    ensures WalkBack(nodes, o[i], i + 1) == Seqs.Reverse(o[..i + 1])
    decreases i
  {
    assert LinkedAt(nodes, o, i);
    if 0 < i {
      WalkBackFollowsChain(nodes, o, first, last, i - 1);
      assert o[..i + 1][..i] == o[..i];
    }
  }

  /** The `prev` chain from `last` is the `next` chain from `first` reversed. */
  lemma BackwardIsReverse<T>(l: LinkedList<T>)
    requires Valid(l)
    ensures WalkBack(l.nodes, l.last, l.size) == Seqs.Reverse(Order(l))
  {
    var o := Order(l);
    if |o| > 0 {
      WalkBackFollowsChain(l.nodes, o, l.first, l.last, |o| - 1);
      assert o[..|o|] == o;
    }
  }

  /** `first == null`, `last == null` and `size == 0` coincide. */
  lemma EmptyEnds<T>(l: LinkedList<T>)
    requires Valid(l)
    ensures l.first == NIL <==> l.size == 0
    ensures l.last == NIL <==> l.size == 0
  {
    if l.size > 0 {
      assert LinkedAt(l.nodes, Order(l), 0);
      assert LinkedAt(l.nodes, Order(l), l.size - 1);
    }
  }

  /** `k` steps along `next` from `x`. */
  function Forward<T>(nodes: seq<Node<T>>, x: int, k: nat): int
    decreases k
  {
    if k == 0 then x else Forward(nodes, NextOf(nodes, x), k - 1)
  }

  /** `k` steps along `prev` from `x`. */
  function Backward<T>(nodes: seq<Node<T>>, x: int, k: nat): int
    decreases k
  {
    if k == 0 then x else Backward(nodes, PrevOf(nodes, x), k - 1)
  }

  lemma {:induction false} ForwardAlongChain<T>(nodes: seq<Node<T>>, o: seq<int>, first: int, last: int, i: int, k: nat)
    requires IsChain(nodes, o, first, last) && 0 <= i && i + k < |o|
    ensures Forward(nodes, o[i], k) == o[i + k]
    decreases k
  {
    if k > 0 {
      assert LinkedAt(nodes, o, i);
      ForwardAlongChain(nodes, o, first, last, i + 1, k - 1);
    }
  }

  lemma {:induction false} BackwardAlongChain<T>(nodes: seq<Node<T>>, o: seq<int>, first: int, last: int, i: int, k: nat)
    requires IsChain(nodes, o, first, last) && k <= i < |o|
    ensures Backward(nodes, o[i], k) == o[i - k]
    decreases k
  {
    if k > 0 {
      assert LinkedAt(nodes, o, i);
      BackwardAlongChain(nodes, o, first, last, i - 1, k - 1);
    }
  }

  /** `node(index)`: walks from `first` when the index lies in the first half
      (`index < size >> 1`), otherwise back from `last`. */
  function NodeAt<T>(l: LinkedList<T>, index: int): (r: int)
    requires Valid(l) && 0 <= index < l.size
    ensures r == Order(l)[index]
    ensures 0 <= r < |l.nodes|
  {
    var o := Order(l);
    assert LinkedAt(l.nodes, o, index);
    if index < l.size / 2 then
      ForwardAlongChain(l.nodes, o, l.first, l.last, 0, index);
      Forward(l.nodes, l.first, index)
    else
      BackwardAlongChain(l.nodes, o, l.first, l.last, l.size - 1, l.size - 1 - index);
      Backward(l.nodes, l.last, l.size - 1 - index)
  }

  /** The walk `node(index)` performs takes at most `size / 2` steps. */
  function NodeAtSteps<T>(l: LinkedList<T>, index: int): (r: int)
    requires Valid(l) && 0 <= index < l.size
    ensures 0 <= r <= l.size / 2
  {
    if index < l.size / 2 then index else l.size - 1 - index
  }

  /** The position of chain node `x`. */
  function PositionOf(o: seq<int>, x: int): (r: int)
    requires x in o
    ensures 0 <= r < |o| && o[r] == x
    ensures forall j :: 0 <= j < r ==> o[j] != x
  {
    if o[0] == x then 0 else 1 + PositionOf(o[1..], x)
  }
}
