/** LinkedList: the link and unlink primitives every other operation is built
    from, positional access through `node(index)`, the searches, the
    queue/deque/stack aliases, bulk insertion and clearing. */
module LinkedListModel {
  import opened JavaLang
  import opened LinkedChain

  lemma ItemsOfChain<T>(l: LinkedList<T>, o: seq<int>)
    requires Valid(l) && Order(l) == o
    ensures InArena(l.nodes, o) && Items(l) == ItemsAlong(l.nodes, o)
  {
    ChainInArena(l.nodes, o, l.first, l.last);
  }

  /** What a walk finds at chain position `index`: the node, its item and
      its links to the neighbouring positions. */
  lemma NodeFacts<T>(l: LinkedList<T>, index: int)
    requires Valid(l) && 0 <= index < l.size
    ensures var o := Order(l);
            var x := o[index];
            && 0 <= x < |l.nodes|
            && l.nodes[x].item == Items(l)[index]
            && l.nodes[x].next == (if index + 1 < l.size then o[index + 1] else NIL)
            && l.nodes[x].prev == (if 0 < index then o[index - 1] else NIL)
            && (index + 1 < l.size ==> 0 <= o[index + 1])
            && (0 < index ==> 0 <= o[index - 1])
  {
    assert LinkedAt(l.nodes, Order(l), index);
    assert index + 1 < l.size ==> LinkedAt(l.nodes, Order(l), index + 1);
    assert 0 < index ==> LinkedAt(l.nodes, Order(l), index - 1);
    ItemsOfChain(l, Order(l));
  }

  /** `first` and `last` are the ends of the chain. */
  lemma Ends<T>(l: LinkedList<T>)
    requires Valid(l)
    ensures l.first == (if 0 < l.size then Order(l)[0] else NIL)
    ensures l.last == (if 0 < l.size then Order(l)[l.size - 1] else NIL)
    ensures l.first == NIL <==> l.size == 0
    ensures l.last == NIL <==> l.size == 0
    ensures 0 < l.size ==> 0 <= l.first && 0 <= l.last
  {
    EmptyEnds(l);
    if 0 < l.size {
      assert LinkedAt(l.nodes, Order(l), 0);
      assert LinkedAt(l.nodes, Order(l), l.size - 1);
    }
  }

  /** In a chain each node sits at exactly one position. */
  lemma PositionOfAt(o: seq<int>, i: int)
    requires Distinct(o) && 0 <= i < |o|
    ensures o[i] in o && PositionOf(o, o[i]) == i
  {
  }

  /** Overwriting the item of the node at position `p` keeps every link, so
      the chain is unchanged and only element `p` differs. */
  lemma ReplaceItem<T>(l: LinkedList<T>, p: int, e: Ref<T>)
    requires Valid(l) && 0 <= p < l.size
    ensures var o := Order(l);
            0 <= o[p] < |l.nodes| &&
            var l' := l.(nodes := l.nodes[o[p] := l.nodes[o[p]].(item := e)]);
            && Valid(l') && Order(l') == o
            && Items(l') == Items(l)[p := e]
  {
    var o := Order(l);
    NodeFacts(l, p);
    var l' := l.(nodes := l.nodes[o[p] := l.nodes[o[p]].(item := e)]);
    assert IsChain(l'.nodes, o, l'.first, l'.last) by {
      forall i | 0 <= i < |o|
        ensures LinkedAt(l'.nodes, o, i)
      {
        assert LinkedAt(l.nodes, o, i);
      }
    }
    ChainIsValid(l', o);
    ItemsOfChain(l', o);
    ItemsOfChain(l, o);
    forall i | 0 <= i < |o|
      ensures Items(l')[i] == Items(l)[p := e][i]
    {
      assert i != p ==> o[i] != o[p];
    }
  }

  /** `new LinkedList()`. */
  function Create<T>(): (r: LinkedList<T>)
    ensures Valid(r) && Items(r) == [] && r.modCount == 0
  {
    LinkedList([], NIL, NIL, 0, 0)
  }

  /** `linkFirst(e)`: a new head node. */
  function LinkFirst<T>(l: LinkedList<T>, e: Ref<T>): (r: LinkedList<T>)
    requires Valid(l)
    ensures Valid(r) && Order(r) == [|l.nodes|] + Order(l)
    ensures Items(r) == [e] + Items(l)
    ensures r.size == l.size + 1 && r.modCount == l.modCount + 1
  {
    LinkFirstSound(l, e);
    LinkFirstRaw(l, e)
  }

  /** The link updates of `linkFirst`. */
  function LinkFirstRaw<T>(l: LinkedList<T>, e: Ref<T>): LinkedList<T>
    requires l.first == NIL || 0 <= l.first < |l.nodes|
  {
    var f := l.first;
    var n := |l.nodes|;
    var grown := l.nodes + [Node(NIL, e, f)];
    var nodes := if f == NIL then grown else grown[f := grown[f].(prev := n)];
    LinkedList(nodes, n, if f == NIL then n else l.last, l.size + 1, l.modCount + 1)
  }

  lemma LinkFirstSound<T>(l: LinkedList<T>, e: Ref<T>)
    requires Valid(l)
    ensures l.first == NIL || 0 <= l.first < |l.nodes|
    ensures Valid(LinkFirstRaw(l, e)) && Order(LinkFirstRaw(l, e)) == [|l.nodes|] + Order(l)
    ensures Items(LinkFirstRaw(l, e)) == [e] + Items(l)
    ensures LinkFirstRaw(l, e).size == l.size + 1 && LinkFirstRaw(l, e).modCount == l.modCount + 1
  {
    LinkFirstShape(l, e);
    LinkFirstItems(l, e);
  }

  lemma LinkFirstShape<T>(l: LinkedList<T>, e: Ref<T>)
    requires Valid(l)
    ensures l.first == NIL || 0 <= l.first < |l.nodes|
    ensures Valid(LinkFirstRaw(l, e)) && Order(LinkFirstRaw(l, e)) == [|l.nodes|] + Order(l)
  {
    var o := Order(l);
    EmptyEnds(l);
    ChainInArena(l.nodes, o, l.first, l.last);
    var r := LinkFirstRaw(l, e);
    LinkFirstChain(l.nodes, o, l.first, l.last, e, r.nodes);
    ChainIsValid(r, [|l.nodes|] + o);
  }

  lemma LinkFirstItems<T>(l: LinkedList<T>, e: Ref<T>)
    requires Valid(l)
    ensures l.first == NIL || 0 <= l.first < |l.nodes|
    ensures Valid(LinkFirstRaw(l, e)) && Items(LinkFirstRaw(l, e)) == [e] + Items(l)
  {
    LinkFirstShape(l, e);
    var o := Order(l);
    var r := LinkFirstRaw(l, e);
    var o' := [|l.nodes|] + o;
    ChainInArena(l.nodes, o, l.first, l.last);
    LinkFirstChain(l.nodes, o, l.first, l.last, e, r.nodes);
    assert o' == o[..0] + [|l.nodes|] + o[0..];
    SpliceInItems(l.nodes, r.nodes, o, 0, e);
    ItemsOfChain(r, o');
    ItemsOfChain(l, o);
  }

  /** A new node in front of the old first one heads the chain. */
  lemma LinkFirstChain<T>(a: seq<Node<T>>, o: seq<int>, first: int, last: int, e: Ref<T>, nodes: seq<Node<T>>)
    requires IsChain(a, o, first, last) && InArena(a, o)
    requires nodes == LinkFirstRaw(LinkedList(a, first, last, |o|, 0), e).nodes
    ensures IsChain(nodes, [|a|] + o, |a|, if first == NIL then |a| else last)
    ensures forall y :: 0 <= y < |a| ==> nodes[y].item == a[y].item
    ensures nodes[|a|].item == e
  {
    var o' := [|a|] + o;
    forall i | 0 <= i < |o'|
      ensures LinkedAt(nodes, o', i)
    {
      if i > 0 {
        assert LinkedAt(a, o, i - 1);
      }
    }
  }

  /** `linkLast(e)`: a new tail node. */
  function LinkLast<T>(l: LinkedList<T>, e: Ref<T>): (r: LinkedList<T>)
    requires Valid(l)
    ensures Valid(r) && Order(r) == Order(l) + [|l.nodes|]
    ensures Items(r) == Items(l) + [e]
    ensures r.size == l.size + 1 && r.modCount == l.modCount + 1
  {
    var o := Order(l);
    var t := l.last;
    var n := |l.nodes|;
    EmptyEnds(l);
    ChainInArena(l.nodes, o, l.first, l.last);
    var grown := l.nodes + [Node(t, e, NIL)];
    var nodes := if t == NIL then grown else grown[t := grown[t].(next := n)];
    var r := LinkedList(nodes, if t == NIL then n else l.first, n, l.size + 1, l.modCount + 1);
    var o' := o + [n];
    assert IsChain(nodes, o', r.first, r.last) by {
      forall i | 0 <= i < |o'|
        ensures LinkedAt(nodes, o', i)
      {
        if i < |o| {
          assert LinkedAt(l.nodes, o, i);
        }
      }
    }
    ChainIsValid(r, o');
    assert Items(r) == Items(l) + [e] by {
      ItemsOfChain(r, o');
      ItemsOfChain(l, o);
    }
    r
  }

  /** `linkBefore(e, succ)`: a new node just before chain node `succ`. */
  function LinkBefore<T>(l: LinkedList<T>, e: Ref<T>, succ: int): (r: LinkedList<T>)
    requires Valid(l) && succ in Order(l)
    ensures var j := PositionOf(Order(l), succ);
            && Valid(r) && Order(r) == Order(l)[..j] + [|l.nodes|] + Order(l)[j..]
            && Items(r) == Items(l)[..j] + [e] + Items(l)[j..]
    ensures r.size == l.size + 1 && r.modCount == l.modCount + 1
  {
    LinkBeforeSound(l, e, succ);
    LinkBeforeRaw(l, e, succ)
  }

  /** The link updates of `linkBefore`. */
  function LinkBeforeRaw<T>(l: LinkedList<T>, e: Ref<T>, succ: int): (r: LinkedList<T>)
    requires Valid(l) && succ in Order(l)
  {
    var o := Order(l);
    var j := PositionOf(o, succ);
    LinkBeforeNeighbours(l, succ);
    var pred := l.nodes[succ].prev;
    LinkedList(InsertNode(l.nodes, pred, e, succ), if pred == NIL then |l.nodes| else l.first, l.last,
               l.size + 1, l.modCount + 1)
  }

  /** The node before `succ` is its predecessor in the chain, or `NIL` at the head. */
  lemma LinkBeforeNeighbours<T>(l: LinkedList<T>, succ: int)
    requires Valid(l) && succ in Order(l)
    ensures var o := Order(l);
            var j := PositionOf(o, succ);
            && 0 <= succ < |l.nodes|
            && l.nodes[succ].prev == (if 0 < j then o[j - 1] else NIL)
            && (0 < j ==> 0 <= o[j - 1] < |l.nodes| && o[j - 1] != succ)
  {
    var o := Order(l);
    var j := PositionOf(o, succ);
    assert LinkedAt(l.nodes, o, j);
    assert 0 < j ==> LinkedAt(l.nodes, o, j - 1);
  }

  lemma LinkBeforeSound<T>(l: LinkedList<T>, e: Ref<T>, succ: int)
    requires Valid(l) && succ in Order(l)
    ensures var o := Order(l);
            var j := PositionOf(o, succ);
            var r := LinkBeforeRaw(l, e, succ);
            && Valid(r) && Order(r) == o[..j] + [|l.nodes|] + o[j..]
            && Items(r) == Items(l)[..j] + [e] + Items(l)[j..]
            && r.size == l.size + 1 && r.modCount == l.modCount + 1
  {
    var o := Order(l);
    var j := PositionOf(o, succ);
    var r := LinkBeforeRaw(l, e, succ);
    var o' := o[..j] + [|l.nodes|] + o[j..];
    LinkBeforeSplices(l, e, succ);
    ChainIsValid(r, o');
    ItemsOfChain(r, o');
    ItemsOfChain(l, o);
  }

  lemma LinkBeforeSplices<T>(l: LinkedList<T>, e: Ref<T>, succ: int)
    requires Valid(l) && succ in Order(l)
    ensures var o := Order(l);
            var j := PositionOf(o, succ);
            var r := LinkBeforeRaw(l, e, succ);
            var o' := o[..j] + [|l.nodes|] + o[j..];
            && IsChain(r.nodes, o', r.first, r.last) && r.size == |o'|
            && InArena(l.nodes, o) && InArena(r.nodes, o')
            && ItemsAlong(r.nodes, o') == ItemsAlong(l.nodes, o)[..j] + [e] + ItemsAlong(l.nodes, o)[j..]
  {
    var o := Order(l);
    var j := PositionOf(o, succ);
    var r := LinkBeforeRaw(l, e, succ);
    LinkBeforeNeighbours(l, succ);
    var pred := l.nodes[succ].prev;
    var o' := o[..j] + [|l.nodes|] + o[j..];
    InsertNodeFacts(l.nodes, pred, e, succ);
    SpliceInChain(l.nodes, r.nodes, o, l.first, l.last, j, pred, e, o', r.first, r.last);
    ChainInArena(l.nodes, o, l.first, l.last);
    SpliceInItems(l.nodes, r.nodes, o, j, e);
  }

  /** `unlinkFirst(f)` on the head node: returns its item. */
  function UnlinkFirst<T>(l: LinkedList<T>): (r: (LinkedList<T>, Ref<T>))
    requires Valid(l) && 0 < l.size
    ensures Valid(r.0) && Order(r.0) == Order(l)[1..]
    ensures Items(r.0) == Items(l)[1..] && r.1 == Items(l)[0]
    ensures r.0.size == l.size - 1 && r.0.modCount == l.modCount + 1
  {
    UnlinkFirstIsUnlink(l);
    (UnlinkFirstRaw(l), l.nodes[l.first].item)
  }

  /** The link updates of `unlinkFirst`: the head's item and `next` are
      cleared, its successor (if any) becomes the head. */
  function UnlinkFirstRaw<T>(l: LinkedList<T>): LinkedList<T>
    requires Valid(l) && 0 < l.size
  {
    ChainNeighbours(l.nodes, Order(l), l.first, l.last, 0);
    var f := l.first;
    var next := l.nodes[f].next;
    var a := l.nodes[f := l.nodes[f].(item := Null, next := NIL)];
    var nodes := if next == NIL then a else a[next := a[next].(prev := NIL)];
    LinkedList(nodes, next, if next == NIL then NIL else l.last, l.size - 1, l.modCount + 1)
  }

  /** `unlinkFirst` leaves the same list as `unlink` on the head node. */
  lemma UnlinkFirstIsUnlink<T>(l: LinkedList<T>)
    requires Valid(l) && 0 < l.size
    ensures l.first in Order(l) && Unlinkable(l.nodes, l.first)
    ensures UnlinkFirstRaw(l) == UnlinkRaw(l, l.first)
    ensures 0 <= l.first < |l.nodes|
    ensures Valid(UnlinkFirstRaw(l)) && Order(UnlinkFirstRaw(l)) == Order(l)[1..]
    ensures Items(UnlinkFirstRaw(l)) == Items(l)[1..] && l.nodes[l.first].item == Items(l)[0]
    ensures UnlinkFirstRaw(l).size == l.size - 1 && UnlinkFirstRaw(l).modCount == l.modCount + 1
  {
    var o := Order(l);
    assert l.first == o[0];
    PositionOfAt(o, 0);
    UnlinkSound(l, l.first);
    UnlinkFirstLinks(l);
    assert o[..0] + o[1..] == o[1..];
    assert Items(l)[..0] + Items(l)[1..] == Items(l)[1..];
  }

  lemma UnlinkFirstLinks<T>(l: LinkedList<T>)
    requires Valid(l) && 0 < l.size
    ensures Unlinkable(l.nodes, l.first) && UnlinkFirstRaw(l) == UnlinkRaw(l, l.first)
  {
    ChainNeighbours(l.nodes, Order(l), l.first, l.last, 0);
    assert UnlinkFirstRaw(l).nodes == UnlinkRaw(l, l.first).nodes;
  }

  /** `unlinkLast(l)` on the tail node: returns its item. */
  function UnlinkLast<T>(l: LinkedList<T>): (r: (LinkedList<T>, Ref<T>))
    requires Valid(l) && 0 < l.size
    ensures Valid(r.0) && Order(r.0) == Order(l)[..l.size - 1]
    ensures Items(r.0) == Items(l)[..l.size - 1] && r.1 == Items(l)[l.size - 1]
    ensures r.0.size == l.size - 1 && r.0.modCount == l.modCount + 1
  {
    UnlinkLastIsUnlink(l);
    (UnlinkLastRaw(l), l.nodes[l.last].item)
  }

  /** The link updates of `unlinkLast`: the tail's item and `prev` are
      cleared, its predecessor (if any) becomes the tail. */
  function UnlinkLastRaw<T>(l: LinkedList<T>): LinkedList<T>
    requires Valid(l) && 0 < l.size
  {
    ChainNeighbours(l.nodes, Order(l), l.first, l.last, l.size - 1);
    var t := l.last;
    var prev := l.nodes[t].prev;
    var a := l.nodes[t := l.nodes[t].(item := Null, prev := NIL)];
    var nodes := if prev == NIL then a else a[prev := a[prev].(next := NIL)];
    LinkedList(nodes, if prev == NIL then NIL else l.first, prev, l.size - 1, l.modCount + 1)
  }

  /** `unlinkLast` leaves the same list as `unlink` on the tail node. */
  lemma UnlinkLastIsUnlink<T>(l: LinkedList<T>)
    requires Valid(l) && 0 < l.size
    ensures l.last in Order(l) && Unlinkable(l.nodes, l.last)
    ensures UnlinkLastRaw(l) == UnlinkRaw(l, l.last)
    ensures 0 <= l.last < |l.nodes|
    ensures Valid(UnlinkLastRaw(l)) && Order(UnlinkLastRaw(l)) == Order(l)[..l.size - 1]
    ensures Items(UnlinkLastRaw(l)) == Items(l)[..l.size - 1] && l.nodes[l.last].item == Items(l)[l.size - 1]
    ensures UnlinkLastRaw(l).size == l.size - 1 && UnlinkLastRaw(l).modCount == l.modCount + 1
  {
    var o := Order(l);
    var m := l.size - 1;
    assert l.last == o[m];
    PositionOfAt(o, m);
    UnlinkSound(l, l.last);
    UnlinkLastLinks(l);
    assert o[..m] + o[m + 1..] == o[..m];
    assert Items(l)[..m] + Items(l)[m + 1..] == Items(l)[..m];
  }

  lemma UnlinkLastLinks<T>(l: LinkedList<T>)
    requires Valid(l) && 0 < l.size
    ensures Unlinkable(l.nodes, l.last) && UnlinkLastRaw(l) == UnlinkRaw(l, l.last)
  {
    ChainNeighbours(l.nodes, Order(l), l.first, l.last, l.size - 1);
    assert UnlinkLastRaw(l).nodes == UnlinkRaw(l, l.last).nodes;
  }

  /** `unlink(x)` on any chain node: head, tail and interior cases relink
      the neighbours; returns the node's item. */
  function Unlink<T>(l: LinkedList<T>, x: int): (r: (LinkedList<T>, Ref<T>))
    requires Valid(l) && x in Order(l)
    ensures var p := PositionOf(Order(l), x);
            && Valid(r.0) && Order(r.0) == Order(l)[..p] + Order(l)[p + 1..]
            && Items(r.0) == Items(l)[..p] + Items(l)[p + 1..]
            && r.1 == Items(l)[p]
    ensures r.0.size == l.size - 1 && r.0.modCount == l.modCount + 1
  {
    UnlinkSound(l, x);
    (UnlinkRaw(l, x), l.nodes[x].item)
  }

  /** Node `x`'s links point at nodes other than itself and, when both are
      present, at two different nodes. */
  predicate Unlinkable<T>(a: seq<Node<T>>, x: int) {
    && 0 <= x < |a|
    && (a[x].prev == NIL || 0 <= a[x].prev < |a|) && (a[x].next == NIL || 0 <= a[x].next < |a|)
    && a[x].prev != x && a[x].next != x && (a[x].prev == NIL || a[x].prev != a[x].next)
  }

  /** The link updates of `unlink(x)`. */
  function UnlinkRaw<T>(l: LinkedList<T>, x: int): LinkedList<T>
    requires Unlinkable(l.nodes, x)
  {
    var next := l.nodes[x].next;
    var prev := l.nodes[x].prev;
    LinkedList(RemoveNode(l.nodes, prev, x, next), if prev == NIL then next else l.first,
               if next == NIL then prev else l.last, l.size - 1, l.modCount + 1)
  }

  /** The links of the node at position `p` of a chain point at its
      neighbours in the chain. */
  lemma ChainNeighbours<T>(a: seq<Node<T>>, o: seq<int>, first: int, last: int, p: int)
    requires IsChain(a, o, first, last) && 0 <= p < |o|
    ensures Unlinkable(a, o[p])
    ensures a[o[p]].prev == (if 0 < p then o[p - 1] else NIL)
    ensures a[o[p]].next == (if p + 1 < |o| then o[p + 1] else NIL)
    ensures (0 < p ==> 0 <= o[p - 1]) && (p + 1 < |o| ==> 0 <= o[p + 1])
  {
    assert LinkedAt(a, o, p);
    assert 0 < p ==> LinkedAt(a, o, p - 1);
    assert p + 1 < |o| ==> LinkedAt(a, o, p + 1);
  }

  lemma UnlinkSound<T>(l: LinkedList<T>, x: int)
    requires Valid(l) && x in Order(l)
    ensures Unlinkable(l.nodes, x)
    ensures Valid(UnlinkRaw(l, x))
    ensures var p := PositionOf(Order(l), x);
            Order(UnlinkRaw(l, x)) == Order(l)[..p] + Order(l)[p + 1..]
    ensures var p := PositionOf(Order(l), x);
            && Items(UnlinkRaw(l, x)) == Items(l)[..p] + Items(l)[p + 1..]
            && l.nodes[x].item == Items(l)[p]
    ensures UnlinkRaw(l, x).size == l.size - 1 && UnlinkRaw(l, x).modCount == l.modCount + 1
  {
    UnlinkShape(l, x);
    UnlinkItems(l, x);
  }

  lemma UnlinkShape<T>(l: LinkedList<T>, x: int)
    requires Valid(l) && x in Order(l)
    ensures Unlinkable(l.nodes, x)
    ensures Valid(UnlinkRaw(l, x))
    ensures var p := PositionOf(Order(l), x);
            Order(UnlinkRaw(l, x)) == Order(l)[..p] + Order(l)[p + 1..]
    ensures UnlinkRaw(l, x).size == l.size - 1 && UnlinkRaw(l, x).modCount == l.modCount + 1
  {
    var o := Order(l);
    var p := PositionOf(o, x);
    assert x == o[p];
    UnlinkSplices(l, o, p);
    ChainIsValid(UnlinkRaw(l, x), o[..p] + o[p + 1..]);
  }

  lemma UnlinkItems<T>(l: LinkedList<T>, x: int)
    requires Valid(l) && x in Order(l)
    ensures Unlinkable(l.nodes, x)
    ensures var p := PositionOf(Order(l), x);
            && Valid(UnlinkRaw(l, x))
            && Items(UnlinkRaw(l, x)) == Items(l)[..p] + Items(l)[p + 1..]
            && l.nodes[x].item == Items(l)[p]
  {
    UnlinkShape(l, x);
    var o := Order(l);
    var p := PositionOf(o, x);
    assert x == o[p];
    UnlinkSplices(l, o, p);
    var r := UnlinkRaw(l, x);
    ItemsOfChain(r, o[..p] + o[p + 1..]);
    ItemsOfChain(l, o);
  }

  lemma UnlinkSplices<T>(l: LinkedList<T>, o: seq<int>, p: int)
    requires IsChain(l.nodes, o, l.first, l.last) && 0 <= p < |o| && l.size == |o|
    ensures Unlinkable(l.nodes, o[p])
    ensures IsChain(UnlinkRaw(l, o[p]).nodes, o[..p] + o[p + 1..], UnlinkRaw(l, o[p]).first, UnlinkRaw(l, o[p]).last)
    ensures UnlinkRaw(l, o[p]).size == |o| - 1
    ensures InArena(l.nodes, o) && InArena(UnlinkRaw(l, o[p]).nodes, o[..p] + o[p + 1..])
    ensures ItemsAlong(UnlinkRaw(l, o[p]).nodes, o[..p] + o[p + 1..])
            == ItemsAlong(l.nodes, o)[..p] + ItemsAlong(l.nodes, o)[p + 1..]
  {
    var x := o[p];
    ChainNeighbours(l.nodes, o, l.first, l.last, p);
    var r := UnlinkRaw(l, x);
    var o' := o[..p] + o[p + 1..];
    var prev, next := l.nodes[x].prev, l.nodes[x].next;
    UnlinkEnds(o, p, prev, next, l.first, l.last, r.first, r.last);
    RemoveNodeFacts(l.nodes, prev, x, next);
    SpliceOutChain(l.nodes, r.nodes, o, l.first, l.last, p, prev, next, o', r.first, r.last);
    ChainInArena(l.nodes, o, l.first, l.last);
    SpliceOutItems(l.nodes, r.nodes, o, p);
  }

  /** The new ends after unlinking position `p`. */
  lemma UnlinkEnds(o: seq<int>, p: int, prev: int, next: int, first: int, last: int, first': int, last': int)
    requires 0 <= p < |o| && first == o[0] && last == o[|o| - 1]
    requires prev == (if 0 < p then o[p - 1] else NIL) && next == (if p + 1 < |o| then o[p + 1] else NIL)
    requires (0 < p ==> prev != NIL) && (p + 1 < |o| ==> next != NIL)
    requires first' == (if prev == NIL then next else first) && last' == (if next == NIL then prev else last)
    ensures var o' := o[..p] + o[p + 1..];
            if |o'| == 0 then first' == NIL && last' == NIL else first' == o'[0] && last' == o'[|o'| - 1]
  {
    var o' := o[..p] + o[p + 1..];
    if 0 < |o'| {
      assert o'[0] == if p == 0 then o[1] else o[0];
      assert o'[|o'| - 1] == if p + 1 == |o| then o[p - 1] else o[|o| - 1];
    }
  }

  /** The arena after `linkBefore` links a new node between `pred` (or the
      head) and `succ`. */
  function InsertNode<T>(a: seq<Node<T>>, pred: int, e: Ref<T>, succ: int): (r: seq<Node<T>>)
    requires 0 <= succ < |a| && (pred == NIL || 0 <= pred < |a|) && pred != succ
    ensures |r| == |a| + 1
  {
    var grown := a + [Node(pred, e, succ)];
    var b := grown[succ := grown[succ].(prev := |a|)];
    if pred == NIL then b else b[pred := b[pred].(next := |a|)]
  }

  lemma InsertNodeFacts<T>(a: seq<Node<T>>, pred: int, e: Ref<T>, succ: int)
    requires 0 <= succ < |a| && (pred == NIL || 0 <= pred < |a|) && pred != succ
    ensures var r := InsertNode(a, pred, e, succ);
            && r[|a|] == Node(pred, e, succ)
            && r[succ] == a[succ].(prev := |a|)
            && (pred != NIL ==> r[pred] == a[pred].(next := |a|))
            && (forall y :: 0 <= y < |a| && y != succ && y != pred ==> r[y] == a[y])
            && (forall y :: 0 <= y < |a| ==> r[y].item == a[y].item)
  {
  }

  /** The arena after `unlink(x)`: the neighbours point at each other, and
      `x` loses its item and whichever links had a neighbour behind them. */
  function RemoveNode<T>(a: seq<Node<T>>, prev: int, x: int, next: int): (r: seq<Node<T>>)
    requires 0 <= x < |a| && (prev == NIL || 0 <= prev < |a|) && (next == NIL || 0 <= next < |a|)
    requires prev != x && next != x && (prev == NIL || prev != next)
    ensures |r| == |a|
  {
    var a1 := if prev == NIL then a else a[prev := a[prev].(next := next)][x := a[x].(prev := NIL)];
    var a2 := if next == NIL then a1 else a1[next := a1[next].(prev := prev)][x := a1[x].(next := NIL)];
    a2[x := a2[x].(item := Null)]
  }

  lemma RemoveNodeFacts<T>(a: seq<Node<T>>, prev: int, x: int, next: int)
    requires 0 <= x < |a| && (prev == NIL || 0 <= prev < |a|) && (next == NIL || 0 <= next < |a|)
    requires prev != x && next != x && (prev == NIL || prev != next)
    ensures var r := RemoveNode(a, prev, x, next);
            && (prev != NIL ==> r[prev] == a[prev].(next := next))
            && (next != NIL ==> r[next] == a[next].(prev := prev))
            && r[x].item == Null
            && (forall y :: 0 <= y < |a| && y != x && y != prev && y != next ==> r[y] == a[y])
            && (forall y :: 0 <= y < |a| && y != x ==> r[y].item == a[y].item)
  {
  }

  /** Linking a new node `|before|` in before position `j` of chain `o`, when
      only the new node and its two neighbours differ, yields the chain with
      the new node at `j`. */
  lemma SpliceInChain<T>(before: seq<Node<T>>, nodes: seq<Node<T>>, o: seq<int>, first: int, last: int,
                         j: int, pred: int, e: Ref<T>, o': seq<int>, first': int, last': int)
    requires IsChain(before, o, first, last) && 0 <= j < |o|
    requires pred == (if 0 < j then o[j - 1] else NIL)
    requires o' == o[..j] + [|before|] + o[j..]
    requires first' == o'[0] && last' == o'[|o'| - 1]
    requires |nodes| == |before| + 1
    requires nodes[|before|] == Node(pred, e, o[j])
    requires 0 <= o[j] < |before| && nodes[o[j]] == before[o[j]].(prev := |before|)
    requires pred != NIL ==> 0 <= pred < |before| && nodes[pred] == before[pred].(next := |before|)
    requires forall y :: 0 <= y < |before| && y != o[j] && y != pred ==> nodes[y] == before[y]
    ensures IsChain(nodes, o', first', last')
  {
    ChainInArena(before, o, first, last);
    forall i | 0 <= i < |o'|
      ensures LinkedAt(nodes, o', i)
    {
      if i < j {
        SpliceInBefore(before, nodes, o, first, last, j, pred, e, o', i);
      } else if i > j {
        SpliceInAfter(before, nodes, o, first, last, j, pred, e, o', i);
      } else {
        assert o'[i] == |before|;
        assert 0 < i ==> o'[i - 1] == o[j - 1];
        assert o'[i + 1] == o[j];
      }
    }
    assert |before| !in o;
    DistinctInsert(o, j, |before|);
  }

  /** The items along the spliced-in chain: `e` at position `j`. Linking
      changes no item but the new node's. */
  lemma SpliceInItems<T>(before: seq<Node<T>>, nodes: seq<Node<T>>, o: seq<int>, j: int, e: Ref<T>)
    requires InArena(before, o) && 0 <= j <= |o| && |nodes| == |before| + 1
    requires forall y :: 0 <= y < |before| ==> nodes[y].item == before[y].item
    requires nodes[|before|].item == e
    ensures InArena(nodes, o[..j] + [|before|] + o[j..])
    ensures ItemsAlong(nodes, o[..j] + [|before|] + o[j..])
            == ItemsAlong(before, o)[..j] + [e] + ItemsAlong(before, o)[j..]
  {
    var o' := o[..j] + [|before|] + o[j..];
    assert InArena(nodes, o') by {
      forall i | 0 <= i < |o'|
        ensures 0 <= o'[i] < |nodes|
      {
        assert i < j ==> o'[i] == o[i];
        assert i > j ==> o'[i] == o[i - 1];
      }
    }
    var a, b := ItemsAlong(nodes, o'), ItemsAlong(before, o)[..j] + [e] + ItemsAlong(before, o)[j..];
    forall i | 0 <= i < |o'|
      ensures a[i] == b[i]
    {
      if i < j {
        assert o'[i] == o[i];
      } else if i > j {
        assert o'[i] == o[i - 1];
      }
    }
  }

  lemma SpliceInBefore<T>(before: seq<Node<T>>, nodes: seq<Node<T>>, o: seq<int>, first: int, last: int,
                          j: int, pred: int, e: Ref<T>, o': seq<int>, i: int)
    requires IsChain(before, o, first, last) && 0 <= i < j < |o|
    requires pred == o[j - 1]
    requires o' == o[..j] + [|before|] + o[j..]
    requires |nodes| == |before| + 1
    requires 0 <= pred < |before| && nodes[pred] == before[pred].(next := |before|)
    requires forall y :: 0 <= y < |before| && y != o[j] && y != pred ==> nodes[y] == before[y]
    ensures LinkedAt(nodes, o', i)
  {
    assert LinkedAt(before, o, i);
    assert o'[i] == o[i];
    assert 0 < i ==> o'[i - 1] == o[i - 1];
    if i + 1 < j {
      assert o'[i + 1] == o[i + 1];
      assert o[i] != o[j] && o[i] != o[j - 1];
    } else {
      assert o'[i + 1] == |before|;
    }
  }

  lemma SpliceInAfter<T>(before: seq<Node<T>>, nodes: seq<Node<T>>, o: seq<int>, first: int, last: int,
                         j: int, pred: int, e: Ref<T>, o': seq<int>, i: int)
    requires IsChain(before, o, first, last) && 0 <= j < i < |o| + 1
    requires pred == (if 0 < j then o[j - 1] else NIL)
    requires o' == o[..j] + [|before|] + o[j..]
    requires |nodes| == |before| + 1
    requires 0 <= o[j] < |before| && nodes[o[j]] == before[o[j]].(prev := |before|)
    requires forall y :: 0 <= y < |before| && y != o[j] && y != pred ==> nodes[y] == before[y]
    ensures LinkedAt(nodes, o', i)
  {
    assert LinkedAt(before, o, i - 1);
    assert o'[i] == o[i - 1];
    assert i + 1 < |o'| ==> o'[i + 1] == o[i];
    if i - 1 > j {
      assert o'[i - 1] == o[i - 2];
      assert o[i - 1] != o[j];
      assert 0 < j ==> o[i - 1] != o[j - 1];
    } else {
      assert o'[i - 1] == |before|;
    }
  }

  /** Unlinking position `p` of chain `o`, when only the node and its two
      neighbours differ and the neighbours now point at each other, yields
      the chain without that position. */
  lemma SpliceOutChain<T>(before: seq<Node<T>>, nodes: seq<Node<T>>, o: seq<int>, first: int, last: int,
                          p: int, prev: int, next: int, o': seq<int>, first': int, last': int)
    requires IsChain(before, o, first, last) && 0 <= p < |o|
    requires prev == (if 0 < p then o[p - 1] else NIL) && next == (if p + 1 < |o| then o[p + 1] else NIL)
    requires o' == o[..p] + o[p + 1..]
    requires if |o'| == 0 then first' == NIL && last' == NIL else first' == o'[0] && last' == o'[|o'| - 1]
    requires |nodes| == |before|
    requires prev != NIL ==> 0 <= prev < |before| && nodes[prev] == before[prev].(next := next)
    requires next != NIL ==> 0 <= next < |before| && nodes[next] == before[next].(prev := prev)
    requires forall y :: 0 <= y < |before| && y != o[p] && y != prev && y != next ==> nodes[y] == before[y]
    ensures IsChain(nodes, o', first', last')
  {
    forall i | 0 <= i < |o'|
      ensures LinkedAt(nodes, o', i)
    {
      SpliceOutAt(before, nodes, o, first, last, p, prev, next, o', i);
    }
    DistinctRemove(o, p);
  }

  lemma SpliceOutAt<T>(before: seq<Node<T>>, nodes: seq<Node<T>>, o: seq<int>, first: int, last: int,
                       p: int, prev: int, next: int, o': seq<int>, i: int)
    requires IsChain(before, o, first, last) && 0 <= p < |o|
    requires prev == (if 0 < p then o[p - 1] else NIL) && next == (if p + 1 < |o| then o[p + 1] else NIL)
    requires o' == o[..p] + o[p + 1..] && 0 <= i < |o'|
    requires |nodes| == |before|
    requires prev != NIL ==> 0 <= prev < |before| && nodes[prev] == before[prev].(next := next)
    requires next != NIL ==> 0 <= next < |before| && nodes[next] == before[next].(prev := prev)
    requires forall y :: 0 <= y < |before| && y != o[p] && y != prev && y != next ==> nodes[y] == before[y]
    ensures LinkedAt(nodes, o', i)
  {
    if i < p {
      assert o'[i] == o[i];
      assert LinkedAt(before, o, i);
      if i + 1 < p {
        assert o'[i + 1] == o[i + 1];
        assert o[i] != o[p] && o[i] != o[p - 1] && (p + 1 == |o| || o[i] != o[p + 1]);
      }
      if 0 < i {
        assert o'[i - 1] == o[i - 1];
      }
    } else {
      assert o'[i] == o[i + 1];
      assert LinkedAt(before, o, i + 1);
      if i + 1 < |o'| {
        assert o'[i + 1] == o[i + 2];
      }
      if i > p {
        assert o'[i - 1] == o[i];
        assert o[i + 1] != o[p] && o[i + 1] != o[p + 1] && (p == 0 || o[i + 1] != o[p - 1]);
      }
    }
  }

  /** The items along the spliced-out chain: position `p` is gone. Unlinking
      changes no item but the removed node's. */
  lemma SpliceOutItems<T>(before: seq<Node<T>>, nodes: seq<Node<T>>, o: seq<int>, p: int)
    requires InArena(before, o) && Distinct(o) && 0 <= p < |o| && |nodes| == |before|
    requires forall y :: 0 <= y < |before| && y != o[p] ==> nodes[y].item == before[y].item
    ensures InArena(nodes, o[..p] + o[p + 1..])
    ensures ItemsAlong(nodes, o[..p] + o[p + 1..]) == ItemsAlong(before, o)[..p] + ItemsAlong(before, o)[p + 1..]
  {
    var o' := o[..p] + o[p + 1..];
    assert InArena(nodes, o') by {
      forall i | 0 <= i < |o'|
        ensures 0 <= o'[i] < |nodes|
      {
        assert o'[i] == if i < p then o[i] else o[i + 1];
      }
    }
    var a, b := ItemsAlong(nodes, o'), ItemsAlong(before, o)[..p] + ItemsAlong(before, o)[p + 1..];
    forall i | 0 <= i < |o'|
      ensures a[i] == b[i]
    {
      if i < p {
        assert o'[i] == o[i] && o[i] != o[p];
      } else {
        assert o'[i] == o[i + 1] && o[i + 1] != o[p];
      }
    }
  }

  lemma DistinctInsert(o: seq<int>, j: int, n: int)
    requires Distinct(o) && 0 <= j <= |o| && n !in o
    ensures Distinct(o[..j] + [n] + o[j..])
  {
    var o' := o[..j] + [n] + o[j..];
    forall u, w | 0 <= u < w < |o'|
      ensures o'[u] != o'[w]
    {
      if u < j && w > j {
        assert o'[u] == o[u] && o'[w] == o[w - 1];
      } else if u > j {
        assert o'[u] == o[u - 1] && o'[w] == o[w - 1];
      }
    }
  }

  lemma DistinctRemove(o: seq<int>, p: int)
    requires Distinct(o) && 0 <= p < |o|
    ensures Distinct(o[..p] + o[p + 1..])
  {
    var o' := o[..p] + o[p + 1..];
    forall u, w | 0 <= u < w < |o'|
      ensures o'[u] != o'[w]
    {
      assert o'[u] == (if u < p then o[u] else o[u + 1]);
      assert o'[w] == (if w < p then o[w] else o[w + 1]);
    }
  }
}
