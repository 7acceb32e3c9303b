/** LinkedList's public operations: positional access with its two range
    checks, first/last access, the searches, bulk insertion, clearing, and
    the Queue, Deque and stack methods, all built on the link and unlink
    primitives. */
module LinkedListOps {
  import opened JavaLang
  import opened LinkedChain
  import opened LinkedListModel

  /** `isElementIndex`: an index of an existing element. */
  predicate IsElementIndex<T>(l: LinkedList<T>, index: int)
    ensures Valid(l) ==> (IsElementIndex(l, index) <==> 0 <= index < |Items(l)|)
  {
    0 <= index < l.size
  }

  /** `isPositionIndex`: an index for an iterator or an insertion, one more
      than the element indices. */
  predicate IsPositionIndex<T>(l: LinkedList<T>, index: int)
    ensures Valid(l) ==> (IsPositionIndex(l, index) <==> 0 <= index <= |Items(l)|)
    ensures IsElementIndex(l, index) ==> IsPositionIndex(l, index)
    ensures IsPositionIndex(l, index) && !IsElementIndex(l, index) ==> index == l.size
  {
    0 <= index <= l.size
  }

  // ------------------------------------------------------------ construction

  /** `new LinkedList(c)`: an empty list, then `addAll(c)`. */
  method CreateFrom<T>(c: seq<Ref<T>>) returns (r: LinkedList<T>)
    ensures Valid(r) && Items(r) == c
    ensures r.modCount == if |c| == 0 then 0 else 1
  {
    var added := AddAll(Create(), c);
    r := added.state;
  }

  /** `toArray()`: the items, copied into an array of length `size` by a
      walk from `first`. */
  method ToArray<T>(l: LinkedList<T>) returns (r: seq<Ref<T>>)
    requires Valid(l)
    ensures r == Items(l)
  {
    r := seq(l.size, _ => Null);
    var i := 0;
    var x := l.first;
    Ends(l);
    while x != NIL
      invariant 0 <= i <= l.size && |r| == l.size
      invariant x == if i < l.size then Order(l)[i] else NIL
      invariant i < l.size ==> 0 <= x
      invariant r[..i] == Items(l)[..i]
      decreases l.size - i
    {
      NodeFacts(l, i);
      r := r[i := l.nodes[x].item];
      x := l.nodes[x].next;
      i := i + 1;
    }
    assert r == r[..i];
  }

  // ------------------------------------------------------------ first and last

  /** `getFirst()`: throws on an empty list. */
  function GetFirst<T>(l: LinkedList<T>): (r: Result<Ref<T>>)
    requires Valid(l)
    ensures r.Err? <==> l.size == 0
    ensures r.Err? ==> r.error == NoSuchElement
    ensures r.Ok? ==> r.value == Items(l)[0]
  {
    Ends(l);
    if l.first == NIL then Err(NoSuchElement)
    else
      NodeFacts(l, 0);
      Ok(l.nodes[l.first].item)
  }

  /** `getLast()`: throws on an empty list. */
  function GetLast<T>(l: LinkedList<T>): (r: Result<Ref<T>>)
    requires Valid(l)
    ensures r.Err? <==> l.size == 0
    ensures r.Err? ==> r.error == NoSuchElement
    ensures r.Ok? ==> r.value == Items(l)[l.size - 1]
  {
    Ends(l);
    if l.last == NIL then Err(NoSuchElement)
    else
      NodeFacts(l, l.size - 1);
      Ok(l.nodes[l.last].item)
  }

  /** `removeFirst()`: throws on an empty list, leaving it untouched. */
  function RemoveFirst<T>(l: LinkedList<T>): (r: Outcome<LinkedList<T>, Ref<T>>)
    requires Valid(l)
    ensures r.result.Err? <==> l.size == 0
    ensures r.result.Err? ==> r.state == l && r.result.error == NoSuchElement
    ensures r.result.Ok? ==>
              && Valid(r.state) && Items(r.state) == Items(l)[1..] && r.result.value == Items(l)[0]
              && r.state.modCount == l.modCount + 1
  {
    Ends(l);
    if l.first == NIL then Outcome(l, Err(NoSuchElement))
    else
      var (l', e) := UnlinkFirst(l);
      Outcome(l', Ok(e))
  }

  /** `removeLast()`: throws on an empty list, leaving it untouched. */
  function RemoveLast<T>(l: LinkedList<T>): (r: Outcome<LinkedList<T>, Ref<T>>)
    requires Valid(l)
    ensures r.result.Err? <==> l.size == 0
    ensures r.result.Err? ==> r.state == l && r.result.error == NoSuchElement
    ensures r.result.Ok? ==>
              && Valid(r.state) && Items(r.state) == Items(l)[..l.size - 1]
              && r.result.value == Items(l)[l.size - 1]
              && r.state.modCount == l.modCount + 1
  {
    Ends(l);
    if l.last == NIL then Outcome(l, Err(NoSuchElement))
    else
      var (l', e) := UnlinkLast(l);
      Outcome(l', Ok(e))
  }

  /** `addFirst(e)`. */
  function AddFirst<T>(l: LinkedList<T>, e: Ref<T>): (r: LinkedList<T>)
    requires Valid(l)
    ensures Valid(r) && Items(r) == [e] + Items(l) && r.modCount == l.modCount + 1
  {
    LinkFirst(l, e)
  }

  /** `addLast(e)`. */
  function AddLast<T>(l: LinkedList<T>, e: Ref<T>): (r: LinkedList<T>)
    requires Valid(l)
    ensures Valid(r) && Items(r) == Items(l) + [e] && r.modCount == l.modCount + 1
  {
    LinkLast(l, e)
  }

  /** `add(e)`: appends and always reports a change. */
  function Add<T>(l: LinkedList<T>, e: Ref<T>): (r: (LinkedList<T>, bool))
    requires Valid(l)
    ensures Valid(r.0) && Items(r.0) == Items(l) + [e] && r.0.modCount == l.modCount + 1 && r.1
  {
    (LinkLast(l, e), true)
  }

  /** `size()`. */
  function Size<T>(l: LinkedList<T>): (r: int)
    requires Valid(l)
    ensures r == |Items(l)|
  {
    l.size
  }

  // ------------------------------------------------------------ positional access

  /** `get(index)`: `checkElementIndex`, then `node(index).item`. */
  function Get<T>(l: LinkedList<T>, index: int): (r: Result<Ref<T>>)
    requires Valid(l)
    ensures r.Ok? <==> 0 <= index < |Items(l)|
    ensures r.Err? ==> r.error == IndexOutOfBounds
    ensures r.Ok? ==> r.value == Items(l)[index]
  {
    if !IsElementIndex(l, index) then Err(IndexOutOfBounds)
    else
      NodeFacts(l, index);
      Ok(l.nodes[NodeAt(l, index)].item)
  }

  /** `set(index, element)`: overwrites the item in place and returns the old
      one; the structure and `modCount` do not change. */
  function Set<T>(l: LinkedList<T>, index: int, element: Ref<T>): (r: Outcome<LinkedList<T>, Ref<T>>)
    requires Valid(l)
    ensures r.result.Err? <==> !(0 <= index < |Items(l)|)
    ensures r.result.Err? ==> r == Outcome(l, Err(IndexOutOfBounds))
    ensures r.result.Ok? ==>
              && Valid(r.state) && Items(r.state) == Items(l)[index := element]
              && r.result.value == Items(l)[index]
              && r.state.size == l.size && r.state.modCount == l.modCount
    ensures r.result.Ok? ==>
              Order(r.state) == Order(l) && r.state.first == l.first && r.state.last == l.last
  {
    if !IsElementIndex(l, index) then Outcome(l, Err(IndexOutOfBounds))
    else
      var x := NodeAt(l, index);
      NodeFacts(l, index);
      ReplaceItem(l, index, element);
      Outcome(l.(nodes := l.nodes[x := l.nodes[x].(item := element)]), Ok(l.nodes[x].item))
  }

  /** `add(index, element)`: `checkPositionIndex`, then `linkLast` at the end
      or `linkBefore(node(index))` elsewhere. */
  function AddAt<T>(l: LinkedList<T>, index: int, element: Ref<T>): (r: Outcome<LinkedList<T>, ()>)
    requires Valid(l)
    ensures r.result.Err? <==> !(0 <= index <= |Items(l)|)
    ensures r.result.Err? ==> r == Outcome(l, Err(IndexOutOfBounds))
    ensures r.result.Ok? ==>
              && Valid(r.state) && Items(r.state) == Items(l)[..index] + [element] + Items(l)[index..]
              && r.state.modCount == l.modCount + 1
  {
    if !IsPositionIndex(l, index) then Outcome(l, Err(IndexOutOfBounds))
    else if index == l.size then
      assert Items(l)[index..] == [];
      Outcome(LinkLast(l, element), Ok(()))
    else
      var succ := NodeAt(l, index);
      PositionOfAt(Order(l), index);
      Outcome(LinkBefore(l, element, succ), Ok(()))
  }

  /** `remove(index)`: `checkElementIndex`, then `unlink(node(index))`. */
  function RemoveAt<T>(l: LinkedList<T>, index: int): (r: Outcome<LinkedList<T>, Ref<T>>)
    requires Valid(l)
    ensures r.result.Err? <==> !(0 <= index < |Items(l)|)
    ensures r.result.Err? ==> r == Outcome(l, Err(IndexOutOfBounds))
    ensures r.result.Ok? ==>
              && Valid(r.state) && Items(r.state) == Items(l)[..index] + Items(l)[index + 1..]
              && r.result.value == Items(l)[index]
              && r.state.modCount == l.modCount + 1
  {
    if !IsElementIndex(l, index) then Outcome(l, Err(IndexOutOfBounds))
    else
      var x := NodeAt(l, index);
      PositionOfAt(Order(l), index);
      var (l', e) := Unlink(l, x);
      Outcome(l', Ok(e))
  }

  /** Inserting and then removing at the same index gives back the list's
      elements and the inserted element. */
  lemma AddAtRemoveAt<T>(l: LinkedList<T>, index: int, element: Ref<T>)
    requires Valid(l) && 0 <= index <= l.size
    ensures var added := AddAt(l, index, element).state;
            var removed := RemoveAt(added, index);
            removed.result == Ok(element) && Items(removed.state) == Items(l)
  {
    var s := Items(l);
    var a := AddAt(l, index, element);
    assert a.result.Ok?;
    var t := Items(a.state);
    assert t == s[..index] + [element] + s[index..];
    InsertThenDelete(s, index, element);
  }

  lemma InsertThenDelete<X>(s: seq<X>, i: int, e: X)
    requires 0 <= i <= |s|
    ensures var t := s[..i] + [e] + s[i..];
            t[i] == e && t[..i] + t[i + 1..] == s
  {
    var t := s[..i] + [e] + s[i..];
    assert t[..i] == s[..i];
    assert t[i + 1..] == s[i..];
    assert s[..i] + s[i..] == s;
  }

  /** A `set` is observed by the next `get` at that index and by no other. */
  lemma SetThenGet<T>(l: LinkedList<T>, index: int, element: Ref<T>, other: int)
    requires Valid(l) && 0 <= index < l.size
    ensures Get(Set(l, index, element).state, index) == Ok(element)
    ensures other != index ==> Get(Set(l, index, element).state, other) == Get(l, other)
  {
  }

  // ------------------------------------------------------------ search

  /** The forward walk shared by `indexOf(o)` and `remove(o)`: from `first`
      along `next`, counting positions, until a node whose item matches;
      `index == size` (and `x == null`) when there is none. */
  method FindForward<T(==)>(l: LinkedList<T>, o: Ref<T>) returns (index: int, x: int)
    requires Valid(l)
    ensures 0 <= index <= l.size
    ensures x == if index < l.size then Order(l)[index] else NIL
    ensures forall k :: 0 <= k < index ==> !Matches(o, Items(l)[k])
    ensures index < l.size ==> Matches(o, Items(l)[index])
  {
    index := 0;
    x := l.first;
    Ends(l);
    while x != NIL
      invariant 0 <= index <= l.size
      invariant x == if index < l.size then Order(l)[index] else NIL
      invariant index < l.size ==> 0 <= x
      invariant forall k :: 0 <= k < index ==> !Matches(o, Items(l)[k])
      decreases l.size - index
    {
      NodeFacts(l, index);
      if Matches(o, l.nodes[x].item) {
        return;
      }
      index := index + 1;
      x := l.nodes[x].next;
    }
  }

  /** The backward walk shared by `lastIndexOf(o)` and
      `removeLastOccurrence(o)`: from `last` along `prev`, counting down from
      `size`, until a node whose item matches; `index == -1` (and
      `x == null`) when there is none. */
  method FindBackward<T(==)>(l: LinkedList<T>, o: Ref<T>) returns (index: int, x: int)
    requires Valid(l)
    ensures -1 <= index < l.size
    ensures x == if 0 <= index then Order(l)[index] else NIL
    ensures forall k :: index < k < l.size ==> !Matches(o, Items(l)[k])
    ensures 0 <= index ==> Matches(o, Items(l)[index])
  {
    index := l.size;
    x := l.last;
    Ends(l);
    while x != NIL
      invariant 0 <= index <= l.size
      invariant x == if 0 < index then Order(l)[index - 1] else NIL
      invariant 0 < index ==> 0 <= x
      invariant forall k :: index <= k < l.size ==> !Matches(o, Items(l)[k])
      decreases index
    {
      index := index - 1;
      NodeFacts(l, index);
      if Matches(o, l.nodes[x].item) {
        return;
      }
      x := l.nodes[x].prev;
    }
    index := -1;
  }

  /** `indexOf(o)`: the first position whose item matches, or -1. */
  method IndexOf<T(==)>(l: LinkedList<T>, o: Ref<T>) returns (r: int)
    requires Valid(l)
    ensures -1 <= r < |Items(l)|
    ensures r == -1 <==> forall k :: 0 <= k < |Items(l)| ==> !Matches(o, Items(l)[k])
    ensures r >= 0 ==> Matches(o, Items(l)[r]) && forall k :: 0 <= k < r ==> !Matches(o, Items(l)[k])
  {
    var index, _ := FindForward(l, o);
    r := if index < l.size then index else -1;
  }

  /** `lastIndexOf(o)`: the last position whose item matches, or -1. */
  method LastIndexOf<T(==)>(l: LinkedList<T>, o: Ref<T>) returns (r: int)
    requires Valid(l)
    ensures -1 <= r < |Items(l)|
    ensures r == -1 <==> forall k :: 0 <= k < |Items(l)| ==> !Matches(o, Items(l)[k])
    ensures r >= 0 ==> Matches(o, Items(l)[r]) && forall k :: r < k < |Items(l)| ==> !Matches(o, Items(l)[k])
  {
    var x;
    r, x := FindBackward(l, o);
  }

  /** `contains(o)`: `indexOf(o) != -1`. */
  method Contains<T(==)>(l: LinkedList<T>, o: Ref<T>) returns (r: bool)
    requires Valid(l)
    ensures r <==> exists k :: 0 <= k < |Items(l)| && Matches(o, Items(l)[k])
  {
    var i := IndexOf(l, o);
    r := i != -1;
  }

  /** `remove(o)`: unlinks the first node whose item matches; with no match
      the list is left exactly as it was. */
  method RemoveElement<T(==)>(l: LinkedList<T>, o: Ref<T>) returns (r: LinkedList<T>, removed: bool)
    requires Valid(l)
    ensures Valid(r)
    ensures !removed ==> r == l && forall k :: 0 <= k < |Items(l)| ==> !Matches(o, Items(l)[k])
    ensures removed ==> exists i :: 0 <= i < |Items(l)| && Matches(o, Items(l)[i])
                          && (forall k :: 0 <= k < i ==> !Matches(o, Items(l)[k]))
                          && Items(r) == Items(l)[..i] + Items(l)[i + 1..]
    ensures removed ==> r.modCount == l.modCount + 1
  {
    var index, x := FindForward(l, o);
    if index == l.size {
      return l, false;
    }
    r, removed := UnlinkFound(l, index, x), true;
    assert Matches(o, Items(l)[index]) && Items(r) == Items(l)[..index] + Items(l)[index + 1..];
  }

  /** `unlink(x)` on the node a search found at position `index`. */
  function UnlinkFound<T>(l: LinkedList<T>, index: int, x: int): (r: LinkedList<T>)
    requires Valid(l) && 0 <= index < l.size && x == Order(l)[index]
    ensures Valid(r) && Items(r) == Items(l)[..index] + Items(l)[index + 1..]
    ensures r.modCount == l.modCount + 1
  {
    PositionOfAt(Order(l), index);
    Unlink(l, x).0
  }

  /** `removeFirstOccurrence(o)`: `remove(o)`. */
  method RemoveFirstOccurrence<T(==)>(l: LinkedList<T>, o: Ref<T>) returns (r: LinkedList<T>, removed: bool)
    requires Valid(l)
    ensures Valid(r)
    ensures !removed ==> r == l && forall k :: 0 <= k < |Items(l)| ==> !Matches(o, Items(l)[k])
    ensures removed ==> exists i :: 0 <= i < |Items(l)| && Matches(o, Items(l)[i])
                          && (forall k :: 0 <= k < i ==> !Matches(o, Items(l)[k]))
                          && Items(r) == Items(l)[..i] + Items(l)[i + 1..]
    ensures removed ==> r.modCount == l.modCount + 1
  {
    r, removed := RemoveElement(l, o);
  }

  /** `removeLastOccurrence(o)`: unlinks the last node whose item matches. */
  method RemoveLastOccurrence<T(==)>(l: LinkedList<T>, o: Ref<T>) returns (r: LinkedList<T>, removed: bool)
    requires Valid(l)
    ensures Valid(r)
    ensures !removed ==> r == l && forall k :: 0 <= k < |Items(l)| ==> !Matches(o, Items(l)[k])
    ensures removed ==> exists i :: 0 <= i < |Items(l)| && Matches(o, Items(l)[i])
                          && (forall k :: i < k < |Items(l)| ==> !Matches(o, Items(l)[k]))
                          && Items(r) == Items(l)[..i] + Items(l)[i + 1..]
    ensures removed ==> r.modCount == l.modCount + 1
  {
    var index, x := FindBackward(l, o);
    if index == -1 {
      return l, false;
    }
    r, removed := UnlinkFound(l, index, x), true;
    assert Matches(o, Items(l)[index]) && Items(r) == Items(l)[..index] + Items(l)[index + 1..];
  }

  // ------------------------------------------------------------ bulk operations

  /** `addAll(c)`: `addAll(size, c)`. */
  method AddAll<T>(l: LinkedList<T>, c: seq<Ref<T>>) returns (r: Outcome<LinkedList<T>, bool>)
    requires Valid(l)
    ensures r.result == Ok(|c| > 0) && Valid(r.state)
    ensures Items(r.state) == Items(l) + c
    ensures r.state.modCount == if |c| == 0 then l.modCount else l.modCount + 1
  {
    r := AddAllAt(l, l.size, c);
    assert Items(l)[..l.size] == Items(l) && Items(l)[l.size..] == [];
  }

  /** `addAll(index, c)`: `checkPositionIndex`; nothing happens for an empty
      `c`; otherwise the elements are linked in order between `node(index)`'s
      predecessor and `node(index)` (or after `last` when `index == size`),
      with a single `modCount` increment. */
  method AddAllAt<T>(l: LinkedList<T>, index: int, c: seq<Ref<T>>) returns (r: Outcome<LinkedList<T>, bool>)
    requires Valid(l)
    ensures r.result.Err? <==> !(0 <= index <= |Items(l)|)
    ensures r.result.Err? ==> r == Outcome(l, Err(IndexOutOfBounds))
    ensures r.result.Ok? && |c| == 0 ==> r == Outcome(l, Ok(false))
    ensures r.result.Ok? && |c| > 0 ==>
              && r.result == Ok(true) && Valid(r.state)
              && Items(r.state) == Items(l)[..index] + c + Items(l)[index..]
              && r.state.modCount == l.modCount + 1
  {
    if !IsPositionIndex(l, index) {
      return Outcome(l, Err(IndexOutOfBounds));
    }
    if |c| == 0 {
      return Outcome(l, Ok(false));
    }
    var cur;
    if index == l.size {
      cur := LinkAllLast(l, c);
      assert Items(l)[..index] == Items(l) && Items(l)[index..] == [];
    } else {
      cur := LinkAllBefore(l, index, c);
    }
    r := Outcome(cur.(modCount := l.modCount + 1), Ok(true));
  }

  /** The `index == size` case of `addAll`: each element becomes the new tail. */
  method LinkAllLast<T>(l: LinkedList<T>, c: seq<Ref<T>>) returns (r: LinkedList<T>)
    requires Valid(l)
    ensures Valid(r) && Items(r) == Items(l) + c
  {
    var s := Items(l);
    r := l;
    var k := 0;
    while k < |c|
      invariant 0 <= k <= |c| && Valid(r)
      invariant Items(r) == s + c[..k]
    {
      r := LinkLast(r, c[k]);
      assert c[..k + 1] == c[..k] + [c[k]];
      k := k + 1;
    }
    assert c[..k] == c;
  }

  /** The other case of `addAll`: each element is linked just before
      `node(index)`, after the ones linked so far. */
  method LinkAllBefore<T>(l: LinkedList<T>, index: int, c: seq<Ref<T>>) returns (r: LinkedList<T>)
    requires Valid(l) && 0 <= index < l.size
    ensures Valid(r) && Items(r) == Items(l)[..index] + c + Items(l)[index..]
  {
    var s := Items(l);
    var succ := NodeAt(l, index);
    r := l;
    var k := 0;
    while k < |c|
      invariant 0 <= k <= |c| && Valid(r)
      invariant index + k < r.size && Order(r)[index + k] == succ
      invariant Items(r) == s[..index] + c[..k] + s[index..]
    {
      var next := LinkBeforePosition(r, index + k, c[k]);
      InsertAfterPrefix(s, index, c, k, Items(r), Items(next));
      r := next;
      k := k + 1;
    }
    assert c[..k] == c;
  }

  /** `linkBefore(e, node(j))`, after which that node sits at `j + 1`. */
  function LinkBeforePosition<T>(l: LinkedList<T>, j: int, e: Ref<T>): (r: LinkedList<T>)
    requires Valid(l) && 0 <= j < l.size
    ensures Valid(r) && j + 1 < r.size && Order(r)[j + 1] == Order(l)[j]
    ensures Items(r) == Items(l)[..j] + [e] + Items(l)[j..]
  {
    var o := Order(l);
    PositionOfAt(o, j);
    InsertShift(o, j, |l.nodes|);
    LinkBefore(l, e, o[j])
  }

  /** After inserting at `j`, the old element at `j` sits at `j + 1`. */
  lemma InsertShift(o: seq<int>, j: int, n: int)
    requires 0 <= j < |o|
    ensures (o[..j] + [n] + o[j..])[j + 1] == o[j]
  {
  }

  /** Inserting `c[k]` at `index + k` extends the inserted run by one. */
  lemma InsertAfterPrefix<T>(s: seq<T>, index: int, c: seq<T>, k: int, t: seq<T>, u: seq<T>)
    requires 0 <= index <= |s| && 0 <= k < |c|
    requires t == s[..index] + c[..k] + s[index..]
    requires u == t[..index + k] + [c[k]] + t[index + k..]
    ensures u == s[..index] + c[..k + 1] + s[index..]
  {
    assert t[..index + k] == s[..index] + c[..k];
    assert t[index + k..] == s[index..];
    assert c[..k + 1] == c[..k] + [c[k]];
  }

  /** `clear()`: walks the chain unlinking every node and dropping its item,
      then empties the list and counts one modification. Nodes that were
      not in the chain are left alone. */
  method Clear<T>(l: LinkedList<T>) returns (r: LinkedList<T>)
    requires Valid(l)
    ensures Valid(r) && Items(r) == [] && r.modCount == l.modCount + 1
    ensures |r.nodes| == |l.nodes|
    ensures forall k :: 0 <= k < l.size ==> 0 <= Order(l)[k] < |r.nodes| && r.nodes[Order(l)[k]] == Node(NIL, Null, NIL)
    ensures forall y :: 0 <= y < |l.nodes| && y !in Order(l) ==> r.nodes[y] == l.nodes[y]
  {
    var o := Order(l);
    var nodes := l.nodes;
    var index := 0;
    var x := l.first;
    Ends(l);
    while x != NIL
      invariant 0 <= index <= l.size && |nodes| == |l.nodes|
      invariant x == if index < l.size then o[index] else NIL
      invariant index < l.size ==> 0 <= x
      invariant forall k :: 0 <= k < index ==> 0 <= o[k] < |nodes| && nodes[o[k]] == Node(NIL, Null, NIL)
      invariant forall y :: 0 <= y < |nodes| && y !in o[..index] ==> nodes[y] == l.nodes[y]
      decreases l.size - index
    {
      NodeFacts(l, index);
      NotVisited(l, index);
      ClearStep(o, l.nodes, nodes, index);
      var next := nodes[x].next;
      nodes := nodes[x := Node(NIL, Null, NIL)];
      x := next;
      index := index + 1;
    }
    assert o[..index] == o;
    r := LinkedList(nodes, NIL, NIL, 0, l.modCount + 1);
    assert Valid(r);
  }

  /** One step of `clear()`'s walk: the node at `index` still holds its
      original links when it is reached, and clearing it keeps the other
      nodes as they were. */
  lemma ClearStep<T>(o: seq<int>, orig: seq<Node<T>>, nodes: seq<Node<T>>, index: int)
    requires 0 <= index < |o| && |nodes| == |orig| && 0 <= o[index] < |nodes| && o[index] !in o[..index]
    requires forall k :: 0 <= k < index ==> 0 <= o[k] < |nodes| && nodes[o[k]] == Node(NIL, Null, NIL)
    requires forall y :: 0 <= y < |nodes| && y !in o[..index] ==> nodes[y] == orig[y]
    ensures nodes[o[index]] == orig[o[index]]
    ensures var cleared := nodes[o[index] := Node(NIL, Null, NIL)];
            && (forall k :: 0 <= k < index + 1 ==> 0 <= o[k] < |cleared| && cleared[o[k]] == Node(NIL, Null, NIL))
            && (forall y :: 0 <= y < |cleared| && y !in o[..index + 1] ==> cleared[y] == orig[y])
  {
    assert o[..index + 1] == o[..index] + [o[index]];
  }

  /** The node at chain position `index` is not among the earlier ones. */
  lemma NotVisited<T>(l: LinkedList<T>, index: int)
    requires Valid(l) && 0 <= index < l.size
    ensures Order(l)[index] !in Order(l)[..index]
  {
    var o := Order(l);
    assert Distinct(o);
  }

  // ------------------------------------------------------------ Queue, Deque and stack

  /** `peekFirst()` (and `peek()`): the head item, or `null` on an empty list. */
  function PeekFirst<T>(l: LinkedList<T>): (r: Ref<T>)
    requires Valid(l)
    ensures l.size == 0 ==> r == Null
    ensures l.size > 0 ==> r == Items(l)[0]
  {
    Ends(l);
    if l.first == NIL then Null
    else
      NodeFacts(l, 0);
      l.nodes[l.first].item
  }

  /** `peekLast()`: the tail item, or `null` on an empty list. */
  function PeekLast<T>(l: LinkedList<T>): (r: Ref<T>)
    requires Valid(l)
    ensures l.size == 0 ==> r == Null
    ensures l.size > 0 ==> r == Items(l)[l.size - 1]
  {
    Ends(l);
    if l.last == NIL then Null
    else
      NodeFacts(l, l.size - 1);
      l.nodes[l.last].item
  }

  /** `pollFirst()` (and `poll()`): removes and returns the head item; an
      empty list is left untouched and `null` comes back. */
  function PollFirst<T>(l: LinkedList<T>): (r: (LinkedList<T>, Ref<T>))
    requires Valid(l)
    ensures Valid(r.0)
    ensures l.size == 0 ==> r == (l, Null)
    ensures l.size > 0 ==>
              && Items(r.0) == Items(l)[1..] && r.1 == Items(l)[0]
              && r.0.modCount == l.modCount + 1
  {
    Ends(l);
    if l.first == NIL then (l, Null) else UnlinkFirst(l)
  }

  /** `pollLast()`: removes and returns the tail item; an empty list is left
      untouched and `null` comes back. */
  function PollLast<T>(l: LinkedList<T>): (r: (LinkedList<T>, Ref<T>))
    requires Valid(l)
    ensures Valid(r.0)
    ensures l.size == 0 ==> r == (l, Null)
    ensures l.size > 0 ==>
              && Items(r.0) == Items(l)[..l.size - 1] && r.1 == Items(l)[l.size - 1]
              && r.0.modCount == l.modCount + 1
  {
    Ends(l);
    if l.last == NIL then (l, Null) else UnlinkLast(l)
  }

  /** `peek()`: `peekFirst()`'s body. */
  function Peek<T>(l: LinkedList<T>): (r: Ref<T>)
    requires Valid(l)
    ensures r == if l.size == 0 then Null else Items(l)[0]
  {
    PeekFirst(l)
  }

  /** `element()`: `getFirst()`. */
  function Element<T>(l: LinkedList<T>): (r: Result<Ref<T>>)
    requires Valid(l)
    ensures r == if l.size == 0 then Err(NoSuchElement) else Ok(Items(l)[0])
  {
    GetFirst(l)
  }

  /** `poll()`: `pollFirst()`'s body. */
  function Poll<T>(l: LinkedList<T>): (r: (LinkedList<T>, Ref<T>))
    requires Valid(l)
    ensures Valid(r.0)
    ensures l.size == 0 ==> r == (l, Null)
    ensures l.size > 0 ==> Items(r.0) == Items(l)[1..] && r.1 == Items(l)[0] && r.0.modCount == l.modCount + 1
  {
    PollFirst(l)
  }

  /** `remove()`: `removeFirst()`. */
  function Remove<T>(l: LinkedList<T>): (r: Outcome<LinkedList<T>, Ref<T>>)
    requires Valid(l)
    ensures l.size == 0 ==> r == Outcome(l, Err(NoSuchElement))
    ensures l.size > 0 ==> Valid(r.state) && Items(r.state) == Items(l)[1..] && r.result == Ok(Items(l)[0])
                           && r.state.modCount == l.modCount + 1
  {
    RemoveFirst(l)
  }

  /** `offer(e)`: `add(e)`. */
  function Offer<T>(l: LinkedList<T>, e: Ref<T>): (r: (LinkedList<T>, bool))
    requires Valid(l)
    ensures Valid(r.0) && Items(r.0) == Items(l) + [e] && r.1 && r.0.modCount == l.modCount + 1
  {
    Add(l, e)
  }

  /** `offerFirst(e)`: `addFirst(e)`, reporting success. */
  function OfferFirst<T>(l: LinkedList<T>, e: Ref<T>): (r: (LinkedList<T>, bool))
    requires Valid(l)
    ensures Valid(r.0) && Items(r.0) == [e] + Items(l) && r.1 && r.0.modCount == l.modCount + 1
  {
    (AddFirst(l, e), true)
  }

  /** `offerLast(e)`: `addLast(e)`, reporting success. */
  function OfferLast<T>(l: LinkedList<T>, e: Ref<T>): (r: (LinkedList<T>, bool))
    requires Valid(l)
    ensures Valid(r.0) && Items(r.0) == Items(l) + [e] && r.1 && r.0.modCount == l.modCount + 1
  {
    (AddLast(l, e), true)
  }

  /** `push(e)`: `addFirst(e)`. */
  function Push<T>(l: LinkedList<T>, e: Ref<T>): (r: LinkedList<T>)
    requires Valid(l)
    ensures Valid(r) && Items(r) == [e] + Items(l) && r.modCount == l.modCount + 1
  {
    AddFirst(l, e)
  }

  /** `pop()`: `removeFirst()`. */
  function Pop<T>(l: LinkedList<T>): (r: Outcome<LinkedList<T>, Ref<T>>)
    requires Valid(l)
    ensures l.size == 0 ==> r == Outcome(l, Err(NoSuchElement))
    ensures l.size > 0 ==> Valid(r.state) && Items(r.state) == Items(l)[1..] && r.result == Ok(Items(l)[0])
                           && r.state.modCount == l.modCount + 1
  {
    RemoveFirst(l)
  }

  /** As a stack the list is last-in first-out: `pop` after `push(e)`
      returns `e` and restores the elements. */
  lemma PushPop<T>(l: LinkedList<T>, e: Ref<T>)
    requires Valid(l)
    ensures Pop(Push(l, e)).result == Ok(e)
    ensures Items(Pop(Push(l, e)).state) == Items(l)
  {
    assert ([e] + Items(l))[1..] == Items(l);
  }

  /** As a queue the list is first-in first-out: after `offer(e)`, `poll`
      returns the old head (or `e` itself on an empty list) and `e` stays
      at the tail. */
  lemma OfferPoll<T>(l: LinkedList<T>, e: Ref<T>)
    requires Valid(l)
    ensures var (q, _) := Offer(l, e);
            var (q', x) := Poll(q);
            && x == (if l.size == 0 then e else Items(l)[0])
            && Items(q') == (if l.size == 0 then [] else Items(l)[1..] + [e])
  {
    var (q, _) := Offer(l, e);
    assert Items(q) == Items(l) + [e];
    if l.size > 0 {
      assert (Items(l) + [e])[1..] == Items(l)[1..] + [e];
    }
  }
}
