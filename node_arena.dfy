/**
 * The index-addressed node arena of latex2mmlc/src/arena.rs: nodes live in
 * one growing vector and are named by their position in it; a `NodeList`
 * threads some of them into a singly linked list through each element's
 * `next` field; a `Buffer` is an append-only string addressed by ranges.
 *
 * The node type is a type parameter: what a node holds does not matter to
 * the arena.
 */
module NodeArena {
  import opened Wrappers
  import opened Seqs

  /** A vector element: the node and the link to the next element of its list. */
  datatype Element<N> = Element(node: N, next: Option<nat>)

  /** `InhabitedNodeList`: the first and last element of a non-empty list. */
  datatype Ends = Ends(head: nat, tail: nat)

  /**
   * `elems` is a chain of distinct, valid indices of `nodes`, each element
   * linked to the following one and the last one linked to nothing.
   */
  ghost predicate Linked<N>(nodes: seq<Element<N>>, elems: seq<nat>) {
    && (forall i | 0 <= i < |elems| :: elems[i] < |nodes|)
    && (forall i | 0 <= i < |elems| - 1 :: nodes[elems[i]].next == Some(elems[i + 1]))
    && (|elems| > 0 ==> nodes[elems[|elems| - 1]].next == None)
    && (forall i, j | 0 <= i < j < |elems| :: elems[i] != elems[j])
  }

  /** The nodes at the indices of `elems`, in order. */
  ghost function NodesAt<N>(nodes: seq<Element<N>>, elems: seq<nat>): (r: seq<N>)
    requires forall i | 0 <= i < |elems| :: elems[i] < |nodes|
    ensures |r| == |elems|
    ensures forall i | 0 <= i < |elems| :: r[i] == nodes[elems[i]].node
  {
    seq(|elems|, i requires 0 <= i < |elems| => nodes[elems[i]].node)
  }

  /** The rest of a chain after its first element is a chain. */
  lemma LinkedTail<N>(nodes: seq<Element<N>>, elems: seq<nat>)
    requires Linked(nodes, elems) && elems != []
    ensures Linked(nodes, elems[1..])
  {
    var rest := elems[1..];
    forall i | 0 <= i < |rest| - 1 ensures nodes[rest[i]].next == Some(rest[i + 1]) {
      assert rest[i] == elems[i + 1] && rest[i + 1] == elems[i + 2];
    }
  }

  /**
   * Appending a fresh element `r` whose link is empty, and linking the old
   * last element to it, gives a chain again.
   */
  lemma {:induction false} LinkedSnoc<N>(nodes: seq<Element<N>>, elems: seq<nat>, r: nat, nodes': seq<Element<N>>)
    requires Linked(nodes, elems) && elems != []
    requires r < |nodes| && r !in elems && nodes[r].next == None
    requires var t := elems[|elems| - 1];
      nodes' == nodes[t := nodes[t].(next := Some(r))]
    ensures Linked(nodes', elems + [r])
    ensures NodesAt(nodes', elems + [r]) == NodesAt(nodes, elems) + [nodes[r].node]
  {
    var t := elems[|elems| - 1];
    var e := elems + [r];
    forall i | 0 <= i < |e| - 1 ensures nodes'[e[i]].next == Some(e[i + 1]) {
      if i == |elems| - 1 {
        assert e[i] == t;
      } else {
        assert e[i] == elems[i] && e[i + 1] == elems[i + 1];
        assert elems[i] != t;
      }
    }
    assert r != t;
    forall i, j | 0 <= i < j < |e| ensures e[i] != e[j] {
      if j == |elems| {
        assert e[i] == elems[i];
      } else {
        assert e[i] == elems[i] && e[j] == elems[j];
      }
    }
  }

  /** `Arena`: the vector of elements. */
  class Arena<N> {
    var nodes: seq<Element<N>>

    /** `Arena::new`. */
    constructor ()
      ensures nodes == []
    {
      nodes := [];
    }

    /**
     * `push`: appends the node, not linked to anything, and returns its
     * index, which is the old length.
     */
    method Push(node: N) returns (r: nat)
      modifies this
      ensures r == |old(nodes)|
      ensures nodes == old(nodes) + [Element(node, None)]
    {
      r := |nodes|;
      nodes := nodes + [Element(node, None)];
    }

    /**
     * `lookup`: the node at a reference. References are only made by
     * `push`, so the index is always in the vector.
     */
    method Lookup(r: nat) returns (node: N)
      requires r < |nodes|
      ensures node == nodes[r].node
    {
      node := nodes[r].node;
    }

    /**
     * `lookup_mut`, as the update made through the mutable reference it
     * returns: the node at `r` is replaced; its link and every other
     * element stay.
     */
    method LookupMut(r: nat, node: N)
      requires r < |nodes|
      modifies this
      ensures nodes == old(nodes)[r := Element(node, old(nodes)[r].next)]
    {
      nodes := nodes[r := Element(node, nodes[r].next)];
    }
  }

  /** Looking up the index returned by `push` gives the pushed node (the test `arena`). */
  method PushThenLookup<N>(node: N) returns (found: N)
    ensures found == node
  {
    var arena := new Arena<N>();
    var r := arena.Push(node);
    found := arena.Lookup(r);
  }

  /** `NodeList`: empty, or the ends of a chain of arena elements. */
  class NodeList {
    var list: Option<Ends>
    /** The indices of the list's elements, from head to tail. */
    ghost var elements: seq<nat>

    ghost predicate Valid<N>(arena: Arena<N>)
      reads this, arena
    {
      && Linked(arena.nodes, elements)
      && (list.None? <==> elements == [])
      && (list.Some? ==> list.value.head == elements[0] && list.value.tail == elements[|elements| - 1])
    }

    /** The nodes of the list, in order. */
    ghost function Values<N>(arena: Arena<N>): seq<N>
      reads this, arena
      requires Valid(arena)
    {
      NodesAt(arena.nodes, elements)
    }

    /** `NodeList::new`. */
    constructor ()
      ensures list.None? && elements == []
    {
      list := None;
      elements := [];
    }

    /**
     * `push_ref`: makes the element at `r` the new tail. For an empty list
     * it becomes head and tail; otherwise the only element of the arena
     * that changes is the old tail, whose link now points at `r`. The
     * element must not be in the list already and must not be linked, as
     * for every element that `push` has just made.
     */
    method PushRef<N>(arena: Arena<N>, r: nat)
      requires Valid(arena)
      requires r < |arena.nodes| && r !in elements && arena.nodes[r].next == None
      modifies this, arena
      ensures Valid(arena)
      ensures elements == old(elements) + [r]
      ensures Values(arena) == old(Values(arena)) + [arena.nodes[r].node]
      ensures old(list).None? ==> arena.nodes == old(arena.nodes) && list == Some(Ends(r, r))
      ensures old(list).Some? ==>
        && arena.nodes == old(arena.nodes)[old(list).value.tail := old(arena.nodes)[old(list).value.tail].(next := Some(r))]
        && list == Some(Ends(old(list).value.head, r))
    {
      match list {
        case None =>
          list := Some(Ends(r, r));
          elements := [r];
          assert Values(arena) == [arena.nodes[r].node];
        case Some(ends) =>
          ghost var nodes0 := arena.nodes;
          arena.nodes := arena.nodes[ends.tail := arena.nodes[ends.tail].(next := Some(r))];
          list := Some(Ends(ends.head, r));
          LinkedSnoc(nodes0, elements, r, arena.nodes);
          assert arena.nodes[r].node == nodes0[r].node;
          elements := elements + [r];
      }
    }

    /** `push`: adds the node to the arena and appends it to the list. */
    method Push<N>(arena: Arena<N>, node: N)
      requires Valid(arena)
      modifies this, arena
      ensures Valid(arena)
      ensures elements == old(elements) + [|old(arena.nodes)|]
      ensures Values(arena) == old(Values(arena)) + [node]
    {
      ghost var values0 := Values(arena);
      ghost var nodes0 := arena.nodes;
      var r := arena.Push(node);
      assert Linked(arena.nodes, elements) by {
        forall i | 0 <= i < |elements| ensures arena.nodes[elements[i]] == nodes0[elements[i]] { }
      }
      assert Values(arena) == values0;
      PushRef(arena, r);
    }

    /** `is_empty`: true exactly when nothing was pushed. */
    method IsEmpty<N>(ghost arena: Arena<N>) returns (b: bool)
      requires Valid(arena)
      ensures b <==> elements == []
      ensures b <==> Values(arena) == []
    {
      b := list.None?;
    }

    /** `is_singleton`: the one element of a list whose head is its tail. */
    method IsSingleton<N>(ghost arena: Arena<N>) returns (r: Option<nat>)
      requires Valid(arena)
      ensures r.Some? <==> list.Some? && list.value.head == list.value.tail
      ensures r.Some? <==> |elements| == 1
      ensures r.Some? ==> r.value == elements[0]
    {
      match list {
        case None => r := None;
        case Some(ends) =>
          if ends.head == ends.tail {
            r := Some(ends.head);
          } else {
            assert elements[0] != elements[|elements| - 1];
            r := None;
          }
      }
    }

    /** `get_head`. */
    method GetHead<N>(ghost arena: Arena<N>) returns (r: Option<nat>)
      requires Valid(arena)
      ensures r == (if elements == [] then None else Some(elements[0]))
    {
      r := if list.None? then None else Some(list.value.head);
    }

    /** `iter`: an iterator positioned at the head. */
    method Iter<N>(arena: Arena<N>) returns (it: NodeListIterator<N>)
      requires Valid(arena)
      ensures fresh(it) && it.Valid() && it.arena == arena && it.remaining == elements
    {
      var head := GetHead(arena);
      it := new NodeListIterator(arena, head, elements);
    }

    /** `iter_manually`: an iterator that is given the arena at every step. */
    method IterManually<N>(arena: Arena<N>) returns (it: ManualIterator)
      requires Valid(arena)
      ensures fresh(it) && it.Valid(arena) && it.remaining == elements
    {
      var head := GetHead(arena);
      it := new ManualIterator(arena, head, elements);
    }

    /**
     * Running the iterator to its end yields the pushed nodes in the order
     * they were pushed (the tests `list`, `list_singleton` and `list_empty`).
     */
    method Collect<N>(arena: Arena<N>) returns (s: seq<N>)
      requires Valid(arena)
      ensures s == Values(arena)
    {
      var it := Iter(arena);
      s := Drain(it);
    }
  }

  /** The test `list_empty`: a new list is empty, and its iterator yields nothing. */
  method EmptyListYieldsNothing() returns (empty: bool, first: Option<string>)
    ensures empty && first.None?
  {
    var arena := new Arena<string>();
    var list := new NodeList();
    empty := list.IsEmpty(arena);
    var it := list.Iter(arena);
    first := it.Next();
  }

  /** The test `list_singleton`: one pushed node makes a singleton that yields it. */
  method SingletonYieldsNode() returns (single: Option<nat>, nodes: seq<string>)
    ensures single.Some? && nodes == ["Hello, world!"]
  {
    var arena := new Arena<string>();
    var list := new NodeList();
    list.Push(arena, "Hello, world!");
    single := list.IsSingleton(arena);
    nodes := list.Collect(arena);
  }

  /** The test `list`: two pushed nodes make a list that is not a singleton and yields both in order. */
  method PushedNodesInOrder() returns (single: Option<nat>, nodes: seq<string>)
    ensures single.None? && nodes == ["Hello, world!", "Goodbye, world!"]
  {
    var arena := new Arena<string>();
    var list := new NodeList();
    list.Push(arena, "Hello, world!");
    list.Push(arena, "Goodbye, world!");
    single := list.IsSingleton(arena);
    nodes := list.Collect(arena);
  }

  /** Calls `next` until it yields nothing, collecting the nodes yielded. */
  method Drain<N>(it: NodeListIterator<N>) returns (s: seq<N>)
    requires it.Valid()
    modifies it
    ensures s == old(it.Rest())
  {
    ghost var target := it.Rest();
    s := [];
    var item := it.Next();
    assert s + Items(item) == Items(item);
    while item.Some?
      invariant it.Valid()
      invariant target == s + Items(item) + it.Rest()
      invariant item.None? ==> it.Rest() == []
      decreases |it.remaining| + |Items(item)|
    {
      ghost var s0, v, rest := s, item.value, it.Rest();
      s := s + [item.value];
      item := it.Next();
      DrainStep(target, s0, v, rest, Items(item), it.Rest());
    }
    assert Items(item) + it.Rest() == [];
    AppendAssoc(s, Items(item), it.Rest());
  }

  /** One step of `Drain`: the node yielded moves from what is left to what was collected. */
  lemma DrainStep<N>(target: seq<N>, s: seq<N>, v: N, rest: seq<N>, next: seq<N>, after: seq<N>)
    requires target == s + [v] + rest
    requires rest == next + after
    ensures target == (s + [v]) + next + after
  {
    AppendAssoc(s + [v], next, after);
  }

  /** An optional item as a sequence of zero or one items. */
  function Items<T>(item: Option<T>): (r: seq<T>)
    ensures |r| == (if item.Some? then 1 else 0)
  {
    if item.Some? then [item.value] else []
  }

  /** `NodeListIterator`: the arena and the element to yield next. */
  class NodeListIterator<N> {
    const arena: Arena<N>
    var current: Option<nat>
    /** The indices still to be yielded. */
    ghost var remaining: seq<nat>

    ghost predicate Valid()
      reads this, arena
    {
      Linked(arena.nodes, remaining) && current == (if remaining == [] then None else Some(remaining[0]))
    }

    /** The nodes still to be yielded, in order. */
    ghost function Rest(): seq<N>
      reads this, arena
      requires Valid()
    {
      NodesAt(arena.nodes, remaining)
    }

    constructor (arena: Arena<N>, current: Option<nat>, ghost remaining: seq<nat>)
      requires Linked(arena.nodes, remaining)
      requires current == (if remaining == [] then None else Some(remaining[0]))
      ensures Valid() && this.arena == arena && this.remaining == remaining
    {
      this.arena := arena;
      this.current := current;
      this.remaining := remaining;
    }

    /** `next`: the node at the current element, then moves along its link; `None` at the end. */
    method Next() returns (r: Option<N>)
      requires Valid()
      modifies this
      ensures Valid()
      ensures old(remaining) == [] ==> r.None? && remaining == []
      ensures old(remaining) != [] ==>
        && r == Some(arena.nodes[old(remaining)[0]].node)
        && remaining == old(remaining)[1..]
      ensures old(Rest()) == Items(r) + Rest()
      ensures |old(remaining)| == |Items(r)| + |remaining|
      ensures r.None? ==> Rest() == []
    {
      match current {
        case None => r := None;
        case Some(reference) =>
          var element := arena.nodes[reference];
          current := element.next;
          LinkedTail(arena.nodes, remaining);
          remaining := remaining[1..];
          r := Some(element.node);
      }
    }
  }

  /** `NodeListManualIterator`: only the element to yield next. */
  class ManualIterator {
    var current: Option<nat>
    ghost var remaining: seq<nat>

    ghost predicate Valid<N>(arena: Arena<N>)
      reads this, arena
    {
      Linked(arena.nodes, remaining) && current == (if remaining == [] then None else Some(remaining[0]))
    }

    constructor <N>(arena: Arena<N>, current: Option<nat>, ghost remaining: seq<nat>)
      requires Linked(arena.nodes, remaining)
      requires current == (if remaining == [] then None else Some(remaining[0]))
      ensures Valid(arena) && this.remaining == remaining
    {
      this.current := current;
      this.remaining := remaining;
    }

    /** `next`: the current reference together with its node, then moves along the link. */
    method Next<N>(arena: Arena<N>) returns (r: Option<(nat, N)>)
      requires Valid(arena)
      modifies this
      ensures Valid(arena)
      ensures old(remaining) == [] ==> r.None? && remaining == []
      ensures old(remaining) != [] ==>
        && r == Some((old(remaining)[0], arena.nodes[old(remaining)[0]].node))
        && remaining == old(remaining)[1..]
    {
      match current {
        case None => r := None;
        case Some(reference) =>
          var element := arena.nodes[reference];
          current := element.next;
          LinkedTail(arena.nodes, remaining);
          remaining := remaining[1..];
          r := Some((reference, element.node));
      }
    }
  }

  /** `StrReference`: a range of the buffer. */
  datatype StrReference = StrReference(start: nat, end: nat)

  /** `Buffer`: an append-only string. */
  class Buffer {
    var text: string

    constructor ()
      ensures text == []
    {
      text := [];
    }

    /** The text a reference names; `get_str` is only given references the buffer made. */
    function GetStr(r: StrReference): (s: string)
      reads this
      requires r.start <= r.end <= |text|
      ensures |s| == r.end - r.start
      ensures forall i | 0 <= i < |s| :: s[i] == text[r.start + i]
    {
      text[r.start..r.end]
    }

    /** `extend`: appends the chars and returns the range they now occupy. */
    method Extend(chars: string) returns (r: StrReference)
      modifies this
      ensures text == old(text) + chars
      ensures r == StrReference(|old(text)|, |text|)
      ensures GetStr(r) == chars
    {
      var start := |text|;
      text := text + chars;
      r := StrReference(start, |text|);
    }

    /** `push_str`: as `extend`, for a string slice. */
    method PushStr(s: string) returns (r: StrReference)
      modifies this
      ensures text == old(text) + s
      ensures r == StrReference(|old(text)|, |text|)
      ensures GetStr(r) == s
    {
      var start := |text|;
      text := text + s;
      r := StrReference(start, |text|);
    }

    /** `push`: appends one char. */
    method Push(c: char)
      modifies this
      ensures text == old(text) + [c]
    {
      text := text + [c];
    }

    /** `len`. */
    method Len() returns (n: nat)
      ensures n == |text|
    {
      n := |text|;
    }
  }

  /** A string pushed into a fresh buffer is what its reference names (the tests `buffer_extend` and `buffer_push_str`). */
  method PushStrThenGet(s: string) returns (back: string)
    ensures back == s
  {
    var buffer := new Buffer();
    var r := buffer.PushStr(s);
    back := buffer.GetStr(r);
  }
}
