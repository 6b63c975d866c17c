/** The kernel's singly linked list, behind run queues, wait lists and the iterators of maps. */
module LinkedLists {
  import opened Options
  import opened Sequences

  class ListNode<T> {
    var next: ListNode?<T>
    var data: T

    constructor (data: T)
      ensures this.data == data && next == null
    {
      this.data, next := data, null;
    }
  }

  /** A pointer to a pointer: to the list's first node, or to a node's next one. */
  datatype Slot<T> = Elems | NextOf(node: ListNode<T>)

  /** What the i-th node's link is to point to. */
  ghost function After<T>(nodes: seq<ListNode<T>>, i: nat): ListNode?<T>
    requires i < |nodes|
  {
    if i + 1 < |nodes| then nodes[i + 1] else null
  }

  /** The nodes are linked in this order, from first on, the last one ends the list, and they hold these data. */
  ghost predicate Chain<T>(first: ListNode?<T>, nodes: seq<ListNode<T>>, data: seq<T>)
    reads nodes
  {
    && Once(nodes) && |data| == |nodes|
    && first == (if nodes == [] then null else nodes[0])
    && (forall i: nat | i < |nodes| :: nodes[i].data == data[i])
    && forall i: nat {:trigger nodes[i].next} | i < |nodes| :: nodes[i].next == After(nodes, i)
  }

  class List<T(==)> {
    var elems: ListNode?<T>
    var count: nat
    ghost var nodes: seq<ListNode<T>>
    ghost var contents: seq<T>

    ghost predicate Valid()
      reads this, nodes
    {
      Chain(elems, nodes, contents) && count == |nodes|
    }

    constructor ()
      ensures Valid() && nodes == [] && contents == []
    {
      elems, count, nodes, contents := null, 0, [], [];
    }

    /** A list of its own with the same elements. */
    constructor Copy(r: List<T>)
      requires r.Valid()
      ensures Valid() && contents == r.contents && forall n | n in nodes :: fresh(n)
    {
      elems, count, nodes, contents := null, 0, [], [];
      new;
      var n := r.elems;
      ghost var i: nat := 0;
      while n != null
        invariant i <= |r.nodes| && n == (if i < |r.nodes| then r.nodes[i] else null)
        invariant r.Valid() && Valid() && contents == r.contents[..i]
        invariant forall j | 0 <= j < |nodes| :: fresh(nodes[j])
        decreases |r.nodes| - i
      {
        assert i < |r.nodes| && n.data == r.contents[i];
        Append(n.data);
        n := n.next;
        i := i + 1;
      }
    }

    /** What a slot points to. */
    function Deref(slot: Slot<T>): ListNode?<T>
      reads this`elems, if slot.Elems? then {} else {slot.node}
    {
      if slot.Elems? then elems else slot.node.next
    }

    /** Writes through a slot. */
    method Assign(slot: Slot<T>, n: ListNode?<T>)
      modifies if slot.Elems? then {} else {slot.node}, this`elems
      ensures slot.Elems? ==> elems == n
      ensures slot.NextOf? ==> elems == old(elems) && slot.node.next == n && slot.node.data == old(slot.node.data)
    {
      match slot
      case Elems => elems := n;
      case NextOf(node) => node.next := n;
    }

    /** The slot that points to the i-th node, or to the end of the list. */
    ghost function SlotAt(i: nat): Slot<T>
      reads this
      requires i <= |nodes|
    {
      if i == 0 then Elems else NextOf(nodes[i - 1])
    }

    method Append(elem: T)
      requires Valid()
      modifies this, nodes
      ensures Valid() && contents == old(contents) + [elem]
      ensures |nodes| == |old(nodes)| + 1 && old(nodes) <= nodes && fresh(nodes[|old(nodes)|])
    {
      ghost var i: nat := 0;
      var slot := Slot<T>.Elems;
      var n := Deref(slot);
      while n != null
        invariant i <= |nodes| && slot == SlotAt(i) && n == if i < |nodes| then nodes[i] else null
        decreases |nodes| - i
        modifies {}
      {
        slot := NextOf(n);
        i := i + 1;
        n := Deref(slot);
      }
      assert i == |nodes|;
      AfterMore(nodes);
      var node := new ListNode<T>(elem);
      Assign(slot, node);
      count := count + 1;
      nodes, contents := nodes + [node], contents + [elem];
    }

    /** Takes out the first element equal to elem, if there is one. */
    method Remove(elem: T)
      requires Valid()
      modifies this, nodes
      ensures Valid() && contents == Without(old(contents), elem)
      ensures forall n | n in nodes :: n in old(nodes)
    {
      ghost var i: nat := 0;
      var slot := Slot<T>.Elems;
      var n := Deref(slot);
      while n != null && n.data != elem
        invariant i <= |nodes| && slot == SlotAt(i) && n == if i < |nodes| then nodes[i] else null
        invariant elem !in contents[..i]
        decreases |nodes| - i
        modifies {}
      {
        slot := NextOf(n);
        i := i + 1;
        n := Deref(slot);
      }
      WithoutAt(contents, elem, i);
      if n != null {
        assert n.data == elem;
        Unlink(slot, n, i);
      }
    }

    /** Takes out the node that a slot points to. */
    method Unlink(slot: Slot<T>, candidate: ListNode<T>, ghost i: nat)
      requires Valid() && i < |nodes| && slot == SlotAt(i) && candidate == nodes[i]
      modifies this, nodes
      ensures Valid() && contents == old(contents)[..i] + old(contents)[i + 1..]
              && nodes == old(nodes)[..i] + old(nodes)[i + 1..]
    {
      OnceApart(nodes, i);
      ghost var ns, c := nodes, contents;
      var next := candidate.next;
      Assign(slot, next);
      count := count - 1;
      nodes, contents := ns[..i] + ns[i + 1..], c[..i] + c[i + 1..];
      OnceCut(ns, i);
      hide Once;
      AfterCut(ns, i);
    }

    method Dequeue() returns (elem: T)
      requires Valid() && count > 0
      modifies this
      ensures Valid() && [elem] + contents == old(contents) && nodes == old(nodes)[1..]
    {
      elem := elems.data;
      elems := elems.next;
      count := count - 1;
      nodes, contents := nodes[1..], contents[1..];
    }

    method Push(elem: T)
      requires Valid()
      modifies this
      ensures Valid() && contents == [elem] + old(contents)
      ensures |nodes| > 0 && nodes[1..] == old(nodes) && fresh(nodes[0])
    {
      var node := new ListNode<T>(elem);
      node.next := elems;
      elems := node;
      count := count + 1;
      nodes, contents := [node] + nodes, [elem] + contents;
    }

    method Last() returns (elem: T)
      requires Valid() && count > 0
      ensures elem == contents[|contents| - 1]
    {
      var last := elems;
      ghost var i: nat := 0;
      while last.next != null
        invariant i < |nodes| && last == nodes[i]
        decreases |nodes| - i
      {
        last := last.next;
        i := i + 1;
      }
      elem := last.data;
    }

    /** The element at a place in the list, or nothing where the source's assert fails. */
    method At(index: int) returns (r: Option<T>)
      requires Valid()
      ensures r == if 0 <= index < |contents| then Some(contents[index]) else None
    {
      var ctr := 0;
      var n := elems;
      while ctr != index && n != null
        invariant 0 <= ctr <= |nodes| && n == (if ctr < |nodes| then nodes[ctr] else null)
        invariant index < 0 || ctr <= index
        decreases |nodes| - ctr
      {
        n := n.next;
        ctr := ctr + 1;
      }
      r := if n == null then None else Some(n.data);
    }

    method Clear()
      requires Valid()
      modifies this
      ensures Valid() && contents == [] && nodes == []
    {
      elems, count, nodes, contents := null, 0, [], [];
    }
  }

  /** Without takes out what comes first: the element before which there is none like it. */
  lemma {:induction false} WithoutAt<T>(c: seq<T>, x: T, i: nat)
    requires i <= |c| && x !in c[..i] && (i < |c| ==> c[i] == x)
    ensures Without(c, x) == if i < |c| then c[..i] + c[i + 1..] else c
  {
    if i > 0 {
      assert c[0] == c[..i][0] && c[1..][..i - 1] == c[..i][1..];
      WithoutAt(c[1..], x, i - 1);
    }
  }

  lemma OnceApart<T>(c: seq<T>, i: nat)
    requires Once(c) && i < |c|
    ensures forall j | 0 <= j < |c| && j != i :: c[j] != c[i]
    ensures i > 0 ==> forall j | 0 <= j < |c| && j != i - 1 :: c[j] != c[i - 1]
  {
  }

  lemma OnceCut<T>(c: seq<T>, i: nat)
    requires Once(c) && i < |c|
    ensures Once(c[..i] + c[i + 1..])
  {
    var d := c[..i] + c[i + 1..];
    assert forall j | 0 <= j < |d| :: d[j] == c[if j < i then j else j + 1];
  }

  /** What comes after a node once node i is cut out. */
  lemma AfterCut<T>(c: seq<ListNode<T>>, i: nat)
    requires i < |c|
    ensures var d := c[..i] + c[i + 1..];
      && |d| == |c| - 1
      && (forall j: nat | j < i :: d[j] == c[j])
      && (forall j: nat | i <= j < |d| :: d[j] == c[j + 1])
      && (forall j: nat {:trigger After(d, j)} | j < |d| ::
           After(d, j) == After(c, if j + 1 < i then j else if j + 1 == i then i else j + 1))
  {
  }

  lemma AfterMore<T>(c: seq<ListNode<T>>)
    ensures forall x, j: nat {:trigger After(c + [x], j)} | j <= |c| ::
              After(c + [x], j) == if j + 1 == |c| then x else if j == |c| then null else After(c, j)
  {
  }

  /** The links and data alone say which nodes and elements a list has, and in which order. */
  lemma OneChain<T>(first: ListNode?<T>, ns: seq<ListNode<T>>, c: seq<T>, ms: seq<ListNode<T>>, d: seq<T>)
    requires Chain(first, ns, c) && Chain(first, ms, d)
    ensures ns == ms && c == d
  {
    if |ns| <= |ms| { SameStart(first, ns, c, ms, d, |ns|); } else { SameStart(first, ms, d, ns, c, |ms|); }
  }

  lemma {:induction false} SameStart<T>(first: ListNode?<T>, ns: seq<ListNode<T>>, c: seq<T>, ms: seq<ListNode<T>>,
                                        d: seq<T>, k: nat)
    requires Chain(first, ns, c) && Chain(first, ms, d) && k <= |ns| && k <= |ms|
    ensures ns[..k] == ms[..k] && (k == |ns| <==> k == |ms|)
  {
    if k > 0 {
      SameStart(first, ns, c, ms, d, k - 1);
      assert ns[k - 1] == if k == 1 then first else ns[k - 2].next;
      assert ms[k - 1] == if k == 1 then first else ms[k - 2].next;
      assert ns[k - 1].next == After(ns, k - 1) && ms[k - 1].next == After(ms, k - 1);
    }
  }
}
