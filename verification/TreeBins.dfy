/** dlmalloc's tree bins as values: chunk fields in memory, the tries they form, and what linking
    and unlinking chunks does to them. */
module TreeBins {
  import opened Arithmetic
  import opened BinIndex
  import opened Sequences

  /** The fields of chunks, by chunk address. Tree fields are used only in free large chunks. */
  datatype Heap = Heap(
    head: map<int, int>,
    prevFoot: map<int, int>,
    fd: map<int, int>,
    bk: map<int, int>,
    child: map<(int, bool), int>,
    parent: map<int, int>,
    index: map<int, int>)

  /** A field as the code reads it; memory never written is 0. */
  function At<K>(field: map<K, int>, a: K): int {
    if a in field then field[a] else 0
  }

  /** The chunk size in a head word, without its three flag bits. */
  function SizeIn(head: int): int {
    head / 8 * 8
  }

  function Size(h: Heap, p: int): int {
    SizeIn(At(h.head, p))
  }

  /** The address that stands for a bin's own slot in parent fields; never a chunk's. */
  function BinSlot(bin: nat): int {
    -1 - bin
  }

  /** The trie positions in use, each with the chunks of one size there, oldest first. */
  type Nodes = map<Pos, seq<int>>

  ghost function Head(nodes: Nodes, p: Pos): int {
    if p in nodes && |nodes[p]| > 0 then nodes[p][0] else 0
  }

  ghost function ParentOf(nodes: Nodes, p: Pos): int {
    match p case Root(b) => BinSlot(b) case Child(q, _) => Head(nodes, q)
  }

  function Younger(c: seq<int>, j: nat): int
    requires j < |c|
  {
    if j + 1 < |c| then c[j + 1] else c[0]
  }

  function Older(c: seq<int>, j: nat): int
    requires j < |c|
  {
    if j > 0 then c[j - 1] else c[|c| - 1]
  }

  /** Distinct free chunks of one size and bin; only the first may have tree links. */
  ghost predicate RingMembers(h: Heap, c: seq<int>, bin: nat) {
    && |c| > 0
    && (forall i, j | 0 <= i < j < |c| :: c[i] != c[j])
    && (forall j | 0 <= j < |c| :: c[j] > 0 && Size(h, c[j]) == Size(h, c[0]) && At(h.index, c[j]) == bin)
    && (forall j | 0 < j < |c| ::
         At(h.parent, c[j]) == 0 && At(h.child, (c[j], false)) == 0 && At(h.child, (c[j], true)) == 0)
  }

  /** Linked both ways in a ring by age. */
  ghost predicate RingLinks(h: Heap, c: seq<int>) {
    && (forall j {:trigger At(h.bk, c[j])} | 0 <= j < |c| :: At(h.bk, c[j]) == Younger(c, j))
    && (forall j {:trigger At(h.fd, c[j])} | 0 <= j < |c| :: At(h.fd, c[j]) == Older(c, j))
  }

  /** Chunks of one size, linked in a ring by age; only the oldest may have tree links. */
  ghost predicate Ring(h: Heap, c: seq<int>, bin: nat) {
    RingMembers(h, c, bin) && RingLinks(h, c)
  }

  /** Size s belongs at position p: in its bin, and in its interval. */
  ghost predicate Fits(p: Pos, s: int) {
    MIN_LARGE_SIZE <= s < MAX_SIZE && TreeIndex(s) == Bin(p) && Holds(p, s)
  }

  ghost predicate NodeOk(h: Heap, nodes: Nodes, p: Pos)
    requires p in nodes
  {
    Valid(p) && Ring(h, nodes[p], Bin(p)) && Fits(p, Size(h, nodes[p][0])) && TreeLinks(h, nodes, p)
  }

  /** The oldest chunk at p is linked to the nodes around p. */
  ghost predicate TreeLinks(h: Heap, nodes: Nodes, p: Pos) {
    && At(h.parent, Head(nodes, p)) == ParentOf(nodes, p)
    && At(h.child, (Head(nodes, p), false)) == Head(nodes, Child(p, false))
    && At(h.child, (Head(nodes, p), true)) == Head(nodes, Child(p, true))
    && (p.Child? ==> p.parent in nodes)
  }

  /** No chunk is in two places. */
  ghost predicate Apart(nodes: Nodes) {
    forall p, q, x | p in nodes && q in nodes && x in nodes[p] && x in nodes[q] :: p == q
  }

  /** No two positions hold the same size. */
  ghost predicate SizesDiffer(h: Heap, nodes: Nodes) {
    forall p, q | p in nodes && q in nodes && Size(h, Head(nodes, p)) == Size(h, Head(nodes, q)) :: p == q
  }

  ghost predicate TriesOk(h: Heap, nodes: Nodes) {
    && (forall p | p in nodes :: NodeOk(h, nodes, p))
    && Apart(nodes) && SizesDiffer(h, nodes)
  }

  ghost predicate BinsOk(treebins: seq<int>, treemap: set<nat>, nodes: Nodes) {
    && |treebins| == NTREEBINS
    && (forall b: nat | b < NTREEBINS :: treebins[b] == Head(nodes, Root(b)) && (b in treemap <==> Root(b) in nodes))
    && (forall b | b in treemap :: b < NTREEBINS)
  }

  ghost predicate Binned(nodes: Nodes, x: int) {
    exists p :: p in nodes && x in nodes[p]
  }

  /** A ring none of whose fields change, except the oldest's tree links, stays one. */
  lemma RingFrame(h: Heap, h': Heap, c: seq<int>, bin: nat)
    requires Ring(h, c, bin) && h'.head == h.head
    requires forall x | x in c ::
               At(h'.fd, x) == At(h.fd, x) && At(h'.bk, x) == At(h.bk, x) && At(h'.index, x) == At(h.index, x)
    requires forall x | x in c && x != c[0] :: At(h'.parent, x) == At(h.parent, x)
               && At(h'.child, (x, false)) == At(h.child, (x, false))
               && At(h'.child, (x, true)) == At(h.child, (x, true))
    ensures Ring(h', c, bin)
  {
    assert forall j | 0 <= j < |c| :: c[j] in c;
  }

  /** What is known of a node and its neighbours. */
  lemma NodeFacts(h: Heap, nodes: Nodes, p: Pos)
    requires TriesOk(h, nodes) && p in nodes
    ensures Valid(p) && Ring(h, nodes[p], Bin(p)) && Fits(p, Size(h, Head(nodes, p))) && TreeLinks(h, nodes, p)
    ensures |nodes[p]| > 0 && Head(nodes, p) == nodes[p][0] && Head(nodes, p) in nodes[p] && Head(nodes, p) > 0
    ensures p.Child? ==> p.parent in nodes
    ensures forall x | x in nodes[p] :: Binned(nodes, x) && x > 0
  {
    assert NodeOk(h, nodes, p);
    assert forall x | x in nodes[p] :: Binned(nodes, x);
  }

  /** Below a free position there is nothing. */
  lemma NothingBelow(h: Heap, nodes: Nodes, p: Pos)
    requires TriesOk(h, nodes) && p !in nodes
    ensures Child(p, false) !in nodes && Child(p, true) !in nodes
    ensures Head(nodes, Child(p, false)) == 0 && Head(nodes, Child(p, true)) == 0
  {
    if Child(p, false) in nodes { NodeFacts(h, nodes, Child(p, false)); }
    if Child(p, true) in nodes { NodeFacts(h, nodes, Child(p, true)); }
  }

  // ----- Linking in a chunk of a new size -----

  /** No chunk's fields differ, except those of chunks xs and the child fields in slots. */
  ghost predicate SameBut(h: Heap, h': Heap, xs: set<int>, slots: set<(int, bool)>) {
    && h'.head == h.head && h'.prevFoot == h.prevFoot
    && (forall y :: y !in xs ==> At(h'.fd, y) == At(h.fd, y))
    && (forall y :: y !in xs ==> At(h'.bk, y) == At(h.bk, y))
    && (forall y :: y !in xs ==> At(h'.parent, y) == At(h.parent, y))
    && (forall y :: y !in xs ==> At(h'.index, y) == At(h.index, y))
    && (forall y, b :: y !in xs && (y, b) !in slots ==> At(h'.child, (y, b)) == At(h.child, (y, b)))
  }

  /** The child field that holds the pointer to the node at p, unless p is a root. */
  ghost function SlotOf(nodes: Nodes, p: Pos): set<(int, bool)> {
    match p case Root(_) => {} case Child(q, right) => {(Head(nodes, q), right)}
  }

  /** Chunk x was linked in alone at the free position p. */
  ghost predicate LinkedIn(h: Heap, h': Heap, nodes: Nodes, p: Pos, x: int) {
    && SameBut(h, h', {x}, SlotOf(nodes, p))
    && At(h'.fd, x) == At(h'.bk, x) == x && At(h'.index, x) == Bin(p) && At(h'.parent, x) == ParentOf(nodes, p)
    && At(h'.child, (x, false)) == At(h'.child, (x, true)) == 0
    && (p.Child? ==> At(h'.child, (Head(nodes, p.parent), p.right)) == x)
  }

  ghost predicate Linkable(h: Heap, nodes: Nodes, p: Pos, x: int) {
    && TriesOk(h, nodes) && p !in nodes && Valid(p) && x > 0 && !Binned(nodes, x)
    && Fits(p, Size(h, x)) && (p.Child? ==> p.parent in nodes)
    && forall q | q in nodes :: Size(h, Head(nodes, q)) != Size(h, x)
  }

  lemma Linked(h: Heap, h': Heap, nodes: Nodes, p: Pos, x: int)
    requires Linkable(h, nodes, p, x) && LinkedIn(h, h', nodes, p, x)
    ensures TriesOk(h', nodes[p := [x]])
  {
    hide Ring;
    hide Fits;
    hide TreeLinks;
    hide Valid;
    hide Linkable;
    hide LinkedIn;
    var nodes' := nodes[p := [x]];
    forall q | q in nodes' ensures NodeOk(h', nodes', q) {
      if q == p { NewNodeOk(h, h', nodes, p, x); } else { LinkKeeps(h, h', nodes, p, x, q); }
    }
    LinkApart(h, h', nodes, p, x);
  }

  lemma LinkApart(h: Heap, h': Heap, nodes: Nodes, p: Pos, x: int)
    requires Linkable(h, nodes, p, x) && LinkedIn(h, h', nodes, p, x)
    ensures Apart(nodes[p := [x]])
    ensures SizesDiffer(h', nodes[p := [x]])
  {
    hide NodeOk;
    hide Fits;
    hide Valid;
    var nodes' := nodes[p := [x]];
    forall q, r | q in nodes' && r in nodes' && Size(h', Head(nodes', q)) == Size(h', Head(nodes', r)) ensures q == r {
      assert q != p ==> Head(nodes', q) == Head(nodes, q);
      assert r != p ==> Head(nodes', r) == Head(nodes, r);
    }
  }

  lemma NewNodeOk(h: Heap, h': Heap, nodes: Nodes, p: Pos, x: int)
    requires Linkable(h, nodes, p, x) && LinkedIn(h, h', nodes, p, x)
    ensures NodeOk(h', nodes[p := [x]], p)
  {
    hide TriesOk;
    hide Fits;
    hide Valid;
    hide Ring;
    NothingBelow(h, nodes, p);
    LoneRing(h', x, Bin(p));
    if p.Child? { NodeFacts(h, nodes, p.parent); }
  }

  lemma LoneRing(h: Heap, x: int, bin: nat)
    requires x > 0 && At(h.fd, x) == At(h.bk, x) == x && At(h.index, x) == bin
    ensures Ring(h, [x], bin)
  {
  }

  lemma LinkKeeps(h: Heap, h': Heap, nodes: Nodes, p: Pos, x: int, q: Pos)
    requires Linkable(h, nodes, p, x) && LinkedIn(h, h', nodes, p, x) && q in nodes
    ensures NodeOk(h', nodes[p := [x]], q)
  {
    hide TriesOk;
    hide NodeOk;
    hide Fits;
    hide Valid;
    hide Ring;
    NodeFacts(h, nodes, q);
    assert x !in nodes[q];
    if p.Child? {
      NodeFacts(h, nodes, p.parent);
      OnePlace(h, nodes, p.parent, q, Head(nodes, p.parent));
    }
    RingFrame(h, h', nodes[q], Bin(q));
    MakeNode(h', nodes[p := [x]], q);
  }

  lemma OnePlace(h: Heap, nodes: Nodes, p: Pos, q: Pos, x: int)
    requires TriesOk(h, nodes) && p in nodes && q in nodes && x in nodes[p]
    ensures x in nodes[q] ==> p == q
  {
  }

  lemma MakeNode(h: Heap, nodes: Nodes, p: Pos)
    requires p in nodes && |nodes[p]| > 0
    requires Valid(p) && Ring(h, nodes[p], Bin(p)) && Fits(p, Size(h, Head(nodes, p))) && TreeLinks(h, nodes, p)
    ensures NodeOk(h, nodes, p)
  {
  }

  // ----- Linking in a chunk of a size already present -----

  /** Chunk x was linked into ring c between its first and its last member. */
  ghost predicate Spliced(h: Heap, h': Heap, c: seq<int>, x: int)
    requires |c| > 0
  {
    var t, f := c[0], c[|c| - 1];
    && (forall y :: y != x && y != t ==> At(h'.fd, y) == At(h.fd, y))
    && (forall y :: y != x && y != f ==> At(h'.bk, y) == At(h.bk, y))
    && At(h'.fd, t) == x && At(h'.bk, f) == x && At(h'.fd, x) == f && At(h'.bk, x) == t
  }

  /** Chunk x was linked into the ring at p between its oldest and its youngest chunk. */
  ghost predicate ChainedIn(h: Heap, h': Heap, c: seq<int>, bin: nat, x: int)
    requires |c| > 0
  {
    && h'.head == h.head && h'.prevFoot == h.prevFoot && Spliced(h, h', c, x)
    && (forall y :: y != x ==> At(h'.parent, y) == At(h.parent, y))
    && (forall y :: y != x ==> At(h'.index, y) == At(h.index, y))
    && (forall y, b :: y != x ==> At(h'.child, (y, b)) == At(h.child, (y, b)))
    && At(h'.parent, x) == 0 && At(h'.index, x) == bin && At(h'.child, (x, false)) == At(h'.child, (x, true)) == 0
  }

  lemma GrownLinks(h: Heap, h': Heap, c: seq<int>, x: int, j: nat)
    requires RingLinks(h, c) && Once(c) && |c| > 0 && x !in c && Spliced(h, h', c, x) && j <= |c|
    ensures At(h'.bk, (c + [x])[j]) == Younger(c + [x], j)
    ensures At(h'.fd, (c + [x])[j]) == Older(c + [x], j)
  {
    if j < |c| {
      assert At(h.bk, c[j]) == Younger(c, j);
      assert At(h.fd, c[j]) == Older(c, j);
    }
  }

  lemma MoreMembers(h: Heap, h': Heap, c: seq<int>, bin: nat, x: int)
    requires RingMembers(h, c, bin) && x !in c && x > 0 && Size(h, x) == Size(h, c[0])
    requires ChainedIn(h, h', c, bin, x)
    ensures RingMembers(h', c + [x], bin)
  {
  }

  lemma RingGrows(h: Heap, h': Heap, c: seq<int>, bin: nat, x: int)
    requires Ring(h, c, bin) && x !in c && x > 0 && Size(h, x) == Size(h, c[0])
    requires ChainedIn(h, h', c, bin, x)
    ensures Ring(h', c + [x], bin)
  {
    hide Spliced;
    var d := c + [x];
    forall j | 0 <= j < |d| ensures At(h'.bk, d[j]) == Younger(d, j) && At(h'.fd, d[j]) == Older(d, j) {
      GrownLinks(h, h', c, x, j);
    }
    MoreMembers(h, h', c, bin, x);
  }

  ghost predicate Chainable(h: Heap, h': Heap, nodes: Nodes, p: Pos, x: int) {
    && TriesOk(h, nodes) && p in nodes && x > 0 && !Binned(nodes, x) && Size(h, x) == Size(h, Head(nodes, p))
    && |nodes[p]| > 0 && ChainedIn(h, h', nodes[p], Bin(p), x)
  }

  lemma ChainedNode(h: Heap, h': Heap, nodes: Nodes, p: Pos, x: int)
    requires Chainable(h, h', nodes, p, x)
    ensures NodeOk(h', nodes[p := nodes[p] + [x]], p)
  {
    hide TriesOk;
    hide Ring;
    hide Fits;
    hide Valid;
    hide NodeOk;
    NodeFacts(h, nodes, p);
    assert x !in nodes[p];
    RingGrows(h, h', nodes[p], Bin(p), x);
    MakeNode(h', nodes[p := nodes[p] + [x]], p);
  }

  lemma ChainedKeeps(h: Heap, h': Heap, nodes: Nodes, p: Pos, x: int, q: Pos)
    requires Chainable(h, h', nodes, p, x) && q in nodes && q != p
    ensures NodeOk(h', nodes[p := nodes[p] + [x]], q)
  {
    hide TriesOk;
    hide Ring;
    hide Fits;
    hide Valid;
    hide NodeOk;
    NodeFacts(h, nodes, q);
    assert x !in nodes[q];
    OnePlace(h, nodes, p, q, nodes[p][0]);
    OnePlace(h, nodes, p, q, nodes[p][|nodes[p]| - 1]);
    RingFrame(h, h', nodes[q], Bin(q));
    MakeNode(h', nodes[p := nodes[p] + [x]], q);
  }

  lemma Chained(h: Heap, h': Heap, nodes: Nodes, p: Pos, x: int)
    requires Chainable(h, h', nodes, p, x)
    ensures TriesOk(h', nodes[p := nodes[p] + [x]])
  {
    hide NodeOk;
    hide ChainedIn;
    var nodes' := nodes[p := nodes[p] + [x]];
    forall q | q in nodes' ensures NodeOk(h', nodes', q) {
      if q == p { ChainedNode(h, h', nodes, p, x); } else { ChainedKeeps(h, h', nodes, p, x, q); }
    }
    assert h'.head == h.head by { ChainedHead(h, h', nodes[p], Bin(p), x); }
    assert forall q :: Head(nodes', q) == Head(nodes, q);
  }

  lemma ChainedHead(h: Heap, h': Heap, c: seq<int>, bin: nat, x: int)
    requires |c| > 0 && ChainedIn(h, h', c, bin, x)
    ensures h'.head == h.head && h'.prevFoot == h.prevFoot
    ensures forall y :: y != x && y !in c ==> At(h'.fd, y) == At(h.fd, y) && At(h'.bk, y) == At(h.bk, y)
  {
  }

  // ----- Unlinking -----

  function Drop(c: seq<int>, j: nat): seq<int>
    requires j < |c|
  {
    c[..j] + c[j + 1..]
  }

  /** The neighbours of chunk c[j] in its ring were linked to each other. */
  ghost predicate RingUnlinked(h: Heap, h': Heap, c: seq<int>, j: nat)
    requires j < |c|
  {
    var f, r := Older(c, j), Younger(c, j);
    && h'.head == h.head && h'.prevFoot == h.prevFoot && h'.parent == h.parent && h'.index == h.index
    && h'.child == h.child
    && (forall y :: y != r ==> At(h'.fd, y) == At(h.fd, y)) && At(h'.fd, r) == f
    && (forall y :: y != f ==> At(h'.bk, y) == At(h.bk, y)) && At(h'.bk, f) == r
  }

  /** The neighbours in a ring that one member has left. */
  lemma DropNeighbours(c: seq<int>, j: nat, i: nat) returns (k: nat)
    requires Once(c) && j < |c| && |c| > 1 && i < |c| - 1
    ensures k < |c| && Drop(c, j)[i] == c[k]
    ensures Younger(Drop(c, j), i) == if c[k] == Older(c, j) then Younger(c, j) else Younger(c, k)
    ensures Older(Drop(c, j), i) == if c[k] == Younger(c, j) then Older(c, j) else Older(c, k)
  {
    var d, n := Drop(c, j), |c| - 1;
    k := if i < j then i else i + 1;
    var before, after := if j > 0 then j - 1 else n, if j < n then j + 1 else 0;
    assert d[i] == c[k] && d[0] == (if j == 0 then c[1] else c[0]) && d[n - 1] == (if j == n then c[n - 1] else c[n]);
    assert i + 1 < n ==> d[i + 1] == if i + 1 < j then c[i + 1] else c[i + 2];
    assert i > 0 ==> d[i - 1] == if i - 1 < j then c[i - 1] else c[i];
    assert Older(c, j) == c[before] && Younger(c, j) == c[after];
    assert (c[k] == c[before] <==> k == before) && (c[k] == c[after] <==> k == after);
  }

  lemma ShrunkLinks(h: Heap, h': Heap, c: seq<int>, j: nat, i: nat)
    requires RingLinks(h, c) && Once(c) && j < |c| && |c| > 1 && RingUnlinked(h, h', c, j) && i < |c| - 1
    ensures At(h'.bk, Drop(c, j)[i]) == Younger(Drop(c, j), i)
    ensures At(h'.fd, Drop(c, j)[i]) == Older(Drop(c, j), i)
  {
    var k := DropNeighbours(c, j, i);
    assert At(h.bk, c[k]) == Younger(c, k);
    assert At(h.fd, c[k]) == Older(c, k);
  }

  lemma RingShrinks(h: Heap, h': Heap, c: seq<int>, bin: nat, j: nat)
    requires Ring(h, c, bin) && j < |c| && |c| > 1 && RingUnlinked(h, h', c, j)
    ensures Ring(h', Drop(c, j), bin)
  {
    hide RingUnlinked;
    var d := Drop(c, j);
    forall i | 0 <= i < |d|
      ensures At(h'.bk, d[i]) == Younger(d, i) && At(h'.fd, d[i]) == Older(d, i)
    {
      ShrunkLinks(h, h', c, j, i);
    }
    FewerMembers(h, h', c, bin, j);
  }

  lemma FewerMembers(h: Heap, h': Heap, c: seq<int>, bin: nat, j: nat)
    requires RingMembers(h, c, bin) && j < |c| && |c| > 1 && RingUnlinked(h, h', c, j)
    ensures RingMembers(h', Drop(c, j), bin)
  {
  }

  lemma DropMembers(c: seq<int>, j: nat)
    requires j < |c| && forall i, k | 0 <= i < k < |c| :: c[i] != c[k]
    ensures forall x :: x in Drop(c, j) <==> x in c && x != c[j]
    ensures j > 0 ==> Drop(c, j)[0] == c[0]
  {
    var d := Drop(c, j);
    assert c == c[..j] + [c[j]] + c[j + 1..];
  }

  lemma RingUnlinkKeeps(h: Heap, h': Heap, nodes: Nodes, p: Pos, j: nat, q: Pos)
    requires TriesOk(h, nodes) && p in nodes && j < |nodes[p]| && |nodes[p]| > 1 && RingUnlinked(h, h', nodes[p], j)
    requires q in nodes && q != p
    ensures NodeOk(h', nodes, q)
  {
    hide TriesOk;
    hide Ring;
    hide Fits;
    hide Valid;
    hide NodeOk;
    NodeFacts(h, nodes, q);
    OnePlace(h, nodes, p, q, Older(nodes[p], j));
    OnePlace(h, nodes, p, q, Younger(nodes[p], j));
    RingFrame(h, h', nodes[q], Bin(q));
    MakeNode(h', nodes, q);
  }

  /** Taking a chained chunk, not the oldest of its size, out of its ring. */
  lemma Unchained(h: Heap, h': Heap, nodes: Nodes, p: Pos, j: nat)
    requires TriesOk(h, nodes) && p in nodes && 0 < j < |nodes[p]| && RingUnlinked(h, h', nodes[p], j)
    ensures TriesOk(h', nodes[p := Drop(nodes[p], j)])
  {
    hide NodeOk;
    var nodes' := nodes[p := Drop(nodes[p], j)];
    NodeFacts(h, nodes, p);
    DropRing(h, h', nodes, p, j);
    assert forall q :: Head(nodes', q) == Head(nodes, q);
    forall q | q in nodes' && q != p ensures NodeOk(h', nodes', q) {
      RingUnlinkKeeps(h, h', nodes, p, j, q);
      SameNeighbours(h', nodes, nodes', q);
    }
  }

  lemma SameNeighbours(h: Heap, nodes: Nodes, nodes': Nodes, q: Pos)
    requires q in nodes && NodeOk(h, nodes, q) && q in nodes' && nodes'[q] == nodes[q] && nodes'.Keys == nodes.Keys
    requires forall p :: Head(nodes', p) == Head(nodes, p)
    ensures NodeOk(h, nodes', q)
  {
  }

  lemma DropRing(h: Heap, h': Heap, nodes: Nodes, p: Pos, j: nat)
    requires TriesOk(h, nodes) && p in nodes && 0 < j < |nodes[p]| && RingUnlinked(h, h', nodes[p], j)
    ensures NodeOk(h', nodes[p := Drop(nodes[p], j)], p)
    ensures forall x :: x in Drop(nodes[p], j) ==> x in nodes[p]
    ensures Drop(nodes[p], j)[0] == nodes[p][0]
  {
    hide TriesOk;
    hide Fits;
    hide Valid;
    hide NodeOk;
    NodeFacts(h, nodes, p);
    RingShrinks(h, h', nodes[p], Bin(p), j);
    DropMembers(nodes[p], j);
    MakeNode(h', nodes[p := Drop(nodes[p], j)], p);
  }

  /** The pointer to the leaf at p was cleared. */
  ghost predicate Detached(h: Heap, h': Heap, nodes: Nodes, p: Pos) {
    && SameBut(h, h', {}, SlotOf(nodes, p))
    && (p.Child? ==> At(h'.child, (Head(nodes, p.parent), p.right)) == 0)
  }

  ghost predicate Leaf(nodes: Nodes, p: Pos) {
    p in nodes && Child(p, false) !in nodes && Child(p, true) !in nodes
  }

  lemma DetachKeeps(h: Heap, h': Heap, nodes: Nodes, p: Pos, q: Pos)
    requires TriesOk(h, nodes) && Leaf(nodes, p) && Detached(h, h', nodes, p) && q in nodes && q != p
    ensures NodeOk(h', nodes - {p}, q)
  {
    hide TriesOk;
    hide NodeOk;
    hide Fits;
    hide Valid;
    hide Ring;
    NodeFacts(h, nodes, q);
    NodeFacts(h, nodes, p);
    if p.Child? {
      NodeFacts(h, nodes, p.parent);
      OnePlace(h, nodes, p.parent, q, Head(nodes, p.parent));
    }
    RingFrame(h, h', nodes[q], Bin(q));
    DetachLinks(h, h', nodes, p, q);
    MakeNode(h', nodes - {p}, q);
  }

  lemma DetachLinks(h: Heap, h': Heap, nodes: Nodes, p: Pos, q: Pos)
    requires TreeLinks(h, nodes, q) && Leaf(nodes, p) && Detached(h, h', nodes, p) && q in nodes && q != p
    requires p.Child? ==> p.parent in nodes && (Head(nodes, p.parent) == Head(nodes, q) ==> q == p.parent)
    ensures TreeLinks(h', nodes - {p}, q)
  {
  }

  /** Cutting a leaf off leaves sound tries. */
  lemma LeafDetached(h: Heap, h': Heap, nodes: Nodes, p: Pos)
    requires TriesOk(h, nodes) && Leaf(nodes, p) && Detached(h, h', nodes, p)
    ensures TriesOk(h', nodes - {p})
  {
    hide NodeOk;
    hide Ring;
    var nodes' := nodes - {p};
    forall q | q in nodes' ensures NodeOk(h', nodes', q) {
      DetachKeeps(h, h', nodes, p, q);
    }
    assert forall q :: q in nodes' ==> Head(nodes', q) == Head(nodes, q);
  }

  /** The leaf's ring is intact, without tree links. */
  lemma LeafIsLoose(h: Heap, h': Heap, nodes: Nodes, p: Pos)
    requires TriesOk(h, nodes) && Leaf(nodes, p) && Detached(h, h', nodes, p)
    ensures Loose(h', nodes - {p}, nodes[p], Bin(p))
  {
    hide NodeOk;
    hide Ring;
    hide Holds;
    hide Valid;
    NodeFacts(h, nodes, p);
    LeafRing(h, h', nodes, p);
    assert forall q :: q in nodes && q != p ==> Head(nodes - {p}, q) == Head(nodes, q);
  }

  lemma LeafRing(h: Heap, h': Heap, nodes: Nodes, p: Pos)
    requires TriesOk(h, nodes) && Leaf(nodes, p) && Detached(h, h', nodes, p)
    ensures Ring(h', nodes[p], Bin(p))
            && At(h'.child, (Head(nodes, p), false)) == At(h'.child, (Head(nodes, p), true)) == 0
  {
    hide TriesOk;
    hide Ring;
    NodeFacts(h, nodes, p);
    if p.Child? {
      NodeFacts(h, nodes, p.parent);
      OnePlace(h, nodes, p.parent, p, Head(nodes, p.parent));
    }
    RingFrame(h, h', nodes[p], Bin(p));
  }

  /** A ring of a bin's chunks that is in no trie: none of its chunks has children. */
  ghost predicate Loose(h: Heap, nodes: Nodes, c: seq<int>, bin: nat) {
    && Ring(h, c, bin) && |c| > 0
    && At(h.child, (c[0], false)) == At(h.child, (c[0], true)) == 0
    && MIN_LARGE_SIZE <= Size(h, c[0]) < MAX_SIZE && TreeIndex(Size(h, c[0])) == bin
    && (forall q | q in nodes :: Size(h, Head(nodes, q)) != Size(h, c[0]))
    && (forall q, x | q in nodes && x in c :: x !in nodes[q])
  }

  /** The head at p is about to be replaced by the loose ring c, of a size that fits there. */
  ghost predicate Replaceable(h: Heap, nodes: Nodes, p: Pos, c: seq<int>) {
    && p in nodes && Valid(p) && Head(nodes, p) > 0 && Apart(nodes) && SizesDiffer(h, nodes)
    && (forall q | q in nodes && q != p :: NodeOk(h, nodes, q))
    && TreeLinks(h, nodes, p)
    && Loose(h, nodes - {p}, c, Bin(p)) && Holds(p, Size(h, c[0])) && c[0] != Head(nodes, p)
  }

  /** The head of ring c took over the tree links of the head at p. */
  ghost predicate Relinked(h: Heap, h': Heap, nodes: Nodes, p: Pos, r: int) {
    var x, left, right := Head(nodes, p), Head(nodes, Child(p, false)), Head(nodes, Child(p, true));
    && h'.head == h.head && h'.prevFoot == h.prevFoot && h'.fd == h.fd && h'.bk == h.bk && h'.index == h.index
    && (forall y :: y != r && y != left && y != right ==> At(h'.parent, y) == At(h.parent, y))
    && At(h'.parent, r) == ParentOf(nodes, p)
    && (left != 0 ==> At(h'.parent, left) == r) && (right != 0 ==> At(h'.parent, right) == r)
    && (forall y, b :: y != r && (y, b) !in SlotOf(nodes, p) ==> At(h'.child, (y, b)) == At(h.child, (y, b)))
    && At(h'.child, (r, false)) == left && At(h'.child, (r, true)) == right
    && (p.Child? ==> At(h'.child, (Head(nodes, p.parent), p.right)) == r)
  }

  /** Facts about a node other than the one being replaced. */
  lemma OtherFacts(h: Heap, nodes: Nodes, p: Pos, c: seq<int>, q: Pos)
    requires Replaceable(h, nodes, p, c) && q in nodes && q != p
    ensures Valid(q) && Ring(h, nodes[q], Bin(q)) && Fits(q, Size(h, Head(nodes, q))) && TreeLinks(h, nodes, q)
    ensures |nodes[q]| > 0 && Head(nodes, q) == nodes[q][0] && Head(nodes, q) in nodes[q] && Head(nodes, q) > 0
    ensures |c| > 0 && c[0] !in nodes[q] && c[0] != Head(nodes, q)
  {
    hide Holds;
    hide Valid;
    hide Ring;
    hide Apart;
    hide SizesDiffer;
    HasMembers(h, nodes, q);
    assert q in nodes - {p};
    LooseHead(h, nodes - {p}, c, Bin(p), q);
  }

  lemma LooseHead(h: Heap, nodes: Nodes, c: seq<int>, bin: nat, q: Pos)
    requires Loose(h, nodes, c, bin) && q in nodes
    ensures |c| > 0 && c[0] !in nodes[q] && forall y | y in c :: y !in nodes[q]
  {
    assert c[0] in c;
  }

  lemma HeadsApart(h: Heap, nodes: Nodes, p: Pos, c: seq<int>, q: Pos, r: Pos)
    requires Replaceable(h, nodes, p, c) && q in nodes && r in nodes && r != q && r != p
    ensures Head(nodes, r) !in nodes[q]
  {
    hide Ring;
    hide Valid;
    hide Holds;
    hide Loose;
    HasMembers(h, nodes, r);
  }

  lemma HasMembers(h: Heap, nodes: Nodes, p: Pos)
    requires p in nodes && NodeOk(h, nodes, p)
    ensures |nodes[p]| > 0 && nodes[p][0] > 0 && Head(nodes, p) in nodes[p]
  {
  }

  /** The heads around p are chunks of no other node. */
  lemma AroundFacts(h: Heap, nodes: Nodes, p: Pos, c: seq<int>, q: Pos)
    requires Replaceable(h, nodes, p, c) && q in nodes && q != p
    ensures Head(nodes, Child(p, false)) in nodes[q] ==> q == Child(p, false)
    ensures Head(nodes, Child(p, true)) in nodes[q] ==> q == Child(p, true)
    ensures p.Child? ==> p.parent in nodes && p.parent != p && (Head(nodes, p.parent) in nodes[q] ==> q == p.parent)
    ensures forall y | y in nodes[q] :: y > 0
  {
    hide Loose;
    hide Valid;
    hide Fits;
    OtherFacts(h, nodes, p, c, q);
    assert forall j | 0 <= j < |nodes[q]| :: nodes[q][j] > 0;
    ParentDiffers(p);
    ParentDiffers(Child(p, false));
    ParentDiffers(Child(p, true));
    if Child(p, false) in nodes && q != Child(p, false) { HeadsApart(h, nodes, p, c, q, Child(p, false)); }
    if Child(p, true) in nodes && q != Child(p, true) { HeadsApart(h, nodes, p, c, q, Child(p, true)); }
    if p.Child? && q != p.parent { HeadsApart(h, nodes, p, c, q, p.parent); }
  }

  lemma RelinkKeeps(h: Heap, h': Heap, nodes: Nodes, p: Pos, c: seq<int>, q: Pos)
    requires Replaceable(h, nodes, p, c) && |c| > 0 && Relinked(h, h', nodes, p, c[0]) && q in nodes && q != p
    ensures NodeOk(h', nodes[p := c], q)
  {
    hide NodeOk;
    hide Ring;
    hide Fits;
    hide Valid;
    hide Replaceable;
    OtherFacts(h, nodes, p, c, q);
    AroundFacts(h, nodes, p, c, q);
    RingFrame(h, h', nodes[q], Bin(q));
    MakeNode(h', nodes[p := c], q);
  }

  lemma ReplacedNode(h: Heap, h': Heap, nodes: Nodes, p: Pos, c: seq<int>)
    requires Replaceable(h, nodes, p, c) && |c| > 0 && Relinked(h, h', nodes, p, c[0])
    ensures NodeOk(h', nodes[p := c], p)
  {
    hide NodeOk;
    hide Ring;
    hide Valid;
    hide Holds;
    hide Apart;
    hide SizesDiffer;
    var nodes' := nodes[p := c];
    ParentDiffers(Child(p, false));
    ParentDiffers(Child(p, true));
    ParentDiffers(p);
    LooseTreeLinks(h, nodes, p, c);
    RingFrame(h, h', c, Bin(p));
    MakeNode(h', nodes', p);
  }

  /** The heads around p are not chained in the loose ring. */
  lemma LooseTreeLinks(h: Heap, nodes: Nodes, p: Pos, c: seq<int>)
    requires Replaceable(h, nodes, p, c)
    ensures forall y | y in c :: y != Head(nodes, Child(p, false)) && y != Head(nodes, Child(p, true)) && y > 0
    ensures p.Child? ==> forall y | y in c :: y != Head(nodes, p.parent)
  {
    hide NodeOk;
    hide TreeLinks;
    hide Valid;
    hide Fits;
    assert forall j | 0 <= j < |c| :: c[j] > 0;
    ParentDiffers(Child(p, false));
    ParentDiffers(Child(p, true));
    ParentDiffers(p);
    LooseAgainst(h, nodes, p, c, Child(p, false));
    LooseAgainst(h, nodes, p, c, Child(p, true));
    if p.Child? { assert p.parent in nodes by { ParentIn(h, nodes, p, c); } LooseAgainst(h, nodes, p, c, p.parent); }
  }

  lemma ParentIn(h: Heap, nodes: Nodes, p: Pos, c: seq<int>)
    requires Replaceable(h, nodes, p, c) && p.Child?
    ensures p.parent in nodes
  {
  }

  lemma LooseAgainst(h: Heap, nodes: Nodes, p: Pos, c: seq<int>, q: Pos)
    requires Replaceable(h, nodes, p, c) && q != p
    ensures q in nodes ==> forall y | y in c :: y != Head(nodes, q)
  {
    hide Valid;
    hide Fits;
    hide Ring;
    if q in nodes {
      assert q in nodes - {p};
      HasMembers(h, nodes, q);
      LooseHead(h, nodes - {p}, c, Bin(p), q);
    }
  }

  /** Replacing the head at p by any ring of a size that fits there keeps the tries sound: this is
      what lets any leaf below p stand in for it. */
  lemma Replaced(h: Heap, h': Heap, nodes: Nodes, p: Pos, c: seq<int>)
    requires Replaceable(h, nodes, p, c) && |c| > 0 && Relinked(h, h', nodes, p, c[0])
    ensures TriesOk(h', nodes[p := c])
  {
    hide NodeOk;
    hide Ring;
    hide Relinked;
    var nodes' := nodes[p := c];
    forall q | q in nodes' ensures NodeOk(h', nodes', q) {
      if q == p { ReplacedNode(h, h', nodes, p, c); } else { RelinkKeeps(h, h', nodes, p, c, q); }
    }
    ReplacedApart(h, h', nodes, p, c);
  }

  lemma ReplacedApart(h: Heap, h': Heap, nodes: Nodes, p: Pos, c: seq<int>)
    requires Replaceable(h, nodes, p, c) && |c| > 0 && Relinked(h, h', nodes, p, c[0])
    ensures Apart(nodes[p := c]) && SizesDiffer(h', nodes[p := c])
  {
    hide NodeOk;
    hide Ring;
    var nodes' := nodes[p := c];
    var rest := nodes - {p};
    assert forall q :: q in rest <==> q in nodes && q != p;
    assert forall q | q in rest :: Head(rest, q) == Head(nodes, q) == Head(nodes', q);
    forall q, r | q in nodes' && r in nodes' && Size(h', Head(nodes', q)) == Size(h', Head(nodes', r)) ensures q == r {
    }
  }

  // ----- Walking down -----

  /** Position q is p or below it. */
  predicate Under(q: Pos, p: Pos) {
    q == p || (q.Child? && Under(q.parent, p))
  }

  /** Position q is come to from p by going down to the right wherever there is a right child. */
  ghost predicate ByRight(nodes: Nodes, p: Pos, q: Pos) {
    q == p || (q.Child? && (q.right <==> Child(q.parent, true) in nodes) && ByRight(nodes, p, q.parent))
  }

  /** What taking out chunk x at index j of its chain leaves: the others of its size stay in order; if it was the only
      one, the leaf come to by going right wherever possible takes its place, or the place is given up. */
  ghost predicate Refilled(was: Nodes, now: Nodes, x: int, p: Pos, j: nat, leaf: Pos) {
    && p in was && j < |was[p]| && was[p][j] == x
    && if |was[p]| > 1 then now == was[p := was[p][..j] + was[p][j + 1..]]
       else
         && Leaf(was, leaf) && ByRight(was, p, leaf)
         && now == if leaf == p then was - {p} else (was - {leaf})[p := was[leaf]]
  }

  /** A node's interval lies within that of every node above it. */
  lemma {:induction false} Nested(q: Pos, p: Pos)
    requires Under(q, p) && Valid(q)
    ensures Valid(p) && Bin(q) == Bin(p) && Bits(q) <= Bits(p)
    ensures Lo(p) <= Lo(q) && Lo(q) + Width(q) <= Lo(p) + Width(p)
  {
    if q != p {
      Nested(q.parent, p);
      Halved(q.parent);
    }
  }

  /** What is strictly below p is below one of its children. */
  lemma {:induction false} UnderChild(q: Pos, p: Pos)
    requires Under(q, p) && q != p
    ensures Under(q, Child(p, false)) || Under(q, Child(p, true))
  {
    if q.parent != p { UnderChild(q.parent, p); }
  }

  lemma {:induction false} UnderRoot(q: Pos)
    ensures Under(q, Root(Bin(q)))
  {
    if q.Child? { UnderRoot(q.parent); }
  }

  /** Above a node there are nodes all the way. */
  lemma {:induction false} UpIsIn(h: Heap, nodes: Nodes, q: Pos, p: Pos)
    requires TriesOk(h, nodes) && q in nodes && Under(q, p)
    ensures p in nodes
  {
    NodeFacts(h, nodes, q);
    if q != p { UpIsIn(h, nodes, q.parent, p); }
  }

  /** A size strictly below p that p's child on s's side holds is below that child. */
  lemma UnderSide(q: Pos, p: Pos, right: bool, s: nat)
    requires Under(q, p) && q != p && Valid(q) && Holds(q, s) && Valid(p) && Bits(p) >= 1 && Holds(Child(p, right), s)
    ensures Under(q, Child(p, right))
  {
    UnderChild(q, p);
    ChildrenHold(p, s);
    if Under(q, Child(p, false)) { Nested(q, Child(p, false)); }
    if Under(q, Child(p, true)) { Nested(q, Child(p, true)); }
  }

  /** One distinguishing bit left: two sizes at a position of width 1 are equal. */
  lemma LastBit(p: Pos, s: nat, t: nat)
    requires Valid(p) && Holds(p, s) && Holds(p, t) && s != t
    ensures Bits(p) >= 1
  {
    BitsBounded(p);
  }

  // ----- The chunks of each size -----

  /** The chunks of size s, oldest first. */
  ghost function Chain(h: Heap, nodes: Nodes, s: int): seq<int> {
    if exists p :: p in nodes && Size(h, Head(nodes, p)) == s
    then var p :| p in nodes && Size(h, Head(nodes, p)) == s; nodes[p]
    else []
  }

  lemma ChainIs(h: Heap, nodes: Nodes, p: Pos)
    requires TriesOk(h, nodes) && p in nodes
    ensures Chain(h, nodes, Size(h, Head(nodes, p))) == nodes[p]
  {
  }

  lemma NoChain(h: Heap, nodes: Nodes, s: int)
    requires forall p | p in nodes :: Size(h, Head(nodes, p)) != s
    ensures Chain(h, nodes, s) == []
  {
  }

  /** Every chain is as before except that of size s, which is now c. */
  ghost predicate ChainsBut(h: Heap, nodes: Nodes, h': Heap, nodes': Nodes, s: int, c: seq<int>) {
    forall t: int :: Chain(h', nodes', t) == if t == s then c else Chain(h, nodes, t)
  }

  /** One position's chain changes, or appears. */
  lemma OneChainChanges(h: Heap, nodes: Nodes, h': Heap, nodes': Nodes, p: Pos, c: seq<int>, s: int)
    requires TriesOk(h, nodes) && TriesOk(h', nodes') && h'.head == h.head
    requires nodes' == nodes[p := c] && |c| > 0 && Size(h, c[0]) == s
    requires forall q | q in nodes && q != p :: Size(h, Head(nodes, q)) != s
    requires p in nodes ==> Size(h, Head(nodes, p)) == s
    ensures ChainsBut(h, nodes, h', nodes', s, c)
  {
    hide TriesOk;
    ChainIs(h', nodes', p);
    forall t: int | t != s ensures Chain(h', nodes', t) == Chain(h, nodes, t) {
      if q :| q in nodes && Size(h, Head(nodes, q)) == t {
        ChainIs(h, nodes, q);
        assert Head(nodes', q) == Head(nodes, q);
        ChainIs(h', nodes', q);
      } else {
        assert forall q | q in nodes' && q != p :: Head(nodes', q) == Head(nodes, q);
        NoChain(h, nodes, t);
        NoChain(h', nodes', t);
      }
    }
  }

  /** A position's chain disappears, and another's may move into its place. */
  lemma OneChainGoes(h: Heap, nodes: Nodes, h': Heap, nodes': Nodes, p: Pos, from: Pos)
    requires TriesOk(h, nodes) && TriesOk(h', nodes') && h'.head == h.head
    requires p in nodes && from in nodes
    requires nodes' == if from == p then nodes - {p} else (nodes - {from})[p := nodes[from]]
    ensures ChainsBut(h, nodes, h', nodes', Size(h, Head(nodes, p)), [])
  {
    hide TriesOk;
    var s := Size(h, Head(nodes, p));
    assert forall q | q in nodes' :: Head(nodes', q) == Head(nodes, if q == p then from else q);
    assert SizesDiffer(h, nodes) by { SizesOf(h, nodes); }
    NoChain(h', nodes', s);
    forall t: int | t != s ensures Chain(h', nodes', t) == Chain(h, nodes, t) {
      if q :| q in nodes && Size(h, Head(nodes, q)) == t {
        ChainIs(h, nodes, q);
        ChainIs(h', nodes', if q == from then p else q);
      } else {
        NoChain(h, nodes, t);
        NoChain(h', nodes', t);
      }
    }
  }

  lemma SizesOf(h: Heap, nodes: Nodes)
    requires TriesOk(h, nodes)
    ensures SizesDiffer(h, nodes)
  {
  }

  // ----- Inserting: the walk to a size's place -----

  /** The walk for size s stands at node p: every node of that size is at p or below. */
  ghost predicate WalkAt(h: Heap, nodes: Nodes, p: Pos, s: nat, k: int) {
    && p in nodes && Valid(p) && Bin(p) == TreeIndex(s) && Holds(p, s) && k == Key(p, s)
    && forall q | q in nodes && Size(h, Head(nodes, q)) == s :: Under(q, p)
  }

  lemma WalkStarts(h: Heap, nodes: Nodes, s: nat)
    requires TriesOk(h, nodes) && MIN_LARGE_SIZE <= s < MAX_SIZE && Root(TreeIndex(s)) in nodes
    ensures WalkAt(h, nodes, Root(TreeIndex(s)), s, s * Pow2(LeftShift(TreeIndex(s))) % WORD)
    ensures Head(nodes, Root(TreeIndex(s))) > 0
  {
    hide NodeOk;
    hide Pow2;
    hide TreeIndex;
    RootHolds(s);
    KeyStarts(s);
    NodeFacts(h, nodes, Root(TreeIndex(s)));
    forall q | q in nodes && Size(h, Head(nodes, q)) == s ensures Under(q, Root(TreeIndex(s))) {
      NodeFacts(h, nodes, q);
      UnderRoot(q);
    }
  }

  /** At a node of another size, the key's top bit says where s belongs below. */
  lemma WalkStep(h: Heap, nodes: Nodes, p: Pos, s: nat, k: int)
    requires TriesOk(h, nodes) && WalkAt(h, nodes, p, s, k) && Size(h, Head(nodes, p)) != s
    ensures var c := Child(p, TopBit(k));
            && Valid(c) && Holds(c, s) && Bin(c) == TreeIndex(s) && 0 <= Bits(c) < Bits(p)
            && At(h.child, (Head(nodes, p), TopBit(k))) == Head(nodes, c)
            && (c in nodes <==> Head(nodes, c) != 0)
            && (c in nodes ==> WalkAt(h, nodes, c, s, k * 2 % WORD) && Head(nodes, c) > 0)
            && (c !in nodes ==> forall q | q in nodes :: Size(h, Head(nodes, q)) != s)
  {
    hide NodeOk;
    hide TriesOk;
    hide TreeIndex;
    hide Key;
    var c := Child(p, TopBit(k));
    NodeFacts(h, nodes, p);
    LastBit(p, s, Size(h, Head(nodes, p)));
    KeySteers(p, s);
    BitsBounded(c);
    if c in nodes { NodeFacts(h, nodes, c); }
    forall q | q in nodes && Size(h, Head(nodes, q)) == s ensures Under(q, c) && c in nodes {
      NodeFacts(h, nodes, q);
      UnderSide(q, p, TopBit(k), s);
      UpIsIn(h, nodes, q, c);
    }
  }

  /** Where a size has no node: what linking x in there needs and gives. */
  lemma LinkEnds(h: Heap, h': Heap, nodes: Nodes, p: Pos, x: int, s: nat)
    requires TriesOk(h, nodes) && p !in nodes && Valid(p) && Holds(p, s) && Bin(p) == TreeIndex(s)
    requires MIN_LARGE_SIZE <= s < MAX_SIZE && Size(h, x) == s && x > 0 && !Binned(nodes, x)
    requires p.Child? ==> p.parent in nodes
    requires forall q | q in nodes :: Size(h, Head(nodes, q)) != s
    requires LinkedIn(h, h', nodes, p, x)
    ensures TriesOk(h', nodes[p := [x]]) && InsertedLarge(h, nodes, h', nodes[p := [x]], x, s)
  {
    hide TriesOk;
    hide LinkedIn;
    Linked(h, h', nodes, p, x);
    SameHeads(h, h', nodes, p, x);
    NoChain(h, nodes, s);
    OneChainChanges(h, nodes, h', nodes[p := [x]], p, [x], s);
    BinnedMore(nodes, nodes[p := [x]], p, [x], x);
  }

  lemma SameHeads(h: Heap, h': Heap, nodes: Nodes, p: Pos, x: int)
    requires LinkedIn(h, h', nodes, p, x)
    ensures h'.head == h.head && h'.prevFoot == h.prevFoot
    ensures forall y :: y != x ==> At(h'.fd, y) == At(h.fd, y) && At(h'.bk, y) == At(h.bk, y)
  {
  }

  lemma BinnedMore(nodes: Nodes, nodes': Nodes, p: Pos, c: seq<int>, x: int)
    requires nodes' == nodes[p := c] && (if p in nodes then c == nodes[p] + [x] else c == [x])
    ensures forall y :: Binned(nodes', y) <==> y == x || Binned(nodes, y)
  {
    forall y ensures Binned(nodes', y) <==> y == x || Binned(nodes, y) {
      assert x in nodes'[p];
      if Binned(nodes, y) {
        var q :| q in nodes && y in nodes[q];
        assert y in nodes'[q];
      }
      if Binned(nodes', y) {
        var q :| q in nodes' && y in nodes'[q];
        assert y != x ==> q in nodes && y in nodes[q];
      }
    }
  }

  /** Where a size has a node: what chaining x behind it needs and gives. */
  lemma ChainEnds(h: Heap, h': Heap, nodes: Nodes, p: Pos, x: int, s: nat)
    requires TriesOk(h, nodes) && p in nodes && Size(h, Head(nodes, p)) == s == Size(h, x) && x > 0 && !Binned(nodes, x)
    requires |nodes[p]| > 0 && ChainedIn(h, h', nodes[p], Bin(p), x)
    ensures TriesOk(h', nodes[p := nodes[p] + [x]]) && InsertedLarge(h, nodes, h', nodes[p := nodes[p] + [x]], x, s)
  {
    hide TriesOk;
    hide ChainedIn;
    Chained(h, h', nodes, p, x);
    ChainedHead(h, h', nodes[p], Bin(p), x);
    ChainIs(h, nodes, p);
    NodeFacts(h, nodes, p);
    SizesOf(h, nodes);
    OneChainChanges(h, nodes, h', nodes[p := nodes[p] + [x]], p, nodes[p] + [x], s);
    BinnedMore(nodes, nodes[p := nodes[p] + [x]], p, nodes[p] + [x], x);
  }

  /** The ring neighbours of a node's oldest chunk. */
  lemma OldestLinks(h: Heap, nodes: Nodes, p: Pos)
    requires TriesOk(h, nodes) && p in nodes
    ensures |nodes[p]| > 0 && Head(nodes, p) == nodes[p][0] && Head(nodes, p) in nodes[p]
    ensures At(h.fd, Head(nodes, p)) == nodes[p][|nodes[p]| - 1] && nodes[p][|nodes[p]| - 1] in nodes[p]
  {
    NodeFacts(h, nodes, p);
    assert At(h.fd, nodes[p][0]) == Older(nodes[p], 0);
  }

  /** Where a bin is unmarked there is no node of its sizes. */
  lemma NewRoot(h: Heap, nodes: Nodes, i: nat, s: nat)
    requires TriesOk(h, nodes) && Root(i) !in nodes && i == TreeIndex(s)
    ensures forall q | q in nodes :: Size(h, Head(nodes, q)) != s
  {
    forall q | q in nodes ensures Size(h, Head(nodes, q)) != s {
      NodeFacts(h, nodes, q);
      UnderRoot(q);
      if Size(h, Head(nodes, q)) == s { UpIsIn(h, nodes, q, Root(i)); }
    }
  }

  lemma BinnedHead(h: Heap, nodes: Nodes, p: Pos)
    requires TriesOk(h, nodes) && p in nodes
    ensures forall y | y in nodes[p] :: Binned(nodes, y)
    ensures Binned(nodes, Head(nodes, p)) && Head(nodes, p) > 0
  {
    NodeFacts(h, nodes, p);
  }

  /** Chunk x of size s was put in, as the youngest of its size, and no small chunk was touched. */
  ghost predicate InsertedLarge(h: Heap, nodes: Nodes, h': Heap, nodes': Nodes, x: int, s: int) {
    && ChainsBut(h, nodes, h', nodes', s, Chain(h, nodes, s) + [x])
    && h'.head == h.head && h'.prevFoot == h.prevFoot
    && (forall y :: Binned(nodes', y) <==> y == x || Binned(nodes, y))
    && (forall y :: y != x && !Binned(nodes, y) ==> At(h'.fd, y) == At(h.fd, y) && At(h'.bk, y) == At(h.bk, y))
  }

  lemma ParentSign(h: Heap, nodes: Nodes, p: Pos)
    requires TriesOk(h, nodes) && (p.Child? ==> p.parent in nodes)
    ensures ParentOf(nodes, p) > 0 <==> p.Child?
  {
    if p.Child? { NodeFacts(h, nodes, p.parent); }
  }

  /** Chunk x with its bin index and without children, as both ways of putting it in start. */
  function WithIndex(h: Heap, x: int, bin: nat): Heap {
    h.(index := h.index[x := bin], child := h.child[(x, false) := 0][(x, true) := 0])
  }

  function AloneAt(h: Heap, x: int, t: int, right: bool, inTree: bool): Heap {
    h.(child := (if inTree then h.child[(t, right) := x] else h.child),
       parent := h.parent[x := t], fd := h.fd[x := x], bk := h.bk[x := x])
  }

  function BehindAt(h: Heap, x: int, t: int, f: int): Heap {
    h.(fd := h.fd[t := x][x := f], bk := h.bk[f := x][x := t], parent := h.parent[x := 0])
  }

  lemma AloneIsLinkedIn(h: Heap, nodes: Nodes, p: Pos, x: int, t: int, right: bool)
    requires t == ParentOf(nodes, p) && t != x && (p.Child? ==> p.right == right)
    ensures LinkedIn(h, AloneAt(WithIndex(h, x, Bin(p)), x, t, right, p.Child?), nodes, p, x)
  {
    hide AloneAt;
    hide WithIndex;
    AloneFields(h, x, Bin(p), t, right, p.Child?);
    AloneChildren(h, x, Bin(p), t, right, p.Child?);
  }

  lemma AloneFields(h: Heap, x: int, bin: nat, t: int, right: bool, inTree: bool)
    ensures var h' := AloneAt(WithIndex(h, x, bin), x, t, right, inTree);
            && h'.head == h.head && h'.prevFoot == h.prevFoot
            && At(h'.fd, x) == At(h'.bk, x) == x && At(h'.index, x) == bin && At(h'.parent, x) == t
            && (forall y :: y != x ==> At(h'.fd, y) == At(h.fd, y))
            && (forall y :: y != x ==> At(h'.bk, y) == At(h.bk, y))
            && (forall y :: y != x ==> At(h'.parent, y) == At(h.parent, y))
            && (forall y :: y != x ==> At(h'.index, y) == At(h.index, y))
  {
  }

  lemma AloneChildren(h: Heap, x: int, bin: nat, t: int, right: bool, inTree: bool)
    requires t != x
    ensures var h' := AloneAt(WithIndex(h, x, bin), x, t, right, inTree);
            && At(h'.child, (x, false)) == At(h'.child, (x, true)) == 0 && (inTree ==> At(h'.child, (t, right)) == x)
            && (forall y, b ::
                 y != x && !(inTree && y == t && b == right) ==> At(h'.child, (y, b)) == At(h.child, (y, b)))
  {
    var g := WithIndex(h, x, bin);
    assert forall y, b :: y != x ==> At(g.child, (y, b)) == At(h.child, (y, b));
  }

  lemma BehindIsChainedIn(h: Heap, c: seq<int>, bin: nat, x: int)
    requires |c| > 0 && x !in c
    ensures ChainedIn(h, BehindAt(WithIndex(h, x, bin), x, c[0], c[|c| - 1]), c, bin, x)
  {
    hide BehindAt;
    hide WithIndex;
    hide Spliced;
    BehindSplices(h, c, bin, x);
    BehindTreeFields(h, bin, x, c[0], c[|c| - 1]);
  }

  lemma BehindSplices(h: Heap, c: seq<int>, bin: nat, x: int)
    requires |c| > 0 && x !in c
    ensures Spliced(h, BehindAt(WithIndex(h, x, bin), x, c[0], c[|c| - 1]), c, x)
  {
    assert c[0] in c && c[|c| - 1] in c;
  }

  lemma BehindTreeFields(h: Heap, bin: nat, x: int, t: int, f: int)
    ensures var h' := BehindAt(WithIndex(h, x, bin), x, t, f);
            && h'.head == h.head && h'.prevFoot == h.prevFoot
            && At(h'.parent, x) == 0 && At(h'.index, x) == bin
            && At(h'.child, (x, false)) == At(h'.child, (x, true)) == 0
            && (forall y :: y != x ==> At(h'.parent, y) == At(h.parent, y))
            && (forall y :: y != x ==> At(h'.index, y) == At(h.index, y))
            && (forall y, b :: y != x ==> At(h'.child, (y, b)) == At(h.child, (y, b)))
  {
  }

  // ----- Unlinking: the writes -----

  /** The ring neighbours f and r linked to each other. */
  function RingUnlinkAt(h: Heap, f: int, r: int): Heap {
    h.(bk := h.bk[f := r], fd := h.fd[r := f])
  }

  /** A chunk's ring neighbours point back at it. */
  lemma Neighbours(h: Heap, nodes: Nodes, p: Pos, j: nat)
    requires TriesOk(h, nodes) && p in nodes && j < |nodes[p]|
    ensures var c := nodes[p]; var f, r := Older(c, j), Younger(c, j);
            && At(h.fd, c[j]) == f && At(h.bk, c[j]) == r && f in c && r in c
            && At(h.bk, f) == c[j] && At(h.fd, r) == c[j] && (r == c[j] <==> |c| == 1)
  {
    hide TriesOk;
    NodeFacts(h, nodes, p);
    RingNeighbours(h, nodes[p], Bin(p), j);
  }

  lemma RingNeighbours(h: Heap, c: seq<int>, bin: nat, j: nat)
    requires Ring(h, c, bin) && j < |c|
    ensures var f, r := Older(c, j), Younger(c, j);
            && At(h.fd, c[j]) == f && At(h.bk, c[j]) == r && f in c && r in c
            && At(h.bk, f) == c[j] && At(h.fd, r) == c[j] && (r == c[j] <==> |c| == 1)
  {
    var k := if j > 0 then j - 1 else |c| - 1;
    var m := if j + 1 < |c| then j + 1 else 0;
    assert c[k] == Older(c, j) && c[m] == Younger(c, j);
    assert At(h.bk, c[k]) == Younger(c, k);
    assert At(h.fd, c[m]) == Older(c, m);
  }

  lemma RingUnlinkWrites(h: Heap, c: seq<int>, j: nat)
    requires j < |c|
    ensures RingUnlinked(h, RingUnlinkAt(h, Older(c, j), Younger(c, j)), c, j)
  {
  }

  /** What a head's links say: its place, and its children. */
  lemma HeadLinks(h: Heap, nodes: Nodes, p: Pos, j: nat)
    requires TriesOk(h, nodes) && p in nodes && j < |nodes[p]|
    ensures var x := nodes[p][j];
            && At(h.index, x) == Bin(p) && At(h.parent, x) == (if j == 0 then ParentOf(nodes, p) else 0)
            && x > 0 && Binned(nodes, x) && Size(h, x) == Size(h, Head(nodes, p)) && ParentOf(nodes, p) != 0
            && (x == Head(nodes, p) <==> j == 0)
    ensures forall b :: At(h.child, (Head(nodes, p), b)) == Head(nodes, Child(p, b))
    ensures forall b :: Child(p, b) in nodes <==> Head(nodes, Child(p, b)) != 0
  {
    NodeFacts(h, nodes, p);
    if p.Child? { NodeFacts(h, nodes, p.parent); }
    forall b ensures Child(p, b) in nodes <==> Head(nodes, Child(p, b)) != 0 {
      if Child(p, b) in nodes { NodeFacts(h, nodes, Child(p, b)); }
    }
  }

  /** Chunk c, if any, made r's child on side b. */
  function AdoptAt(h: Heap, r: int, b: bool, c: int): Heap {
    if c != 0 then h.(child := h.child[(r, b) := c], parent := h.parent[c := r]) else h
  }

  /** Chunk r put where xp's pointer to x was, with xp in its parent field. */
  function SlotAt(h: Heap, xp: int, r: int, right: bool, inTree: bool): Heap {
    if inTree then h.(child := h.child[(xp, right) := r], parent := h.parent[r := xp])
    else h.(parent := h.parent[r := xp])
  }

  /** Chunk r put in place of head x, whose parent field is xp. */
  function RelinkAt(h: Heap, x: int, xp: int, r: int, right: bool, inTree: bool): Heap {
    AdoptBoth(SlotAt(h, xp, r, right, inTree), x, r)
  }

  /** The children of x made r's. */
  function AdoptBoth(a: Heap, x: int, r: int): Heap {
    var b := AdoptAt(a, r, false, At(a.child, (x, false)));
    AdoptAt(b, r, true, At(b.child, (x, true)))
  }

  /** Only tree links differ: parent fields of ys, child fields in slots. */
  ghost predicate TreeWrites(h: Heap, h': Heap, ys: set<int>, slots: set<(int, bool)>) {
    && h'.head == h.head && h'.prevFoot == h.prevFoot && h'.fd == h.fd && h'.bk == h.bk && h'.index == h.index
    && (forall y :: y !in ys ==> At(h'.parent, y) == At(h.parent, y))
    && (forall y, b :: (y, b) !in slots ==> At(h'.child, (y, b)) == At(h.child, (y, b)))
  }

  lemma Adopts(h: Heap, r: int, b: bool, c: int)
    ensures TreeWrites(h, AdoptAt(h, r, b, c), {c}, {(r, b)})
    ensures c != 0 ==> At(AdoptAt(h, r, b, c).parent, c) == r
    ensures c != 0 ==> At(AdoptAt(h, r, b, c).child, (r, b)) == c
    ensures c == 0 ==> AdoptAt(h, r, b, c) == h
  {
  }

  lemma Slotted(h: Heap, xp: int, r: int, right: bool, inTree: bool)
    ensures TreeWrites(h, SlotAt(h, xp, r, right, inTree), {r}, if inTree then {(xp, right)} else {})
    ensures At(SlotAt(h, xp, r, right, inTree).parent, r) == xp
    ensures inTree ==> At(SlotAt(h, xp, r, right, inTree).child, (xp, right)) == r
  {
  }

  lemma RelinkWrites(h: Heap, nodes: Nodes, p: Pos, c: seq<int>, x: int, xp: int, r: int, right: bool)
    requires Replaceable(h, nodes, p, c) && |c| > 0 && r == c[0] && x == Head(nodes, p) && xp == ParentOf(nodes, p)
    requires p.Child? ==> p.right == right
    ensures Relinked(h, RelinkAt(h, x, xp, r, right, p.Child?), nodes, p, r)
  {
    hide Replaceable;
    hide AdoptAt;
    hide SlotAt;
    hide Head;
    hide Relinked;
    hide TreeWrites;
    AroundHead(h, nodes, p, c);
    var a := SlotAt(h, xp, r, right, p.Child?);
    var left, rightHead := Head(nodes, Child(p, false)), Head(nodes, Child(p, true));
    Slotted(h, xp, r, right, p.Child?);
    ChildSame(h, a, {r}, SlotOf(nodes, p), x, false);
    ChildSame(h, a, {r}, SlotOf(nodes, p), x, true);
    var b := AdoptAt(a, r, false, left);
    Adopts(a, r, false, left);
    ChildSame(a, b, {left}, {(r, false)}, x, true);
    Adopts(b, r, true, rightHead);
    RelinkedFrom(h, a, b, AdoptAt(b, r, true, rightHead), nodes, p, r);
  }

  lemma ChildSame(h: Heap, h': Heap, ys: set<int>, slots: set<(int, bool)>, y: int, b: bool)
    requires TreeWrites(h, h', ys, slots) && (y, b) !in slots
    ensures At(h'.child, (y, b)) == At(h.child, (y, b))
  {
  }

  /** Chunk c has become r's child on side b. */
  ghost predicate Adopted(h: Heap, h': Heap, r: int, b: bool, c: int) {
    TreeWrites(h, h', {c}, {(r, b)}) && At(h'.parent, c) == r && At(h'.child, (r, b)) == c
  }

  lemma RelinkedFrom(h: Heap, a: Heap, b: Heap, h': Heap, nodes: Nodes, p: Pos, r: int)
    requires var left, right := Head(nodes, Child(p, false)), Head(nodes, Child(p, true));
             && TreeWrites(h, a, {r}, SlotOf(nodes, p)) && At(a.parent, r) == ParentOf(nodes, p)
             && (p.Child? ==> At(a.child, (Head(nodes, p.parent), p.right)) == r)
             && (if left == 0 then b == a else Adopted(a, b, r, false, left))
             && (if right == 0 then h' == b else Adopted(b, h', r, true, right))
             && r != left && r != right && (left != 0 ==> left != right)
    requires At(h.child, (r, false)) == At(h.child, (r, true)) == 0 && (p.Child? ==> r != Head(nodes, p.parent))
    ensures Relinked(h, h', nodes, p, r)
  {
    hide Head;
  }

  /** The heads around p, the head at p and the loose ring's head are all different. */
  lemma AroundHead(h: Heap, nodes: Nodes, p: Pos, c: seq<int>)
    requires Replaceable(h, nodes, p, c)
    ensures |c| > 0 && c[0] != Head(nodes, p) && c[0] != 0
    ensures At(h.child, (Head(nodes, p), false)) == Head(nodes, Child(p, false))
    ensures At(h.child, (Head(nodes, p), true)) == Head(nodes, Child(p, true))
    ensures c[0] != Head(nodes, Child(p, false)) && c[0] != Head(nodes, Child(p, true))
    ensures Head(nodes, Child(p, false)) != 0 ==> Head(nodes, Child(p, false)) != Head(nodes, Child(p, true))
    ensures At(h.child, (c[0], false)) == At(h.child, (c[0], true)) == 0
    ensures p.Child? ==> c[0] != Head(nodes, p.parent) && Head(nodes, p.parent) != Head(nodes, p)
  {
    hide Valid;
    hide Fits;
    LooseTreeLinks(h, nodes, p, c);
    assert c[0] in c;
    ParentDiffers(p);
    ParentDiffers(Child(p, false));
    ParentDiffers(Child(p, true));
    var a, b := Child(p, false), Child(p, true);
    if a in nodes && b in nodes {
      HeadsApart(h, nodes, p, c, a, b);
      HasMembers(h, nodes, a);
    }
    if p.Child? { HasMembers(h, nodes, p.parent); }
  }

  // ----- Unlinking: what goes -----

  lemma {:induction false} WithoutDrops(c: seq<int>, x: int, j: nat)
    requires j < |c| && c[j] == x && forall i | 0 <= i < j :: c[i] != x
    ensures Without(c, x) == Drop(c, j)
  {
    if j > 0 {
      WithoutDrops(c[1..], x, j - 1);
      assert Drop(c, j) == [c[0]] + Drop(c[1..], j - 1);
    }
  }

  /** Chunk x was taken out from among the chunks of its size, and no small chunk was touched. */
  ghost predicate RemovedLarge(h: Heap, nodes: Nodes, h': Heap, nodes': Nodes, x: int) {
    && ChainsBut(h, nodes, h', nodes', Size(h, x), Without(Chain(h, nodes, Size(h, x)), x))
    && h'.head == h.head && h'.prevFoot == h.prevFoot
    && (forall y :: Binned(nodes', y) <==> y != x && Binned(nodes, y))
    && (forall y :: !Binned(nodes, y) ==> At(h'.fd, y) == At(h.fd, y) && At(h'.bk, y) == At(h.bk, y))
  }

  /** The chunk's place among the chunks of its size. */
  lemma PlaceOf(h: Heap, nodes: Nodes, p: Pos, j: nat)
    requires TriesOk(h, nodes) && p in nodes && j < |nodes[p]|
    ensures var x := nodes[p][j];
            && Chain(h, nodes, Size(h, x)) == nodes[p] && Without(nodes[p], x) == Drop(nodes[p], j)
            && Size(h, x) == Size(h, Head(nodes, p)) && Binned(nodes, x)
            && forall y :: y in Drop(nodes[p], j) <==> y in nodes[p] && y != x
  {
    hide TriesOk;
    NodeFacts(h, nodes, p);
    ChainIs(h, nodes, p);
    WithoutDrops(nodes[p], nodes[p][j], j);
    DropMembers(nodes[p], j);
    assert nodes[p][j] in nodes[p];
  }

  lemma BinnedFewer(nodes: Nodes, nodes': Nodes, p: Pos, x: int, c: seq<int>)
    requires p in nodes && nodes' == nodes[p := c] && Apart(nodes) && x in nodes[p]
    requires forall y :: y in c <==> y in nodes[p] && y != x
    ensures forall y :: Binned(nodes', y) <==> y != x && Binned(nodes, y)
  {
    forall y ensures Binned(nodes', y) <==> y != x && Binned(nodes, y) {
      if Binned(nodes, y) && y != x {
        var q :| q in nodes && y in nodes[q];
        assert y in nodes'[q];
      }
      if Binned(nodes', y) {
        var q :| q in nodes' && y in nodes'[q];
        assert q in nodes && y in nodes[q];
      }
    }
  }

  /** A chunk that shared its size with others was taken out. */
  lemma RingRemoved(h: Heap, h': Heap, nodes: Nodes, p: Pos, j: nat)
    requires TriesOk(h, nodes) && p in nodes && j < |nodes[p]| && |nodes[p]| > 1
    requires TriesOk(h', nodes[p := Drop(nodes[p], j)]) && h'.head == h.head && h'.prevFoot == h.prevFoot
    requires forall y :: y !in nodes[p] ==> At(h'.fd, y) == At(h.fd, y) && At(h'.bk, y) == At(h.bk, y)
    ensures RemovedLarge(h, nodes, h', nodes[p := Drop(nodes[p], j)], nodes[p][j])
  {
    hide NodeOk;
    PlaceOf(h, nodes, p, j);
    SizesOf(h, nodes);
    var c := Drop(nodes[p], j);
    DropSize(h, nodes, p, j);
    OneChainChanges(h, nodes, h', nodes[p := c], p, c, Size(h, Head(nodes, p)));
    BinnedFewer(nodes, nodes[p := c], p, nodes[p][j], c);
  }

  lemma DropSize(h: Heap, nodes: Nodes, p: Pos, j: nat)
    requires TriesOk(h, nodes) && p in nodes && j < |nodes[p]| && |nodes[p]| > 1
    ensures |Drop(nodes[p], j)| > 0 && Size(h, Drop(nodes[p], j)[0]) == Size(h, Head(nodes, p))
  {
    hide TriesOk;
    NodeFacts(h, nodes, p);
    var k := if j == 0 then 1 else 0;
    assert Drop(nodes[p], j)[0] == nodes[p][k];
  }

  /** The chunks near an unlinked one stay in the ring's chunks. */
  lemma UnlinkedNear(h: Heap, h': Heap, nodes: Nodes, p: Pos, j: nat)
    requires TriesOk(h, nodes) && p in nodes && j < |nodes[p]| && RingUnlinked(h, h', nodes[p], j)
    ensures h'.head == h.head && h'.prevFoot == h.prevFoot && h'.index == h.index
    ensures forall y :: y !in nodes[p] ==> At(h'.fd, y) == At(h.fd, y) && At(h'.bk, y) == At(h.bk, y)
  {
    hide TriesOk;
    Neighbours(h, nodes, p, j);
  }

  /** The oldest of several chunks is out of its ring: the rest can take its place. */
  lemma OldestUnlinked(h: Heap, h': Heap, nodes: Nodes, p: Pos)
    requires TriesOk(h, nodes) && p in nodes && |nodes[p]| > 1 && RingUnlinked(h, h', nodes[p], 0)
    ensures Replaceable(h', nodes, p, Drop(nodes[p], 0))
  {
    hide NodeOk;
    hide Valid;
    hide Holds;
    hide Ring;
    hide TreeLinks;
    NodeFacts(h, nodes, p);
    forall q | q in nodes && q != p ensures NodeOk(h', nodes, q) { RingUnlinkKeeps(h, h', nodes, p, 0, q); }
    SameTreeLinks(h, h', nodes, p);
    RestIsLoose(h, h', nodes, p);
  }

  lemma SameTreeLinks(h: Heap, h': Heap, nodes: Nodes, p: Pos)
    requires TreeLinks(h, nodes, p) && h'.parent == h.parent && h'.child == h.child
    ensures TreeLinks(h', nodes, p)
  {
  }

  lemma RestIsLoose(h: Heap, h': Heap, nodes: Nodes, p: Pos)
    requires TriesOk(h, nodes) && p in nodes && |nodes[p]| > 1 && RingUnlinked(h, h', nodes[p], 0)
    ensures var c := Drop(nodes[p], 0);
            && Loose(h', nodes - {p}, c, Bin(p)) && Size(h', c[0]) == Size(h, Head(nodes, p)) && c[0] != Head(nodes, p)
  {
    hide NodeOk;
    hide Valid;
    hide Holds;
    var c := Drop(nodes[p], 0);
    NodeFacts(h, nodes, p);
    RingShrinks(h, h', nodes[p], Bin(p), 0);
    DropMembers(nodes[p], 0);
    assert c[0] == nodes[p][1];
    assert forall q :: q in nodes - {p} ==> Head(nodes - {p}, q) == Head(nodes, q);
  }

  /** A leaf below p is off its trie: it can take the place of the head at p. */
  lemma LeafStandsIn(h: Heap, h': Heap, nodes: Nodes, p: Pos, leaf: Pos)
    requires TriesOk(h, nodes) && p in nodes && Leaf(nodes, leaf) && Detached(h, h', nodes, leaf) && Under(leaf, p)
             && leaf != p
    ensures Replaceable(h', nodes - {leaf}, p, nodes[leaf])
    ensures |nodes[leaf]| > 0 && nodes[leaf][0] == Head(nodes, leaf)
  {
    hide NodeOk;
    hide Valid;
    hide Ring;
    hide TreeLinks;
    hide Under;
    hide Lo;
    hide Width;
    LeafDetached(h, h', nodes, leaf);
    LeafIsLoose(h, h', nodes, leaf);
    NodeFacts(h, nodes, leaf);
    NodeFacts(h', nodes - {leaf}, p);
    Nested(leaf, p);
    HeadIn(h, nodes, p);
    OnePlace(h, nodes, p, leaf, Head(nodes, p));
    LessLoose(h', nodes - {leaf}, p, nodes[leaf]);
  }

  lemma HeadIn(h: Heap, nodes: Nodes, p: Pos)
    requires TriesOk(h, nodes) && p in nodes
    ensures Head(nodes, p) in nodes[p]
  {
    NodeFacts(h, nodes, p);
  }

  lemma LessLoose(h: Heap, nodes: Nodes, p: Pos, c: seq<int>)
    requires Loose(h, nodes, c, Bin(p))
    ensures Loose(h, nodes - {p}, c, Bin(p))
  {
    hide Ring;
    assert forall q :: q in nodes - {p} ==> Head(nodes - {p}, q) == Head(nodes, q);
  }

  /** The only chunk of its size was taken out, and its place given up or given to a leaf's chunks. */
  lemma LoneRemoved(h: Heap, h': Heap, nodes: Nodes, nodes': Nodes, p: Pos, from: Pos)
    requires TriesOk(h, nodes) && p in nodes && from in nodes && |nodes[p]| == 1
    requires nodes' == if from == p then nodes - {p} else (nodes - {from})[p := nodes[from]]
    requires TriesOk(h', nodes') && h'.head == h.head && h'.prevFoot == h.prevFoot && h'.fd == h.fd && h'.bk == h.bk
    ensures RemovedLarge(h, nodes, h', nodes', nodes[p][0])
  {
    hide TriesOk;
    PlaceOf(h, nodes, p, 0);
    OneChainGoes(h, nodes, h', nodes', p, from);
    assert Drop(nodes[p], 0) == [];
    ApartOf(h, nodes);
    var x := nodes[p][0];
    forall y ensures Binned(nodes', y) <==> y != x && Binned(nodes, y) {
      if Binned(nodes, y) && y != x {
        var q :| q in nodes && y in nodes[q];
        assert q != p;
        assert y in nodes'[if q == from then p else q];
      }
      if Binned(nodes', y) {
        var q :| q in nodes' && y in nodes'[q];
        var o := if q == p then from else q;
        assert o != p && y in nodes[o];
        assert x in nodes[p];
      }
    }
  }

  lemma ApartOf(h: Heap, nodes: Nodes)
    requires TriesOk(h, nodes)
    ensures Apart(nodes)
  {
  }

  // ----- Finding the pointer to a head -----

  /** Among its bin's root and its parent's children, only p's own slot points to the head at p. */
  lemma OneSlot(h: Heap, nodes: Nodes, p: Pos, x: int)
    requires p in nodes && x == Head(nodes, p) && x in nodes[p] && x != 0 && Apart(nodes)
    requires forall q | q in nodes && q != p :: NodeOk(h, nodes, q)
    ensures Head(nodes, Root(Bin(p))) == x <==> p.Root?
    ensures p.Child? && p.parent in nodes ==>
              (At(h.child, (Head(nodes, p.parent), false)) == x <==> !p.right)
  {
    hide Ring;
    hide Valid;
    hide Fits;
    var r := Root(Bin(p));
    if p.Child? && r in nodes { HasMembers(h, nodes, r); }
    if p.Child? && p.parent in nodes {
      ParentDiffers(p);
      var q := Child(p.parent, !p.right);
      assert NodeOk(h, nodes, p.parent);
      if q in nodes { HasMembers(h, nodes, q); }
    }
  }

  /** The parent field of the head at p, and its children. */
  lemma ReplaceableLinks(h: Heap, nodes: Nodes, p: Pos, c: seq<int>)
    requires Replaceable(h, nodes, p, c)
    ensures p in nodes && Head(nodes, p) != 0 && Head(nodes, p) in nodes[p] && Apart(nodes)
    ensures forall q | q in nodes && q != p :: NodeOk(h, nodes, q)
    ensures p.Child? ==> p.parent in nodes && Head(nodes, p.parent) > 0
  {
    hide NodeOk;
    hide Ring;
    if p.Child? {
      ParentDiffers(p);
      HasMembers(h, nodes, p.parent);
    }
  }

  lemma UnderSelf(p: Pos)
    ensures Under(p, p)
  {
  }

  /** Going down from a position below p stays strictly below p. */
  lemma UnderNext(q: Pos, p: Pos, right: bool)
    requires Under(q, p)
    ensures Under(Child(q, right), p) && Child(q, right) != p
  {
    UnderDepth(q, p);
  }

  lemma {:induction false} UnderDepth(q: Pos, p: Pos)
    requires Under(q, p)
    ensures Depth(q) >= Depth(p)
  {
    if q != p { UnderDepth(q.parent, p); }
  }

  lemma BitsLeft(h: Heap, nodes: Nodes, p: Pos)
    requires TriesOk(h, nodes) && p in nodes
    ensures 0 <= Bits(p)
  {
    NodeFacts(h, nodes, p);
    BitsBounded(p);
  }

  lemma DetachWrites(h: Heap, nodes: Nodes, p: Pos, owner: int)
    requires p.Child? && owner == Head(nodes, p.parent)
    ensures Detached(h, h.(child := h.child[(owner, p.right) := 0]), nodes, p)
  {
  }

  /** How the code finds the pointer to the head at p, about to be replaced by r. */
  lemma SlotFound(h: Heap, nodes: Nodes, p: Pos, c: seq<int>, r: int)
    requires if r == 0 then TriesOk(h, nodes) && p in nodes else Replaceable(h, nodes, p, c)
    ensures p in nodes && (Head(nodes, Root(Bin(p))) == Head(nodes, p) <==> p.Root?)
    ensures p.Child? ==> p.parent in nodes && (At(h.child, (ParentOf(nodes, p), false)) == Head(nodes, p) <==> !p.right)
  {
    hide TriesOk;
    hide Replaceable;
    if r == 0 {
      NodeFacts(h, nodes, p);
      AllOk(h, nodes);
    } else {
      ReplaceableLinks(h, nodes, p, c);
    }
    OneSlot(h, nodes, p, Head(nodes, p));
  }

  lemma AllOk(h: Heap, nodes: Nodes)
    requires TriesOk(h, nodes)
    ensures Apart(nodes) && forall q | q in nodes :: NodeOk(h, nodes, q)
  {
  }

  lemma DropWrites(h: Heap, h': Heap, nodes: Nodes, p: Pos, xp: int)
    requires TriesOk(h, nodes) && Leaf(nodes, p) && xp == ParentOf(nodes, p)
    requires h' == if p.Child? then h.(child := h.child[(xp, p.right) := 0]) else h
    ensures TriesOk(h', nodes - {p}) && p in nodes
  {
    hide TriesOk;
    if p.Child? { DetachWrites(h, nodes, p, xp); }
    LeafDetached(h, h', nodes, p);
  }

  lemma Relinks(h: Heap, h': Heap, nodes: Nodes, p: Pos, c: seq<int>, x: int, xp: int, r: int)
    requires Replaceable(h, nodes, p, c) && |c| > 0 && r == c[0] && x == Head(nodes, p) && xp == ParentOf(nodes, p)
    requires var a := if p.Child? then h.(child := h.child[(xp, p.right) := r]) else h;
             h' == AdoptBoth(a.(parent := a.parent[r := xp]), x, r)
    ensures TriesOk(h', nodes[p := c]) && r > 0
    ensures h'.head == h.head && h'.prevFoot == h.prevFoot && h'.fd == h.fd && h'.bk == h.bk
  {
    hide AdoptBoth;
    hide TriesOk;
    hide Replaceable;
    var right := p.Child? && p.right;
    assert h' == RelinkAt(h, x, xp, r, right, p.Child?);
    RelinkWrites(h, nodes, p, c, x, xp, r, right);
    RelinkedFrame(h, h', nodes, p, r);
    Replaced(h, h', nodes, p, c);
    NodeFacts(h', nodes[p := c], p);
  }

  lemma RelinkedFrame(h: Heap, h': Heap, nodes: Nodes, p: Pos, r: int)
    requires Relinked(h, h', nodes, p, r)
    ensures h'.head == h.head && h'.prevFoot == h.prevFoot && h'.fd == h.fd && h'.bk == h.bk
  {
  }

  /** The bin array and the bitmap follow a replaced or dropped head. */
  lemma BinsKeep(bins: seq<int>, marks: set<nat>, nodes: Nodes, bins': seq<int>, marks': set<nat>, nodes': Nodes,
                 p: Pos, r: int)
    requires BinsOk(bins, marks, nodes) && p in nodes && Bin(p) < NTREEBINS
    requires if r == 0 then nodes' == nodes - {p}
             else p in nodes' && nodes' == nodes[p := nodes'[p]] && |nodes'[p]| > 0 && nodes'[p][0] == r
    requires bins' == if p.Root? then bins[Bin(p) := r] else bins
    requires marks' == if p.Root? && r == 0 then marks - {Bin(p)} else marks
    ensures BinsOk(bins', marks', nodes')
  {
  }

  /** Where a binned chunk is, and what its own links say of it. */
  lemma FindChunk(h: Heap, nodes: Nodes, x: int) returns (p: Pos, j: nat)
    requires TriesOk(h, nodes) && Binned(nodes, x)
    ensures p in nodes && j < |nodes[p]| && nodes[p][j] == x && Bin(p) < NTREEBINS
    ensures At(h.index, x) == Bin(p) && At(h.parent, x) == (if j == 0 then ParentOf(nodes, p) else 0)
            && ParentOf(nodes, p) != 0
    ensures (At(h.bk, x) == x <==> |nodes[p]| == 1) && (x == Head(nodes, p) <==> j == 0)
    ensures At(h.fd, x) == Older(nodes[p], j) && At(h.bk, x) == Younger(nodes[p], j)
    ensures j == 0 && |nodes[p]| > 1 ==> Younger(nodes[p], j) == Drop(nodes[p], 0)[0] && Younger(nodes[p], j) != 0
    ensures |Drop(nodes[p], j)| == |nodes[p]| - 1
  {
    hide TriesOk;
    p :| p in nodes && x in nodes[p];
    j :| 0 <= j < |nodes[p]| && nodes[p][j] == x;
    HeadLinks(h, nodes, p, j);
    Neighbours(h, nodes, p, j);
    NodeFacts(h, nodes, p);
    BinBound(p);
  }

  lemma {:induction false} BinBound(p: Pos)
    requires Valid(p)
    ensures Bin(p) < NTREEBINS
  {
    if p.Child? { BinBound(p.parent); }
  }

  lemma ChainBins(bins: seq<int>, marks: set<nat>, nodes: Nodes, nodes': Nodes, p: Pos)
    requires BinsOk(bins, marks, nodes) && p in nodes && |nodes[p]| > 0
    requires p in nodes' && nodes' == nodes[p := nodes'[p]] && |nodes'[p]| > 0 && nodes'[p][0] == nodes[p][0]
    ensures BinsOk(bins, marks, nodes')
  {
  }

  lemma LeafBins(bins: seq<int>, marks: set<nat>, nodes: Nodes, leaf: Pos, p: Pos)
    requires BinsOk(bins, marks, nodes) && leaf in nodes && Under(leaf, p) && leaf != p
    ensures BinsOk(bins, marks, nodes - {leaf}) && ParentOf(nodes - {leaf}, p) == ParentOf(nodes, p)
    ensures Head(nodes - {leaf}, p) == Head(nodes, p)
  {
    if p.Child? { UnderDepth(leaf, p); }
  }

  // ----- Which tree fields are written -----

  ghost predicate SameTree(h: Heap, h': Heap, y: int) {
    && At(h'.parent, y) == At(h.parent, y) && At(h'.index, y) == At(h.index, y)
    && At(h'.child, (y, false)) == At(h.child, (y, false)) && At(h'.child, (y, true)) == At(h.child, (y, true))
  }

  /** Only binned chunks, and x, have had tree fields written. */
  ghost predicate TreeFrame(h: Heap, h': Heap, nodes: Nodes, x: int) {
    forall y {:trigger SameTree(h, h', y)} | y > 0 && y != x && !Binned(nodes, y) :: SameTree(h, h', y)
  }

  lemma TreeFrameThen(h0: Heap, h1: Heap, h2: Heap, nodes: Nodes, x: int)
    requires TreeFrame(h0, h1, nodes, x) && TreeFrame(h1, h2, nodes, x)
    ensures TreeFrame(h0, h2, nodes, x)
  {
    hide Binned;
    forall y | y > 0 && y != x && !Binned(nodes, y) ensures SameTree(h0, h2, y) {
      assert SameTree(h0, h1, y) && SameTree(h1, h2, y);
    }
  }

  lemma TreeFrameWithin(h: Heap, h': Heap, nodes: Nodes, r: int, was: Nodes, x: int)
    requires TreeFrame(h, h', nodes, r) && (forall y :: Binned(nodes, y) ==> Binned(was, y))
    requires r <= 0 || r == x || Binned(was, r)
    ensures TreeFrame(h, h', was, x)
  {
    hide Binned;
    hide SameTree;
  }

  lemma NothingWritten(h: Heap, nodes: Nodes, x: int)
    ensures TreeFrame(h, h, nodes, x)
  {
  }

  lemma HeadIsBinned(nodes: Nodes, q: Pos)
    ensures Head(nodes, q) == 0 || Binned(nodes, Head(nodes, q))
  {
    if q in nodes && |nodes[q]| > 0 { assert nodes[q][0] in nodes[q]; }
  }

  lemma SlotFrame(h: Heap, h': Heap, nodes: Nodes, p: Pos, x: int)
    requires SameBut(h, h', {x}, SlotOf(nodes, p))
    ensures TreeFrame(h, h', nodes, x)
  {
    hide Binned;
    if p.Child? { HeadIsBinned(nodes, p.parent); }
    hide Head;
  }

  lemma LinkedFrame(h: Heap, h': Heap, nodes: Nodes, p: Pos, x: int)
    requires LinkedIn(h, h', nodes, p, x)
    ensures TreeFrame(h, h', nodes, x)
  {
    SlotFrame(h, h', nodes, p, x);
  }

  lemma ChainedFrame(h: Heap, h': Heap, nodes: Nodes, c: seq<int>, bin: nat, x: int)
    requires |c| > 0 && ChainedIn(h, h', c, bin, x)
    ensures TreeFrame(h, h', nodes, x)
  {
    hide Binned;
  }

  lemma DetachedFrame(h: Heap, h': Heap, nodes: Nodes, p: Pos, x: int)
    requires Detached(h, h', nodes, p)
    ensures TreeFrame(h, h', nodes, x)
  {
    assert SameBut(h, h', {x}, SlotOf(nodes, p));
    SlotFrame(h, h', nodes, p, x);
  }

  lemma DropFrame(h: Heap, h': Heap, nodes: Nodes, p: Pos, xp: int, x: int)
    requires xp == ParentOf(nodes, p) && h' == if p.Child? then h.(child := h.child[(xp, p.right) := 0]) else h
    ensures TreeFrame(h, h', nodes, x)
  {
    if p.Child? {
      DetachWrites(h, nodes, p, xp);
      DetachedFrame(h, h', nodes, p, x);
    }
  }

  lemma RelinkFrame(h: Heap, h': Heap, nodes: Nodes, p: Pos, r: int)
    requires Relinked(h, h', nodes, p, r)
    ensures TreeFrame(h, h', nodes, r)
  {
    hide Binned;
    HeadIsBinned(nodes, Child(p, false));
    HeadIsBinned(nodes, Child(p, true));
    if p.Child? { HeadIsBinned(nodes, p.parent); }
    hide Head;
  }

  lemma RelinksFrame(h: Heap, h': Heap, nodes: Nodes, p: Pos, c: seq<int>, x: int, xp: int, r: int)
    requires Replaceable(h, nodes, p, c) && |c| > 0 && r == c[0] && x == Head(nodes, p) && xp == ParentOf(nodes, p)
    requires var a := if p.Child? then h.(child := h.child[(xp, p.right) := r]) else h;
             h' == AdoptBoth(a.(parent := a.parent[r := xp]), x, r)
    ensures TreeFrame(h, h', nodes, r)
  {
    hide AdoptBoth;
    hide Replaceable;
    var right := p.Child? && p.right;
    assert h' == RelinkAt(h, x, xp, r, right, p.Child?);
    RelinkWrites(h, nodes, p, c, x, xp, r, right);
    RelinkFrame(h, h', nodes, p, r);
  }

  lemma UnlinkedFrame(h: Heap, h': Heap, nodes: Nodes, c: seq<int>, j: nat, x: int)
    requires j < |c| && RingUnlinked(h, h', c, j)
    ensures TreeFrame(h, h', nodes, x)
  {
  }

  lemma SomeBinned(nodes: Nodes, was: Nodes)
    requires forall q | q in nodes :: q in was && nodes[q] == was[q]
    ensures forall y :: Binned(nodes, y) ==> Binned(was, y)
  {
  }

  lemma MemberBinned(nodes: Nodes, p: Pos, c: seq<int>, j: nat)
    requires p in nodes && j < |nodes[p]| && |nodes[p]| > 1 && c == Drop(nodes[p], j)
    ensures |c| > 0 && Binned(nodes, c[0])
  {
    assert c[0] == nodes[p][if j == 0 then 1 else 0];
  }
}
