/** Why one walk down the tree bins finds a best fit: what is still to be seen lies below the node
    the walk stands at, or is larger than everything there. */
module BestFit {
  import opened Arithmetic
  import opened BinIndex
  import opened Sequences
  import opened TreeBins

  /** Subtraction in a machine word. */
  function Minus(a: int, b: int): int {
    if a >= b then a - b else a - b + WORD
  }

  ghost function SizeAt(h: Heap, nodes: Nodes, p: Pos): int {
    Size(h, Head(nodes, p))
  }

  /** Chunk v is the head of a node that is large enough, rsize what it has left; or there is none yet. */
  ghost predicate Candidate(h: Heap, nodes: Nodes, nb: nat, v: int, rsize: int) {
    if v == 0 then rsize == WORD - nb
    else exists p :: p in nodes && v == Head(nodes, p) && rsize == SizeAt(h, nodes, p) - nb && rsize >= 0
  }

  /** Chunk v fits at least as well as a chunk of size s. */
  ghost predicate AtLeast(h: Heap, v: int, s: int) {
    v != 0 && Size(h, v) <= s
  }

  /** No binned chunk that is large enough is smaller than v; none is large enough if v is 0. */
  ghost predicate Best(h: Heap, nodes: Nodes, nb: nat, v: int) {
    forall q | q in nodes && SizeAt(h, nodes, q) >= nb :: AtLeast(h, v, SizeAt(h, nodes, q))
  }

  /** The candidate after looking at the head of node p: the better of the two. */
  lemma Considered(h: Heap, nodes: Nodes, nb: nat, v: int, rsize: int, p: Pos)
    requires TriesOk(h, nodes) && Candidate(h, nodes, nb, v, rsize) && p in nodes && 0 < nb < WORD
    ensures var trem := Minus(SizeAt(h, nodes, p), nb);
            var v', rsize' := if trem < rsize then Head(nodes, p) else v, if trem < rsize then trem else rsize;
            && Candidate(h, nodes, nb, v', rsize')
            && (SizeAt(h, nodes, p) >= nb ==> AtLeast(h, v', SizeAt(h, nodes, p)))
            && (forall s :: AtLeast(h, v, s) ==> AtLeast(h, v', s))
            && (v' != 0 ==> rsize' == Size(h, v') - nb)
  {
    hide TriesOk;
    hide Head;
    hide TreeLinks;
    hide Holds;
    hide Valid;
    hide Ring;
    NodeFacts(h, nodes, p);
    if v != 0 {
      var q :| q in nodes && v == Head(nodes, q) && rsize == SizeAt(h, nodes, q) - nb && rsize >= 0;
      NodeFacts(h, nodes, q);
    }
  }

  // ----- The walk to the smallest chunk of a subtree -----

  /** Everything large enough is no better than v, or below the node at tp, or larger than all that is. */
  ghost predicate Pending(h: Heap, nodes: Nodes, nb: nat, v: int, t: int, tp: Pos) {
    && (t != 0 ==> tp in nodes && t == Head(nodes, tp))
    && (nb < MAX_SIZE ==> Covered(h, nodes, nb, v, t, tp) && (t != 0 ==> AtLeast(h, v, nb) || AllFit(h, nodes, nb, tp)))
  }

  ghost predicate Covered(h: Heap, nodes: Nodes, nb: nat, v: int, t: int, tp: Pos) {
    forall q | q in nodes && SizeAt(h, nodes, q) >= nb ::
      AtLeast(h, v, SizeAt(h, nodes, q)) || (t != 0 && (Under(q, tp) || SizeAt(h, nodes, q) >= Lo(tp) + Width(tp)))
  }

  ghost predicate AllFit(h: Heap, nodes: Nodes, nb: nat, tp: Pos) {
    forall q | q in nodes && Under(q, tp) :: SizeAt(h, nodes, q) >= nb
  }

  /** The leftmost child, or no place if there is none. */
  ghost function Leftmost(nodes: Nodes, p: Pos): Pos {
    if Child(p, false) in nodes then Child(p, false) else Child(p, true)
  }

  lemma LeftmostIs(h: Heap, nodes: Nodes, p: Pos)
    requires TriesOk(h, nodes) && p in nodes
    ensures var l := At(h.child, (Head(nodes, p), false));
            var c := if l != 0 then l else At(h.child, (Head(nodes, p), true));
            && c == Head(nodes, Leftmost(nodes, p)) && (c != 0 <==> Leftmost(nodes, p) in nodes)
    ensures 0 <= Bits(p) && (Leftmost(nodes, p) in nodes ==> 0 <= Bits(Leftmost(nodes, p)) < Bits(p))
  {
    hide TriesOk;
    NodeFacts(h, nodes, p);
    HeadLinks(h, nodes, p, 0);
    BitsLeft(h, nodes, p);
    if Leftmost(nodes, p) in nodes { BitsLeft(h, nodes, Leftmost(nodes, p)); }
  }

  /** After the head of tp is considered, only the leftmost child is still to be seen. */
  lemma GoesLeft(h: Heap, nodes: Nodes, nb: nat, v: int, t: int, tp: Pos, v': int)
    requires TriesOk(h, nodes) && Pending(h, nodes, nb, v, t, tp) && t != 0
    requires SizeAt(h, nodes, tp) >= nb ==> AtLeast(h, v', SizeAt(h, nodes, tp))
    requires forall s :: AtLeast(h, v, s) ==> AtLeast(h, v', s)
    ensures Pending(h, nodes, nb, v', Head(nodes, Leftmost(nodes, tp)), Leftmost(nodes, tp))
  {
    hide TriesOk;
    hide AtLeast;
    hide AllFit;
    hide Leftmost;
    var c := Leftmost(nodes, tp);
    LeftmostIs(h, nodes, tp);
    if nb < MAX_SIZE {
      forall q | q in nodes && SizeAt(h, nodes, q) >= nb && !AtLeast(h, v', SizeAt(h, nodes, q))
        ensures c in nodes && (Under(q, c) || SizeAt(h, nodes, q) >= Lo(c) + Width(c))
      {
        StillToSee(h, nodes, nb, v, t, tp, v', q);
      }
      if c in nodes { FitBelow(h, nodes, nb, tp, c); }
    }
  }

  lemma FitBelow(h: Heap, nodes: Nodes, nb: nat, tp: Pos, c: Pos)
    requires c == Leftmost(nodes, tp)
    ensures AllFit(h, nodes, nb, tp) ==> AllFit(h, nodes, nb, c)
  {
    if AllFit(h, nodes, nb, tp) {
      forall q | q in nodes && Under(q, c) ensures SizeAt(h, nodes, q) >= nb { UnderUp(q, tp, c.right); }
    }
  }

  lemma {:induction false} UnderUp(q: Pos, p: Pos, right: bool)
    requires Under(q, Child(p, right))
    ensures Under(q, p)
  {
    if q != Child(p, right) { UnderUp(q.parent, p, right); }
  }

  /** A large enough chunk that is not covered by v' after tp was seen. */
  lemma StillToSee(h: Heap, nodes: Nodes, nb: nat, v: int, t: int, tp: Pos, v': int, q: Pos)
    requires TriesOk(h, nodes) && Pending(h, nodes, nb, v, t, tp) && t != 0 && nb < MAX_SIZE
    requires SizeAt(h, nodes, tp) >= nb ==> AtLeast(h, v', SizeAt(h, nodes, tp))
    requires forall s :: AtLeast(h, v, s) ==> AtLeast(h, v', s)
    requires q in nodes && SizeAt(h, nodes, q) >= nb && !AtLeast(h, v', SizeAt(h, nodes, q))
    ensures var c := Leftmost(nodes, tp); c in nodes && (Under(q, c) || SizeAt(h, nodes, q) >= Lo(c) + Width(c))
  {
    hide TriesOk;
    var l, r, s := Child(tp, false), Child(tp, true), SizeAt(h, nodes, q);
    assert Under(q, tp) || s >= Lo(tp) + Width(tp);
    NodeFacts(h, nodes, q);
    NodeFacts(h, nodes, tp);
    assert AllFit(h, nodes, nb, tp) by { assert AtLeast(h, v, nb) ==> AtLeast(h, v, s); }
    UnderSelf(tp);
    if Under(q, tp) {
      UnderChild(q, tp);
      if Under(q, l) { UpIsIn(h, nodes, q, l); } else { UpIsIn(h, nodes, q, r); Nested(q, r); Halved(tp); }
    }
  }

  /** With nothing left to see, v is a best fit. */
  lemma AllSeen(h: Heap, nodes: Nodes, nb: nat, v: int, tp: Pos)
    requires TriesOk(h, nodes) && Pending(h, nodes, nb, v, 0, tp)
    ensures Best(h, nodes, nb, v)
  {
    hide TriesOk;
    hide AtLeast;
    forall q | q in nodes && SizeAt(h, nodes, q) >= nb
      ensures AtLeast(h, v, SizeAt(h, nodes, q))
    {
      NodeFacts(h, nodes, q);
    }
  }

  // ----- The walk down a size's own bin -----

  /** The walk down nb's own bin stands at node p; rst heads the deepest right subtree passed by. */
  ghost predicate Searching(h: Heap, nodes: Nodes, nb: nat, p: Pos, v: int, rst: int, rp: Pos) {
    && p in nodes && 0 <= Bits(p) && (rst != 0 ==> rp in nodes && rst == Head(nodes, rp))
    && (nb < MAX_SIZE ==>
          && Bin(p) == TreeIndex(nb) && Holds(p, nb) && Valid(p)
          && (rst != 0 ==> Bin(rp) == Bin(p) && Lo(p) + Width(p) <= Lo(rp))
          && CoveredInBin(h, nodes, nb, p, v, rst, rp))
  }

  ghost predicate CoveredInBin(h: Heap, nodes: Nodes, nb: nat, p: Pos, v: int, rst: int, rp: Pos) {
    forall q | q in nodes && SizeAt(h, nodes, q) >= nb && Bin(q) == TreeIndex(nb) ::
      AtLeast(h, v, SizeAt(h, nodes, q)) || Under(q, p) || Deferred(h, nodes, rst, rp, q)
  }

  /** The chunks of node q are below the passed-by subtree's head, or larger than all there. */
  ghost predicate Deferred(h: Heap, nodes: Nodes, rst: int, rp: Pos, q: Pos) {
    rst != 0 && (Under(q, rp) || SizeAt(h, nodes, q) >= Lo(rp) + Width(rp))
  }

  lemma SearchStarts(h: Heap, nodes: Nodes, nb: nat, p: Pos)
    requires TriesOk(h, nodes) && MIN_LARGE_SIZE <= nb && p == Root(TreeIndex(nb)) && p in nodes
    ensures Searching(h, nodes, nb, p, 0, 0, p)
  {
    hide TriesOk;
    hide TreeIndex;
    hide Holds;
    BitsLeft(h, nodes, p);
    if nb < MAX_SIZE { RootHolds(nb); }
    forall q | q in nodes ensures Under(q, Root(Bin(q))) { UnderRoot(q); }
  }

  /** One step down, on the side of nb's next bit; the right subtree, if passed by, is kept for later. */
  lemma SearchStep(h: Heap, nodes: Nodes, nb: nat, p: Pos, v: int, rst: int, rp: Pos, v': int, side: bool)
    requires TriesOk(h, nodes) && Searching(h, nodes, nb, p, v, rst, rp)
    requires nb < MAX_SIZE ==> Bits(p) >= 1 && Holds(Child(p, side), nb)
    requires SizeAt(h, nodes, p) >= nb ==> AtLeast(h, v', SizeAt(h, nodes, p))
    requires forall s :: AtLeast(h, v, s) ==> AtLeast(h, v', s)
    ensures var c, r := Child(p, side), Child(p, true);
            var rst', rp' := if r in nodes && !side then Head(nodes, r) else rst, if r in nodes && !side then r else rp;
            && (c in nodes ==> Searching(h, nodes, nb, c, v', rst', rp'))
            && (c !in nodes ==> Passed(h, nodes, nb, v', rst', rp'))
  {
    hide TriesOk;
    hide AtLeast;
    hide Holds;
    hide Deferred;
    hide Width;
    hide Lo;
    hide TreeIndex;
    hide Under;
    var c, r := Child(p, side), Child(p, true);
    var rst', rp' := if r in nodes && !side then Head(nodes, r) else rst, if r in nodes && !side then r else rp;
    if nb < MAX_SIZE {
      Halved(p);
      forall q | q in nodes && SizeAt(h, nodes, q) >= nb && Bin(q) == TreeIndex(nb)
          && !AtLeast(h, v', SizeAt(h, nodes, q))
        ensures (c in nodes && Under(q, c)) || Deferred(h, nodes, rst', rp', q)
      {
        StillInBin(h, nodes, nb, p, v, rst, rp, v', side, q);
      }
      RestIsRight(h, nodes, nb, p, v, rst, rp, side);
    }
    BitsOf(h, nodes, c);
  }

  lemma BitsOf(h: Heap, nodes: Nodes, p: Pos)
    requires TriesOk(h, nodes)
    ensures p in nodes ==> 0 <= Bits(p) && Valid(p)
  {
    if p in nodes {
      BitsLeft(h, nodes, p);
      NodeFacts(h, nodes, p);
    }
  }

  /** The walk down nb's own bin is over. */
  ghost predicate Passed(h: Heap, nodes: Nodes, nb: nat, v: int, rst: int, rp: Pos) {
    && (rst != 0 ==> rp in nodes && rst == Head(nodes, rp))
    && (nb < MAX_SIZE ==>
          && (rst != 0 ==> Bin(rp) == TreeIndex(nb) && nb < Lo(rp))
          && forall q | q in nodes && SizeAt(h, nodes, q) >= nb && Bin(q) == TreeIndex(nb) ::
               AtLeast(h, v, SizeAt(h, nodes, q)) || Deferred(h, nodes, rst, rp, q))
  }

  lemma RestIsRight(h: Heap, nodes: Nodes, nb: nat, p: Pos, v: int, rst: int, rp: Pos, side: bool)
    requires TriesOk(h, nodes) && Searching(h, nodes, nb, p, v, rst, rp) && Bits(p) >= 1 && nb < MAX_SIZE
             && Holds(Child(p, side), nb)
    ensures var c, r := Child(p, side), Child(p, true);
            var rst', rp' := if r in nodes && !side then Head(nodes, r) else rst, if r in nodes && !side then r else rp;
            && Bin(c) == TreeIndex(nb) && Valid(c)
            && (rst' != 0 ==>
                 rp' in nodes && rst' == Head(nodes, rp') && Bin(rp') == TreeIndex(nb) && Lo(c) + Width(c) <= Lo(rp')
                 && nb < Lo(rp'))
  {
    hide TriesOk;
    Halved(p);
  }

  lemma StillInBin(h: Heap, nodes: Nodes, nb: nat, p: Pos, v: int, rst: int, rp: Pos, v': int, side: bool, q: Pos)
    requires TriesOk(h, nodes) && Searching(h, nodes, nb, p, v, rst, rp) && Bits(p) >= 1 && nb < MAX_SIZE
             && Holds(Child(p, side), nb)
    requires SizeAt(h, nodes, p) >= nb ==> AtLeast(h, v', SizeAt(h, nodes, p))
    requires forall s :: AtLeast(h, v, s) ==> AtLeast(h, v', s)
    requires q in nodes && SizeAt(h, nodes, q) >= nb && Bin(q) == TreeIndex(nb) && !AtLeast(h, v', SizeAt(h, nodes, q))
    ensures var c, r := Child(p, side), Child(p, true);
            var rst', rp' := if r in nodes && !side then Head(nodes, r) else rst, if r in nodes && !side then r else rp;
            (c in nodes && Under(q, c)) || Deferred(h, nodes, rst', rp', q)
  {
    hide TriesOk;
    hide AtLeast;
    hide TreeIndex;
    var l, r := Child(p, false), Child(p, true);
    NodeFacts(h, nodes, q);
    Halved(p);
    if Under(q, p) {
      UnderChild(q, p);
      if Under(q, l) {
        UpIsIn(h, nodes, q, l);
        Nested(q, l);
      } else {
        UpIsIn(h, nodes, q, r);
        NodeFacts(h, nodes, r);
      }
    } else {
      assert Deferred(h, nodes, rst, rp, q);
      if Under(q, rp) { Nested(q, rp); }
      if r in nodes { NodeFacts(h, nodes, r); }
    }
  }

  /** From the end of the walk down nb's own bin to the walk to the smallest of what was passed by. */
  lemma PassedOn(h: Heap, nodes: Nodes, nb: nat, v: int, rst: int, rp: Pos)
    requires TriesOk(h, nodes) && MIN_LARGE_SIZE <= nb && Passed(h, nodes, nb, v, rst, rp) && (rst != 0 || v != 0)
    requires v != 0 ==>
               Candidate(h, nodes, nb, v, Size(h, v) - nb) && (nb < MAX_SIZE ==> TreeIndex(Size(h, v)) == TreeIndex(nb))
    ensures Pending(h, nodes, nb, v, rst, rp)
  {
    hide TriesOk;
    hide TreeIndex;
    hide Under;
    if nb < MAX_SIZE {
      forall q | q in nodes && SizeAt(h, nodes, q) >= nb && !AtLeast(h, v, SizeAt(h, nodes, q))
        ensures Deferred(h, nodes, rst, rp, q)
      {
        if Bin(q) != TreeIndex(nb) { LaterBin(h, nodes, nb, v, rst, rp, q); }
      }
      if rst != 0 {
        forall q | q in nodes && Under(q, rp)
          ensures SizeAt(h, nodes, q) >= nb
        {
          NodeFacts(h, nodes, q); Nested(q, rp);
        }
      }
    }
  }

  /** Sizes in later bins are larger than everything in nb's bin. */
  lemma LaterBin(h: Heap, nodes: Nodes, nb: nat, v: int, rst: int, rp: Pos, q: Pos)
    requires TriesOk(h, nodes) && MIN_LARGE_SIZE <= nb < MAX_SIZE && q in nodes && SizeAt(h, nodes, q) >= nb
             && Bin(q) != TreeIndex(nb)
    requires v != 0 ==> Candidate(h, nodes, nb, v, Size(h, v) - nb) && TreeIndex(Size(h, v)) == TreeIndex(nb)
    requires rst != 0 ==> rp in nodes && Bin(rp) == TreeIndex(nb)
    requires rst != 0 || v != 0
    ensures AtLeast(h, v, SizeAt(h, nodes, q)) || Deferred(h, nodes, rst, rp, q)
  {
    hide TriesOk;
    hide TreeIndex;
    hide Under;
    hide MinSize;
    var s := SizeAt(h, nodes, q);
    NodeFacts(h, nodes, q);
    if v != 0 {
      var vp :| vp in nodes && v == Head(nodes, vp);
      NodeFacts(h, nodes, vp);
      if s < Size(h, v) { TreeIndexMonotone(nb, s); TreeIndexMonotone(s, Size(h, v)); }
    } else {
      NodeFacts(h, nodes, rp);
      BinEnds(rp, nb, s);
    }
  }

  lemma BinEnds(rp: Pos, nb: nat, s: nat)
    requires Valid(rp) && MIN_LARGE_SIZE <= nb <= s < MAX_SIZE && Bin(rp) == TreeIndex(nb)
             && TreeIndex(s) != TreeIndex(nb)
    ensures Lo(rp) + Width(rp) <= s
  {
    hide TreeIndex;
    hide MinSize;
    hide Pow2;
    hide Under;
    UnderRoot(rp);
    Nested(rp, Root(Bin(rp)));
    TreeIndexBounds(nb);
    TreeIndexBounds(s);
    TreeIndexMonotone(nb, s);
    RootRange(Bin(rp));
    if TreeIndex(nb) + 1 < TreeIndex(s) { MinSizesAscend(TreeIndex(nb) + 1, TreeIndex(s)); }
  }

  // ----- The next bin -----

  /** With nothing large enough in nb's own bin, the next bin in use holds the smallest that is. */
  lemma NextBin(h: Heap, nodes: Nodes, nb: nat, i: nat)
    requires TriesOk(h, nodes) && MIN_LARGE_SIZE <= nb && TreeIndex(nb) < i < NTREEBINS && Root(i) in nodes
    requires forall j | TreeIndex(nb) < j < i :: Root(j) !in nodes
    requires nb < MAX_SIZE ==> forall q | q in nodes && SizeAt(h, nodes, q) >= nb :: Bin(q) != TreeIndex(nb)
    ensures Pending(h, nodes, nb, 0, Head(nodes, Root(i)), Root(i))
  {
    hide TriesOk;
    hide TreeIndex;
    hide MinSize;
    NodeFacts(h, nodes, Root(i));
    if nb < MAX_SIZE {
      forall q | q in nodes && SizeAt(h, nodes, q) >= nb
        ensures Under(q, Root(i)) || SizeAt(h, nodes, q) >= Lo(Root(i)) + Width(Root(i))
      {
        NextOrLater(h, nodes, nb, i, q);
      }
      forall q | q in nodes && Under(q, Root(i)) ensures SizeAt(h, nodes, q) >= nb {
        NodeFacts(h, nodes, q);
        Nested(q, Root(i));
        if SizeAt(h, nodes, q) < nb { TreeIndexMonotone(SizeAt(h, nodes, q), nb); }
      }
    }
  }

  lemma NextOrLater(h: Heap, nodes: Nodes, nb: nat, i: nat, q: Pos)
    requires TriesOk(h, nodes) && MIN_LARGE_SIZE <= nb < MAX_SIZE && TreeIndex(nb) < i < NTREEBINS && Root(i) in nodes
    requires forall j | TreeIndex(nb) < j < i :: Root(j) !in nodes
    requires q in nodes && SizeAt(h, nodes, q) >= nb && Bin(q) != TreeIndex(nb)
    ensures Under(q, Root(i)) || SizeAt(h, nodes, q) >= Lo(Root(i)) + Width(Root(i))
  {
    hide TriesOk;
    hide TreeIndex;
    hide MinSize;
    var s := SizeAt(h, nodes, q);
    NodeFacts(h, nodes, q);
    TreeIndexMonotone(nb, s);
    UnderRoot(q);
    UpIsIn(h, nodes, q, Root(Bin(q)));
    if Bin(q) != i {
      BinBound(q);
      RootRange(i);
      TreeIndexBounds(s);
      if i + 1 < Bin(q) { MinSizesAscend(i + 1, Bin(q)); }
    }
  }

  /** With nothing in nb's own bin and no later bin in use, nothing is large enough. */
  lemma NoNextBin(h: Heap, nodes: Nodes, nb: nat)
    requires TriesOk(h, nodes) && MIN_LARGE_SIZE <= nb
    requires forall j | TreeIndex(nb) < j < NTREEBINS :: Root(j) !in nodes
    requires nb < MAX_SIZE ==> forall q | q in nodes && SizeAt(h, nodes, q) >= nb :: Bin(q) != TreeIndex(nb)
    ensures Best(h, nodes, nb, 0)
  {
    hide TriesOk;
    hide TreeIndex;
    forall q | q in nodes ensures SizeAt(h, nodes, q) < nb {
      NodeFacts(h, nodes, q);
      if SizeAt(h, nodes, q) >= nb {
        TreeIndexMonotone(nb, SizeAt(h, nodes, q));
        UnderRoot(q);
        UpIsIn(h, nodes, q, Root(Bin(q)));
        BinBound(q);
      }
    }
  }

  /** The least marked bin from i on; NTREEBINS if there is none. */
  function LeastFrom(marks: set<nat>, i: nat): (r: nat)
    ensures r >= i && (r in marks || r == NTREEBINS || r == i) && forall j | j in marks && i <= j < NTREEBINS :: r <= j
    ensures i <= NTREEBINS ==> r <= NTREEBINS
    decreases NTREEBINS - i
  {
    if i >= NTREEBINS || i in marks then i else LeastFrom(marks, i + 1)
  }

  /** What the walk reads at node p: the right child's head, and the child on nb's side. */
  lemma StepReads(h: Heap, nodes: Nodes, nb: nat, p: Pos, side: bool)
    requires TriesOk(h, nodes) && p in nodes
    ensures var rt, t := At(h.child, (Head(nodes, p), true)), At(h.child, (Head(nodes, p), side));
            && rt == Head(nodes, Child(p, true)) && t == Head(nodes, Child(p, side))
            && (t != 0 <==> Child(p, side) in nodes)
            && (rt != 0 && rt != t <==> Child(p, true) in nodes && !side)
  {
    hide TriesOk;
    NodeFacts(h, nodes, p);
    HeadLinks(h, nodes, p, 0);
    var l, r := Child(p, false), Child(p, true);
    if l in nodes && r in nodes {
      HeadIn(h, nodes, l);
      HeadIn(h, nodes, r);
      OnePlace(h, nodes, l, r, Head(nodes, l));
    }
  }

  /** The key steers the walk to the side of nb, while sizes still differ. */
  lemma SearchSteers(h: Heap, nodes: Nodes, nb: nat, p: Pos, v: int, rst: int, rp: Pos)
    requires TriesOk(h, nodes) && Searching(h, nodes, nb, p, v, rst, rp) && SizeAt(h, nodes, p) != nb && nb < MAX_SIZE
    ensures Bits(p) >= 1 && Holds(Child(p, TopBit(Key(p, nb))), nb)
    ensures Key(p, nb) * 2 % WORD == Key(Child(p, TopBit(Key(p, nb))), nb)
  {
    hide TriesOk;
    hide TreeIndex;
    NodeFacts(h, nodes, p);
    LastBit(p, nb, SizeAt(h, nodes, p));
    KeySteers(p, nb);
  }

  /** An exact fit ends the search. */
  lemma ExactFit(h: Heap, nodes: Nodes, nb: nat, v: int, p: Pos)
    requires p in nodes && AtLeast(h, v, nb)
    ensures Pending(h, nodes, nb, v, Head(nodes, p), p)
  {
  }

  /** A candidate seen on the walk down nb's own bin is of that bin. */
  lemma CandidateBin(h: Heap, nodes: Nodes, nb: nat, p: Pos, v: int, rst: int, rp: Pos)
    requires TriesOk(h, nodes) && Searching(h, nodes, nb, p, v, rst, rp) && nb < MAX_SIZE
    ensures TreeIndex(SizeAt(h, nodes, p)) == TreeIndex(nb)
  {
    hide TriesOk;
    hide TreeIndex;
    NodeFacts(h, nodes, p);
  }

  /** With nothing passed by and no candidate, nb's own bin holds nothing large enough. */
  lemma NothingInBin(h: Heap, nodes: Nodes, nb: nat, rp: Pos)
    requires Passed(h, nodes, nb, 0, 0, rp) && nb < MAX_SIZE
    ensures forall q | q in nodes && SizeAt(h, nodes, q) >= nb :: Bin(q) != TreeIndex(nb)
  {
  }

  lemma EmptyBin(h: Heap, nodes: Nodes, i: nat)
    requires TriesOk(h, nodes) && Root(i) !in nodes
    ensures forall q | q in nodes :: Bin(q) != i
  {
    forall q | q in nodes ensures Bin(q) != i {
      UnderRoot(q);
      UpIsIn(h, nodes, q, Root(Bin(q)));
    }
  }

  lemma IndexBound(s: nat)
    requires MIN_LARGE_SIZE <= s
    ensures TreeIndex(s) < NTREEBINS
  {
    hide Pow2;
    var x := s / 256 % 0x1_0000_0000;
    if 0 < x <= 0xFFFF {
      HighBitBounds(x);
      Pow2Values();
      if HighBit(x) > 15 { Pow2Monotone(16, HighBit(x)); }
    }
  }

  lemma NoCandidate(h: Heap, nodes: Nodes, nb: nat)
    ensures Candidate(h, nodes, nb, 0, WORD - nb) && CandidateIn(h, nb, 0, WORD - nb)
  {
  }

  lemma SlotEmpty(h: Heap, bins: seq<int>, marks: set<nat>, nodes: Nodes, i: nat)
    requires TriesOk(h, nodes) && BinsOk(bins, marks, nodes) && i < NTREEBINS
    ensures bins[i] == Head(nodes, Root(i)) && (bins[i] != 0 <==> Root(i) in nodes)
  {
    hide TriesOk;
    if Root(i) in nodes { NodeFacts(h, nodes, Root(i)); }
  }

  /** What the walk's candidate is: nothing, or larger than nb, of nb's bin. */
  ghost predicate CandidateIn(h: Heap, nb: nat, v: int, rsize: int) {
    v != 0 ==> rsize == Size(h, v) - nb && (nb < MAX_SIZE ==> Size(h, v) >= 0 && TreeIndex(Size(h, v)) == TreeIndex(nb))
  }

  lemma SearchNode(h: Heap, nodes: Nodes, nb: nat, p: Pos, v: int, rst: int, rp: Pos)
    requires Searching(h, nodes, nb, p, v, rst, rp)
    ensures p in nodes && 0 <= Bits(p)
  {
  }

  lemma PendingNode(h: Heap, nodes: Nodes, nb: nat, v: int, t: int, tp: Pos)
    requires Pending(h, nodes, nb, v, t, tp) && t != 0
    ensures tp in nodes && t == Head(nodes, tp)
  {
  }

  /** The candidate after the head of node p is seen. */
  ghost predicate Saw(h: Heap, nodes: Nodes, nb: nat, p: Pos, v: int, rsize: int, v': int, rsize': int) {
    var trem := Minus(SizeAt(h, nodes, p), nb);
    v' == (if trem < rsize then Head(nodes, p) else v) && rsize' == if trem < rsize then trem else rsize
  }

  lemma NodeSeen(h: Heap, nodes: Nodes, nb: nat, p: Pos, v: int, rsize: int, rst: int, rp: Pos)
    requires TriesOk(h, nodes) && Searching(h, nodes, nb, p, v, rst, rp) && 0 < nb < WORD
    requires Candidate(h, nodes, nb, v, rsize) && CandidateIn(h, nb, v, rsize)
    ensures var trem := Minus(SizeAt(h, nodes, p), nb);
            var v', rsize' := if trem < rsize then Head(nodes, p) else v, if trem < rsize then trem else rsize;
            && Saw(h, nodes, nb, p, v, rsize, v', rsize')
            && Candidate(h, nodes, nb, v', rsize') && CandidateIn(h, nb, v', rsize')
            && (trem < rsize && rsize' == 0 ==> v' != 0 && Pending(h, nodes, nb, v', Head(nodes, p), p))
  {
    hide TriesOk;
    hide TreeIndex;
    hide Candidate;
    hide Pending;
    hide Holds;
    hide CoveredInBin;
    Considered(h, nodes, nb, v, rsize, p);
    NodeFacts(h, nodes, p);
    if nb < MAX_SIZE { CandidateBin(h, nodes, nb, p, v, rst, rp); }
    if Size(h, Head(nodes, p)) == nb { ExactFit(h, nodes, nb, Head(nodes, p), p); }
  }

  /** One turn of the walk down nb's own bin, without an exact fit. */
  lemma SearchGoesOn(h: Heap, nodes: Nodes, nb: nat, p: Pos, v: int, rsize: int, rst: int, rp: Pos, v': int,
                     rsize': int, side: bool)
    requires TriesOk(h, nodes) && Searching(h, nodes, nb, p, v, rst, rp) && MIN_LARGE_SIZE <= nb < WORD
    requires Candidate(h, nodes, nb, v, rsize) && Saw(h, nodes, nb, p, v, rsize, v', rsize') && rsize' != 0
    requires Candidate(h, nodes, nb, v', rsize') && CandidateIn(h, nb, v', rsize')
    requires nb < MAX_SIZE ==> side == TopBit(Key(p, nb))
    ensures var rt, t := At(h.child, (Head(nodes, p), true)), At(h.child, (Head(nodes, p), side));
            var rst', rp' := if rt != 0 && rt != t then rt else rst, if rt != 0 && rt != t then Child(p, true) else rp;
            && t == Head(nodes, Child(p, side))
            && (t != 0 ==>
                 Searching(h, nodes, nb, Child(p, side), v', rst', rp') && 0 <= Bits(Child(p, side)) < Bits(p))
            && (t != 0 && nb < MAX_SIZE ==> Key(p, nb) * 2 % WORD == Key(Child(p, side), nb))
            && (t == 0 && (v' != 0 || rst' != 0) ==> Pending(h, nodes, nb, v', rst', rp'))
            && (t == 0 && v' == 0 && rst' == 0 && nb < MAX_SIZE ==>
                  forall q | q in nodes && SizeAt(h, nodes, q) >= nb :: Bin(q) != TreeIndex(nb))
  {
    hide TriesOk;
    hide TreeIndex;
    hide Candidate;
    hide Pending;
    hide Holds;
    hide Passed;
    hide Searching;
    hide Key;
    hide AtLeast;
    hide Head;
    SearchNode(h, nodes, nb, p, v, rst, rp);
    Considered(h, nodes, nb, v, rsize, p);
    if nb < MAX_SIZE {
      NotExact(h, nodes, nb, p, v, rsize, v', rsize');
      SearchSteers(h, nodes, nb, p, v, rst, rp);
    }
    StepReads(h, nodes, nb, p, side);
    SearchStep(h, nodes, nb, p, v, rst, rp, v', side);
    var c, r := Child(p, side), Child(p, true);
    var rst', rp' := if r in nodes && !side then Head(nodes, r) else rst, if r in nodes && !side then r else rp;
    if c !in nodes {
      if v' != 0 || rst' != 0 {
        if v' != 0 { CandidateIs(h, nodes, nb, v', rsize'); }
        PassedOn(h, nodes, nb, v', rst', rp');
      } else if nb < MAX_SIZE {
        NothingInBin(h, nodes, nb, rp');
      }
    } else {
      SearchNode(h, nodes, nb, c, v', rst', rp');
      BitsLess(p, side);
    }
  }

  lemma CandidateIs(h: Heap, nodes: Nodes, nb: nat, v: int, rsize: int)
    requires Candidate(h, nodes, nb, v, rsize) && v != 0
    ensures rsize == Size(h, v) - nb
  {
  }

  lemma NotExact(h: Heap, nodes: Nodes, nb: nat, p: Pos, v: int, rsize: int, v': int, rsize': int)
    requires Saw(h, nodes, nb, p, v, rsize, v', rsize') && rsize' != 0 && Candidate(h, nodes, nb, v, rsize) && nb < WORD
    ensures SizeAt(h, nodes, p) != nb
  {
  }

  lemma BitsLess(p: Pos, side: bool)
    ensures Bits(Child(p, side)) == Bits(p) - 1
  {
  }

  /** The walk finds the oldest chunk of its size; as chunks are put in youngest last, those of one
      size are served first in, first out. */
  lemma FoundIsOldest(h: Heap, nodes: Nodes, nb: nat, v: int, rsize: int)
    requires TriesOk(h, nodes) && Candidate(h, nodes, nb, v, rsize) && v != 0
    ensures |Chain(h, nodes, Size(h, v))| > 0 && Chain(h, nodes, Size(h, v))[0] == v
    ensures Without(Chain(h, nodes, Size(h, v)), v) == Chain(h, nodes, Size(h, v))[1..]
  {
    hide TriesOk;
    var p :| p in nodes && v == Head(nodes, p) && rsize == SizeAt(h, nodes, p) - nb && rsize >= 0;
    NodeFacts(h, nodes, p);
    ChainIs(h, nodes, p);
  }
}
