/** dlmalloc's state and its operations on one segment. */
module Malloc {
  import opened Arithmetic
  import opened BestFit
  import opened BinIndex
  import opened BinMaps
  import opened Bodies
  import opened Filing
  import opened Sequences
  import opened SmallBins
  import opened Tiles
  import opened TreeBins

  /** The designated victim and the top chunk, which are in no bin. */
  datatype Reserve = Reserve(dv: int, dvsize: int, top: int, topsize: int)

  class MallocState {
    var heap: Heap
    var treebins: seq<int>
    var treemap: BinMap
    var smallmap: BinMap
    var dv: int
    var dvsize: int
    var top: int
    var topsize: int
    ghost var nodes: Nodes
    ghost var smalls: Smalls
    ghost var row: Row
    ghost const base: int
    ghost const limit: int

    /** A segment that is all top chunk, with all bins empty. */
    constructor (start: int, size: nat)
      requires start > 0 && start % ALIGNMENT == 0 && size % ALIGNMENT == 0 && 0 < size < MAX_SIZE
      ensures Consistent() && InUse(row) == map[] && base == start && limit == start + size && topsize == size
    {
      heap := Heap(map[start := size + 1], map[], map[], map[], map[], map[], map[]);
      treebins := seq(NTREEBINS, _ => 0);
      treemap, smallmap := 0, 0;
      dv, dvsize := 0, 0;
      top, topsize := start, size;
      nodes, smalls, row := map[], seq(NSMALLBINS, _ => []), map[];
      base, limit := start, start + size;
      new;
      ZeroIsEmpty(0);
    }

    ghost predicate TreesValid()
      reads this
    {
      TriesOk(heap, nodes) && BinsOk(treebins, Marks(treemap), nodes)
    }

    /** The first half of putting x in: its bin index, and no children yet. */
    ghost predicate Prepared(h0: Heap, x: int, s: nat)
      reads this
    {
      heap == WithIndex(h0, x, TreeIndex(s))
    }

    /** Puts x in as the only chunk of its size, below a node or as a bin's root. */
    method PutAlone(x: int, t: int, right: bool, ghost p: Pos, ghost s: nat, ghost h0: Heap)
      requires Prepared(h0, x, s) && TriesOk(h0, nodes) && p !in nodes && Valid(p) && Holds(p, s)
               && Bin(p) == TreeIndex(s)
      requires MIN_LARGE_SIZE <= s < MAX_SIZE && Size(h0, x) == s && x > 0 && !Binned(nodes, x)
      requires p.Child? ==> p.parent in nodes && p.right == right
      requires t == ParentOf(nodes, p) && t != x
      requires forall q | q in nodes :: Size(h0, Head(nodes, q)) != s
      modifies this`heap, this`nodes
      ensures nodes == old(nodes)[p := [x]] && TriesOk(heap, nodes) && InsertedLarge(h0, old(nodes), heap, nodes, x, s)
      ensures TreeFrame(h0, heap, old(nodes), x)
    {
      hide TreeFrame;
      hide Marks;
      hide TriesOk;
      hide Holds;
      hide Valid;
      hide TreeIndex;
      hide InsertedLarge;
      hide LinkedIn;
      ParentSign(h0, nodes, p);
      AloneIsLinkedIn(h0, nodes, p, x, t, right);
      if t > 0 {
        heap := heap.(child := heap.child[(t, right) := x]);
      }
      heap := heap.(parent := heap.parent[x := t], fd := heap.fd[x := x], bk := heap.bk[x := x]);
      nodes := nodes[p := [x]];
      LinkEnds(h0, heap, old(nodes), p, x, s);
      LinkedFrame(h0, heap, old(nodes), p, x);
    }

    /** Puts x in behind the chunks of its size at a node. */
    method PutBehind(x: int, t: int, ghost p: Pos, ghost s: nat, ghost h0: Heap)
      requires Prepared(h0, x, s) && TriesOk(h0, nodes) && p in nodes && t == Head(nodes, p) && Bin(p) == TreeIndex(s)
      requires Size(h0, t) == s == Size(h0, x) && x > 0 && !Binned(nodes, x)
      modifies this`heap, this`nodes
      ensures |old(nodes)[p]| > 0 && nodes == old(nodes)[p := old(nodes)[p] + [x]]
      ensures TriesOk(heap, nodes) && InsertedLarge(h0, old(nodes), heap, nodes, x, s)
      ensures TreeFrame(h0, heap, old(nodes), x)
    {
      hide TreeFrame;
      hide Marks;
      hide TriesOk;
      hide TreeIndex;
      hide InsertedLarge;
      hide ChainedIn;
      OldestLinks(h0, nodes, p);
      BinnedHead(h0, nodes, p);
      BehindIsChainedIn(h0, nodes[p], Bin(p), x);
      var f := At(heap.fd, t);
      heap := heap.(fd := heap.fd[t := x], bk := heap.bk[f := x]);
      heap := heap.(fd := heap.fd[x := f], bk := heap.bk[x := t], parent := heap.parent[x := 0]);
      nodes := nodes[p := nodes[p] + [x]];
      ChainEnds(h0, heap, old(nodes), p, x, s);
      ChainedFrame(h0, heap, old(nodes), old(nodes)[p], Bin(p), x);
    }

    /** Links a free large chunk in: behind the chunks of its size if there are any. */
    method InsertLargeChunk(x: int, s: nat)
      requires TreesValid() && x > 0 && !Binned(nodes, x) && Size(heap, x) == s && MIN_LARGE_SIZE <= s < MAX_SIZE
      modifies this`heap, this`treebins, this`treemap, this`nodes
      ensures TreesValid() && InsertedLarge(old(heap), old(nodes), heap, nodes, x, s)
      ensures TreeFrame(old(heap), heap, old(nodes), x)
    {
      hide TreeFrame;
      hide IsMarked;
      hide Mark;
      hide Clear;
      hide Marks;
      hide TriesOk;
      hide Pow2;
      hide TreeIndex;
      hide InsertedLarge;
      hide Binned;
      hide Key;
      hide Under;
      hide Valid;
      ghost var h0 := heap;
      var i := TreeIndex(s);
      TreeIndexBounds(s);
      RootHolds(s);
      heap := heap.(index := heap.index[x := i], child := heap.child[(x, false) := 0][(x, true) := 0]);
      Marking(treemap, i);
      MarkedIn(treemap, i);
      if !IsMarked(treemap, i) {
        treemap := Mark(treemap, i);
        treebins := treebins[i := x];
        NewRoot(h0, nodes, i, s);
        PutAlone(x, BinSlot(i), false, Root(i), s, h0);
        return;
      }
      var t := treebins[i];
      var k: int := s * Pow2(LeftShift(i)) % WORD;
      WalkStarts(h0, nodes, s);
      ghost var cur := Root(i);
      ghost var h1 := heap;
      while SizeIn(At(heap.head, t)) != s
        invariant heap == h1 && nodes == old(nodes) && treebins == old(treebins) && treemap == old(treemap)
        invariant WalkAt(h0, nodes, cur, s, k) && t == Head(nodes, cur) && t > 0 && 0 <= Bits(cur)
        decreases Bits(cur)
      {
        WalkStep(h0, nodes, cur, s, k);
        BinnedHead(h0, nodes, cur);
        var right := TopBit(k);
        var c := At(heap.child, (t, right));
        k := k * 2 % WORD;
        if c == 0 {
          PutAlone(x, t, right, Child(cur, right), s, h0);
          return;
        }
        t := c;
        cur := Child(cur, right);
      }
      PutBehind(x, t, cur, s, h0);
      assert forall q :: Head(nodes, q) == Head(old(nodes), q);
    }

    /** Links the ring neighbours of x to each other; the next younger chunk may take x's place. */
    method UnlinkFromRing(x: int, ghost p: Pos, ghost j: nat) returns (r: int)
      requires p in nodes && j < |nodes[p]|
      requires At(heap.fd, x) == Older(nodes[p], j) && At(heap.bk, x) == Younger(nodes[p], j)
      modifies this`heap
      ensures RingUnlinked(old(heap), heap, nodes[p], j) && r == Younger(nodes[p], j)
    {
      hide Marks;
      hide RingUnlinked;
      RingUnlinkWrites(heap, nodes[p], j);
      var f := At(heap.fd, x);
      r := At(heap.bk, x);
      heap := heap.(bk := heap.bk[f := r]);
      heap := heap.(fd := heap.fd[r := f]);
    }

    /** Cuts off the leaf that is to replace the childless-sized x: right children first, all the way
        down. Gives 0 if x itself is a leaf. */
    method DetachLeaf(x: int, ghost p: Pos) returns (r: int, ghost leaf: Pos)
      requires TriesOk(heap, nodes) && p in nodes && x == Head(nodes, p)
      modifies this`heap
      ensures leaf in nodes && Leaf(nodes, leaf) && Under(leaf, p) && ByRight(nodes, p, leaf)
      ensures r == 0 ==> leaf == p && heap == old(heap)
      ensures r != 0 ==> leaf != p && r == Head(nodes, leaf) && Detached(old(heap), heap, nodes, leaf)
      ensures heap == old(heap).(child := heap.child)
    {
      hide Marks;
      hide TriesOk;
      hide Detached;
      hide Under;
      leaf := p;
      HeadIn(heap, nodes, p);
      HeadLinks(heap, nodes, p, 0);
      UnderSelf(p);
      ghost var h0 := heap;
      var side := true;
      r := At(heap.child, (x, true));
      if r == 0 {
        side := false;
        r := At(heap.child, (x, false));
      }
      if r != 0 {
        var owner := x;
        leaf := Child(p, side);
        UnderNext(p, p, side);
        HeadIn(heap, nodes, leaf);
        BitsLeft(heap, nodes, leaf);
        while true
          invariant leaf.Child? && leaf.right == side && leaf.parent in nodes && owner == Head(nodes, leaf.parent)
          invariant leaf in nodes && r == Head(nodes, leaf) && r != 0 && Under(leaf, p) && leaf != p
          invariant ByRight(nodes, p, leaf)
          invariant heap == h0
          decreases Bits(leaf)
        {
          HeadIn(heap, nodes, leaf);
          BitsLeft(heap, nodes, leaf);
          HeadLinks(heap, nodes, leaf, 0);
          var s := true;
          var c := At(heap.child, (r, true));
          if c == 0 {
            s := false;
            c := At(heap.child, (r, false));
          }
          if c == 0 {
            break;
          }
          owner, side, r := r, s, c;
          UnderNext(leaf, p, s);
          leaf := Child(leaf, s);
          BitsLeft(heap, nodes, leaf);
        }
        heap := heap.(child := heap.child[(owner, side) := 0]);
        DetachWrites(h0, nodes, leaf, owner);
      }
    }

    /** Makes the pointer to head x point to r; an emptied bin is unmarked. */
    method PointTo(x: int, xp: int, r: int, ghost p: Pos)
      requires BinsOk(treebins, Marks(treemap), nodes) && At(heap.index, x) == Bin(p) < NTREEBINS
      requires x == Head(nodes, Root(Bin(p))) <==> p.Root?
      requires p.Child? ==> (At(heap.child, (xp, false)) == x <==> !p.right)
      modifies this`heap, this`treebins, this`treemap
      ensures heap == if p.Child? then old(heap).(child := old(heap).child[(xp, p.right) := r]) else old(heap)
      ensures treebins == if p.Root? then old(treebins)[Bin(p) := r] else old(treebins)
      ensures Marks(treemap) == if p.Root? && r == 0 then Marks(old(treemap)) - {Bin(p)} else Marks(old(treemap))
    {
      hide Marks;
      hide Clear;
      var i := At(heap.index, x);
      if x == treebins[i] {
        treebins := treebins[i := r];
        if r == 0 {
          Marking(treemap, i);
          treemap := Clear(treemap, i);
        }
      } else {
        var right := At(heap.child, (xp, false)) != x;
        heap := heap.(child := heap.child[(xp, right) := r]);
      }
    }

    /** Gives r the parent and the children of x. */
    method AdoptLinks(x: int, xp: int, r: int)
      modifies this`heap
      ensures heap == AdoptBoth(old(heap).(parent := old(heap).parent[r := xp]), x, r)
    {
      heap := heap.(parent := heap.parent[r := xp]);
      var c0 := At(heap.child, (x, false));
      if c0 != 0 { heap := heap.(child := heap.child[(r, false) := c0], parent := heap.parent[c0 := r]); }
      var c1 := At(heap.child, (x, true));
      if c1 != 0 { heap := heap.(child := heap.child[(r, true) := c1], parent := heap.parent[c1 := r]); }
    }

    /** Replaces head x by r, or clears the pointer to it if r is 0. */
    method TakeOver(x: int, xp: int, r: int, ghost p: Pos, ghost c: seq<int>)
      requires BinsOk(treebins, Marks(treemap), nodes) && p in nodes && x == Head(nodes, p) && xp == ParentOf(nodes, p)
      requires At(heap.index, x) == Bin(p) < NTREEBINS
      requires r != 0 ==> Replaceable(heap, nodes, p, c) && |c| > 0 && c[0] == r
      requires r == 0 ==> TriesOk(heap, nodes) && Leaf(nodes, p)
      modifies this`heap, this`treebins, this`treemap, this`nodes
      ensures nodes == (if r != 0 then old(nodes)[p := c] else old(nodes) - {p}) && TreesValid()
      ensures heap.head == old(heap.head) && heap.prevFoot == old(heap.prevFoot) && heap.fd == old(heap.fd)
              && heap.bk == old(heap.bk)
      ensures TreeFrame(old(heap), heap, old(nodes), r)
    {
      hide TreeFrame;
      hide Marks;
      hide TriesOk;
      hide Replaceable;
      hide Relinked;
      hide Leaf;
      hide AdoptBoth;
      hide Head;
      hide BinsOk;
      ghost var h0 := heap;
      SlotFound(heap, nodes, p, c, r);
      PointTo(x, xp, r, p);
      if r != 0 {
        AdoptLinks(x, xp, r);
        nodes := nodes[p := c];
        Relinks(h0, heap, old(nodes), p, c, x, xp, r);
        RelinksFrame(h0, heap, old(nodes), p, c, x, xp, r);
      } else {
        nodes := nodes - {p};
        DropWrites(h0, heap, old(nodes), p, xp);
        DropFrame(h0, heap, old(nodes), p, xp, r);
      }
      BinsKeep(old(treebins), Marks(old(treemap)), old(nodes), treebins, Marks(treemap), nodes, p, r);
    }

    /** Takes a free large chunk out of its bin. */
    method UnlinkLargeChunk(x: int)
      requires TreesValid() && Binned(nodes, x)
      modifies this`heap, this`treebins, this`treemap, this`nodes
      ensures TreesValid() && RemovedLarge(old(heap), old(nodes), heap, nodes, x)
      ensures exists p, j: nat, leaf :: Refilled(old(nodes), nodes, x, p, j, leaf)
      ensures TreeFrame(old(heap), heap, old(nodes), x)
    {
      hide TreeFrame;
      hide Marks;
      hide TriesOk;
      hide Replaceable;
      hide RemovedLarge;
      hide RingUnlinked;
      hide Detached;
      hide Leaf;
      hide Head;
      hide BinsOk;
      hide Under;
      hide ByRight;
      hide Binned;
      ghost var h0, was := heap, nodes;
      ghost var p, j := FindChunk(heap, nodes, x);
      var xp := At(heap.parent, x);
      var r;
      ghost var c, from := [], p;
      if At(heap.bk, x) != x {
        r := UnlinkFromRing(x, p, j);
        UnlinkedNear(h0, heap, nodes, p, j);
        UnlinkedFrame(h0, heap, was, was[p], j, x);
        c := Drop(nodes[p], j);
        MemberBinned(was, p, c, j);
        if j == 0 {
          OldestUnlinked(h0, heap, nodes, p);
        } else {
          Unchained(h0, heap, nodes, p, j);
          nodes := nodes[p := c];
          ChainBins(treebins, Marks(treemap), was, nodes, p);
        }
      } else {
        r, from := DetachLeaf(x, p);
        NothingWritten(h0, was, x);
        if r != 0 {
          DetachedFrame(h0, heap, was, from, x);
          HeadIsBinned(was, from);
          LeafStandsIn(h0, heap, nodes, p, from);
          c := nodes[from];
          nodes := nodes - {from};
          LeafBins(treebins, Marks(treemap), was, from, p);
        }
      }
      ghost var h1, mid := heap, nodes;
      if xp != 0 {
        SomeBinned(nodes, was);
        TakeOver(x, xp, r, p, c);
        TreeFrameWithin(h1, heap, mid, r, was, x);
        TreeFrameThen(h0, h1, heap, was, x);
      }
      assert Refilled(was, nodes, x, p, j, from);
      if |was[p]| > 1 { RingRemoved(h0, heap, was, p, j); } else { LoneRemoved(h0, heap, was, nodes, p, from); }
    }

    // ----- Searching the tree bins -----

    /** Walks down the bin of nb looking for the best fit there, and for the subtree to search on in. */
    method SearchOwnBin(nb: nat) returns (v: int, rsize: int, t: int, ghost tp: Pos)
      requires TreesValid() && MIN_LARGE_SIZE <= nb < WORD
      ensures Candidate(heap, nodes, nb, v, rsize)
      ensures v != 0 || t != 0 ==> Pending(heap, nodes, nb, v, t, tp)
      ensures v == 0 && t == 0 && nb < MAX_SIZE ==>
                forall q | q in nodes && SizeAt(heap, nodes, q) >= nb :: Bin(q) != TreeIndex(nb)
    {
      hide Marks;
      hide TriesOk;
      hide TreeIndex;
      hide Searching;
      hide Passed;
      hide Pending;
      hide Candidate;
      hide Key;
      hide Pow2;
      hide Holds;
      hide Valid;
      hide CandidateIn;
      hide Best;
      v, rsize := 0, WORD - nb;
      var idx := TreeIndex(nb);
      IndexBound(nb);
      ghost var p, rp := Root(idx), Root(idx);
      tp := rp;
      NoCandidate(heap, nodes, nb);
      t := treebins[idx];
      SlotEmpty(heap, treebins, Marks(treemap), nodes, idx);
      if t != 0 {
        var sizebits: int := nb * Pow2(LeftShift(idx)) % WORD;
        if nb < MAX_SIZE { KeyStarts(nb); }
        var rst := 0;
        SearchStarts(heap, nodes, nb, p);
        while true
          invariant Searching(heap, nodes, nb, p, v, rst, rp) && t == Head(nodes, p) && 0 <= Bits(p)
          invariant Candidate(heap, nodes, nb, v, rsize) && CandidateIn(heap, nb, v, rsize) && rsize != 0
          invariant nb < MAX_SIZE ==> sizebits == Key(p, nb)
          decreases Bits(p)
        {
          ghost var v0, rsize0 := v, rsize;
          SearchNode(heap, nodes, nb, p, v, rst, rp);
          var trem := Minus(SizeIn(At(heap.head, t)), nb);
          NodeSeen(heap, nodes, nb, p, v, rsize, rst, rp);
          if trem < rsize {
            v, rsize := t, trem;
            if rsize == 0 {
              tp := p;
              return;
            }
          }
          var side := TopBit(sizebits);
          SearchGoesOn(heap, nodes, nb, p, v0, rsize0, rst, rp, v, rsize, side);
          var rt := At(heap.child, (t, true));
          t := At(heap.child, (t, side));
          if rt != 0 && rt != t {
            rst := rt;
            rp := Child(p, true);
          }
          if t == 0 {
            t := rst;
            tp := rp;
            return;
          }
          sizebits := sizebits * 2 % WORD;
          p := Child(p, side);
        }
      }
      EmptyBin(heap, nodes, idx);
    }

    /** Finds the smallest chunk among v and the subtree at t, going down the leftmost children. */
    method SearchSubtree(nb: nat, v0: int, rsize0: int, t0: int, ghost tp0: Pos) returns (v: int, rsize: int)
      requires TriesOk(heap, nodes) && 0 < nb < WORD
      requires Candidate(heap, nodes, nb, v0, rsize0) && Pending(heap, nodes, nb, v0, t0, tp0)
      ensures Candidate(heap, nodes, nb, v, rsize) && Best(heap, nodes, nb, v)
    {
      hide Marks;
      hide TriesOk;
      hide Pending;
      hide Candidate;
      v, rsize := v0, rsize0;
      var t := t0;
      ghost var tp := tp0;
      while t != 0
        invariant Candidate(heap, nodes, nb, v, rsize) && Pending(heap, nodes, nb, v, t, tp)
        decreases if t != 0 then Bits(tp) + 1 else 0
      {
        PendingNode(heap, nodes, nb, v, t, tp);
        Considered(heap, nodes, nb, v, rsize, tp);
        ghost var v1 := v;
        var trem := Minus(SizeIn(At(heap.head, t)), nb);
        if trem < rsize {
          rsize := trem;
          v := t;
        }
        LeftmostIs(heap, nodes, tp);
        GoesLeft(heap, nodes, nb, v1, t, tp, v);
        var l := At(heap.child, (t, false));
        t := if l != 0 then l else At(heap.child, (t, true));
        tp := Leftmost(nodes, tp);
      }
      AllSeen(heap, nodes, nb, v, tp);
    }

    /** Finds the smallest binned large chunk that holds nb bytes; 0 if none does. */
    method SearchLarge(nb: nat) returns (v: int, rsize: int)
      requires TreesValid() && MIN_LARGE_SIZE <= nb < WORD
      ensures Candidate(heap, nodes, nb, v, rsize) && Best(heap, nodes, nb, v)
    {
      hide And;
      hide LeftBits;
      hide LeastBit;
      hide Idx2Bit;
      hide TrailingZeros;
      hide Marks;
      hide TriesOk;
      hide TreeIndex;
      hide Pending;
      hide Candidate;
      hide Best;
      var t;
      ghost var tp;
      v, rsize, t, tp := SearchOwnBin(nb);
      IndexBound(nb);
      if t == 0 && v == 0 {
        var idx := TreeIndex(nb);
        var leftbits := And(LeftBits(Idx2Bit(idx)), treemap);
        NextMarked(treemap, idx);
        if leftbits != 0 {
          var i := TrailingZeros(LeastBit(leftbits));
          tp := Root(i);
          t := treebins[i];
          NextBin(heap, nodes, nb, i);
        } else {
          NoNextBin(heap, nodes, nb);
          return;
        }
      }
      v, rsize := SearchSubtree(nb, v, rsize, t, tp);
    }

    // ----- Small bins -----

    /** Links a free small chunk in at the front of its bin. */
    method InsertSmallChunk(x: int, s: nat)
      requires SmallsOk(heap, Marks(smallmap), smalls) && x > 0 && !InSmall(smalls, x) && Size(heap, x) == s
      requires s < MIN_LARGE_SIZE && s % 8 == 0
      modifies this`heap, this`smallmap, this`smalls
      ensures SmallsOk(heap, Marks(smallmap), smalls) && LinksOnly(old(heap), heap, old(smalls), x)
      ensures forall y :: InSmall(smalls, y) <==> y == x || InSmall(old(smalls), y)
      ensures s / 8 < |old(smalls)| && smalls == old(smalls)[s / 8 := old(smalls)[s / 8] + [x]]
    {
      hide IsMarked;
      hide Mark;
      hide Clear;
      hide Marks;
      hide SmallsOk;
      hide InSmall;
      hide LinksOnly;
      var i := s / 8;
      var b := SmallBin(i);
      var f := b;
      SmallInserted(heap, Marks(smallmap), smalls, i, x, if i in Marks(smallmap) then At(heap.fd, b) else b);
      Marking(smallmap, i);
      MarkedIn(smallmap, i);
      if !IsMarked(smallmap, i) {
        smallmap := Mark(smallmap, i);
      } else {
        f := At(heap.fd, b);
        assert Marks(smallmap) + {i} == Marks(smallmap);
      }
      heap := heap.(fd := heap.fd[b := x]);
      heap := heap.(bk := heap.bk[f := x]);
      heap := heap.(fd := heap.fd[x := f]);
      heap := heap.(bk := heap.bk[x := b]);
      smalls := smalls[i := smalls[i] + [x]];
    }

    /** Takes a free small chunk out of its bin. */
    method UnlinkSmallChunk(x: int, s: nat)
      requires SmallsOk(heap, Marks(smallmap), smalls) && InSmall(smalls, x) && Size(heap, x) == s
      modifies this`heap, this`smallmap, this`smalls
      ensures SmallsOk(heap, Marks(smallmap), smalls) && LinksOnly(old(heap), heap, old(smalls), x)
      ensures forall y :: InSmall(smalls, y) <==> y != x && InSmall(old(smalls), y)
      ensures s / 8 < |old(smalls)| && smalls == old(smalls)[s / 8 := Without(old(smalls)[s / 8], x)]
    {
      hide Clear;
      hide Marks;
      hide SmallsOk;
      hide InSmall;
      hide LinksOnly;
      hide Circle;
      ghost var i0, k := SmallSize(heap, Marks(smallmap), smalls, x);
      SmallNeighbours(heap, Marks(smallmap), smalls, i0, k);
      SmallWithout(heap, smalls[i0], i0, k);
      ghost var h0, marks0, smalls0 := heap, Marks(smallmap), smalls;
      var f := At(heap.fd, x);
      var b := At(heap.bk, x);
      var i := s / 8;
      if b == f {
        Marking(smallmap, i);
        smallmap := Clear(smallmap, i);
      } else {
        heap := heap.(bk := heap.bk[f := b]);
        heap := heap.(fd := heap.fd[b := f]);
      }
      smalls := smalls[i := Drop(smalls[i], k)];
      SmallRemoved(h0, heap, marks0, smalls0, smalls, i, k, x);
    }

    /** Takes the chunk put in last out of a bin in use. */
    method UnlinkFirstSmallChunk(i: nat) returns (p: int)
      requires SmallsOk(heap, Marks(smallmap), smalls) && i in Marks(smallmap)
      modifies this`heap, this`smallmap, this`smalls
      ensures SmallsOk(heap, Marks(smallmap), smalls) && InSmall(old(smalls), p) && Size(old(heap), p) == 8 * i
      ensures LinksOnly(old(heap), heap, old(smalls), p)
      ensures forall y :: InSmall(smalls, y) <==> y != p && InSmall(old(smalls), y)
      ensures i < |old(smalls)| && |old(smalls)[i]| > 0
              && smalls == old(smalls)[i := old(smalls)[i][..|old(smalls)[i]| - 1]]
      ensures p == old(smalls)[i][|old(smalls)[i]| - 1]
    {
      hide Clear;
      hide Marks;
      hide SmallsOk;
      hide InSmall;
      hide LinksOnly;
      hide Circle;
      MarkedBin(heap, Marks(smallmap), smalls, i);
      ghost var k := |smalls[i]| - 1;
      SmallNeighbours(heap, Marks(smallmap), smalls, i, k);
      ghost var h0, marks0, smalls0 := heap, Marks(smallmap), smalls;
      var b := SmallBin(i);
      p := At(heap.fd, b);
      var f := At(heap.fd, p);
      if b == f {
        Marking(smallmap, i);
        smallmap := Clear(smallmap, i);
      } else {
        heap := heap.(bk := heap.bk[f := b]);
        heap := heap.(fd := heap.fd[b := f]);
      }
      assert Drop(smalls[i], k) == smalls[i][..k];
      smalls := smalls[i := Drop(smalls[i], k)];
      SmallRemoved(h0, heap, marks0, smalls0, smalls, i, k, p);
    }

    // ----- The whole state -----

    function Reserves(): Reserve
      reads this
    {
      Reserve(dv, dvsize, top, topsize)
    }

    /** All invariants hold, except that the free chunks in out are kept nowhere at the moment. */
    ghost predicate Sound(out: set<int>)
      reads this
    {
      && Tiling(heap, row, base, limit, top, topsize) && limit - base < MAX_SIZE
      && TriesOk(heap, nodes) && BinsOk(treebins, Marks(treemap), nodes)
      && SmallsOk(heap, Marks(smallmap), smalls) && Filed(row, smalls, nodes, dv, dvsize, out)
    }

    ghost predicate Consistent()
      reads this
    {
      Sound({})
    }

    /** The program writes into the body of a chunk it was given: nothing it does there breaks an invariant. */
    method WriteBody(p: int, written: Heap)
      requires Consistent() && p in InUse(row) && BodyWrites(heap, written, p, InUse(row)[p])
      modifies this`heap
      ensures heap == written && Consistent()
    {
      hide Marks;
      hide TriesOk;
      hide SmallsOk;
      hide BinsOk;
      hide Tiling;
      hide Filed;
      hide InUse;
      hide BodyWrites;
      BodyWritesKeep(heap, written, row, base, limit, top, topsize, Marks(smallmap), smalls, nodes, dv, dvsize, p);
      heap := written;
    }

    /** Puts a free chunk into the bin for its size. */
    method InsertChunk(p: int, s: nat, ghost out: set<int>)
      requires Sound(out) && p in out && row[p].size == s
      modifies this`heap, this`treebins, this`treemap, this`nodes, this`smallmap, this`smalls
      ensures Sound(out - {p}) && heap.head == old(heap.head) && heap.prevFoot == old(heap.prevFoot)
      ensures if s < MIN_LARGE_SIZE
              then nodes == old(nodes) && s / 8 < |old(smalls)|
                && smalls == old(smalls)[s / 8 := old(smalls)[s / 8] + [p]]
              else smalls == old(smalls) && InsertedLarge(old(heap), old(nodes), heap, nodes, p, s)
      ensures Spares(old(heap), heap, InUse(row))
    {
      hide Spares;
      hide Within;
      hide Marks;
      hide TriesOk;
      hide SmallsOk;
      hide BinsOk;
      hide Tiling;
      hide Filed;
      hide InSmall;
      hide Binned;
      hide TreeFrame;
      hide LinksOnly;
      hide InsertedLarge;
      ghost var h0, smalls0, nodes0 := heap, smalls, nodes;
      KeptHow(row, smalls, nodes, dv, dvsize, out, p);
      FreeChunk(heap, row, base, limit, top, topsize, p);
      ChunkBound(heap, row, base, limit, top, topsize, p);
      if s < MIN_LARGE_SIZE {
        InsertSmallChunk(p, s);
        SmallSpares(h0, heap, row, base, limit, top, topsize, smalls0, nodes, dv, dvsize, out, p);
        SmallIn(row, smalls0, smalls, nodes, dv, dvsize, out, p);
        LinksFrame(h0, heap, row, smalls0, nodes, dv, dvsize, out, p);
        LinksRest(h0, heap, smalls0, p);
      } else {
        InsertLargeChunk(p, s);
        InsertedFacts(h0, nodes0, heap, nodes, p, s);
        LargeInSpares(h0, heap, row, base, limit, top, topsize, smalls, nodes0, nodes, dv, dvsize, out, p, s);
        TreeIn(row, smalls, nodes0, nodes, dv, dvsize, out, p);
        SmallsAlone(h0, heap, row, Marks(smallmap), smalls, nodes0, dv, dvsize, out, p);
      }
      TilingFrame(h0, heap, row, base, limit, top, topsize);
    }

    /** Takes a free chunk other than the victim out of its bin. */
    method UnlinkChunk(p: int, s: nat, ghost out: set<int>)
      requires Sound(out) && Free(row, p) && p != dv && p !in out && row[p].size == s
      modifies this`heap, this`treebins, this`treemap, this`nodes, this`smallmap, this`smalls
      ensures Sound(out + {p}) && heap.head == old(heap.head) && heap.prevFoot == old(heap.prevFoot)
      ensures Spares(old(heap), heap, InUse(row))
    {
      hide Spares;
      hide Within;
      hide Marks;
      hide TriesOk;
      hide SmallsOk;
      hide BinsOk;
      hide Tiling;
      hide Filed;
      hide InSmall;
      hide Binned;
      hide TreeFrame;
      hide LinksOnly;
      hide RemovedLarge;
      ghost var h0, smalls0, nodes0 := heap, smalls, nodes;
      KeptWhere(row, smalls, nodes, dv, dvsize, out, p);
      FreeChunk(heap, row, base, limit, top, topsize, p);
      if s < MIN_LARGE_SIZE {
        UnlinkSmallChunk(p, s);
        SmallSpares(h0, heap, row, base, limit, top, topsize, smalls0, nodes, dv, dvsize, out, p);
        SmallOut(row, smalls0, smalls, nodes, dv, dvsize, out, p);
        LinksFrame(h0, heap, row, smalls0, nodes, dv, dvsize, out, p);
        LinksRest(h0, heap, smalls0, p);
      } else {
        UnlinkLargeChunk(p);
        RemovedFacts(h0, nodes0, heap, nodes, p);
        LargeOutSpares(h0, heap, row, base, limit, top, topsize, smalls, nodes0, nodes, dv, dvsize, out, p);
        TreeOut(row, smalls, nodes0, nodes, dv, dvsize, out, p);
        SmallsAlone(h0, heap, row, Marks(smallmap), smalls, nodes0, dv, dvsize, out, p);
      }
      TilingFrame(h0, heap, row, base, limit, top, topsize);
    }

    /** Makes a free chunk the designated victim, putting the old one, if any, into its bin. */
    method ReplaceDv(p: int, s: nat, ghost out: set<int>)
      requires Sound(out) && p in out && row[p].size == s && dvsize < MIN_LARGE_SIZE
      modifies this`heap, this`smallmap, this`smalls, this`dv, this`dvsize
      ensures Sound(out - {p}) && dv == p && dvsize == s && heap.head == old(heap.head)
      ensures Spares(old(heap), heap, InUse(row))
    {
      hide Spares;
      hide Within;
      hide Marks;
      hide TriesOk;
      hide SmallsOk;
      hide BinsOk;
      hide Tiling;
      hide Filed;
      hide InSmall;
      hide Binned;
      hide LinksOnly;
      ghost var h0, smalls0 := heap, smalls;
      NoChunkAtZero(heap, row, base, limit, top, topsize);
      var dvs := dvsize;
      VictimFacts(heap, row, base, limit, top, topsize, smalls, nodes, dv, dvsize, out);
      KeptHow(row, smalls, nodes, dv, dvsize, out, p);
      ghost var out1 := out;
      NothingChanged(heap, InUse(row));
      if dvs != 0 {
        VictimOut(row, smalls, nodes, dv, dvsize, out);
        out1 := out + {dv};
        InsertSmallChunk(dv, dvs);
        SmallSpares(h0, heap, row, base, limit, top, topsize, smalls0, nodes, 0, 0, out1, dv);
        SmallIn(row, smalls0, smalls, nodes, 0, 0, out1, dv);
        LinksFrame(h0, heap, row, smalls0, nodes, 0, 0, out1, dv);
        LinksRest(h0, heap, smalls0, dv);
        assert out1 - {dv} == out;
      }
      dvsize := s;
      dv := p;
      FreeChunk(h0, row, base, limit, top, topsize, p);
      VictimIn(row, smalls, nodes, out, p);
      TilingFrame(h0, heap, row, base, limit, top, topsize);
    }

    // ----- Handing out chunks -----

    /** Marks a free chunk in use, whole. */
    method SetInuseAndPinuse(p: int, s: nat, ghost out: set<int>)
      requires Sound(out) && p in out && row[p].size == s
      modifies this`heap, this`row
      ensures Sound(out - {p}) && row == old(row)[p := Tile(s, true)] && InUse(row) == InUse(old(row))[p := s]
      ensures Spares(old(heap), heap, InUse(old(row)))
    {
      hide Spares;
      hide Within;
      hide Marks;
      hide TriesOk;
      hide SmallsOk;
      hide BinsOk;
      hide Tiling;
      hide Filed;
      hide InUse;
      ghost var h0 := heap;
      KeptHow(row, smalls, nodes, dv, dvsize, out, p);
      ghost var n := End(row, p);
      FreeChunk(heap, row, base, limit, top, topsize, p);
      heap := heap.(head := heap.head[p := s + 3]);
      heap := heap.(head := heap.head[p + s := SetBit0(At(heap.head, p + s))]);
      WholeSpares(h0, heap, row, base, limit, top, topsize, p);
      EvenSize(h0, row, base, limit, top, topsize, n);
      UseWhole(h0, heap, row, base, limit, top, topsize, p);
      HeadsFrame(h0, heap, row, Marks(smallmap), smalls, nodes, dv, dvsize, out, {p, n});
      FiledWhole(row, smalls, nodes, dv, dvsize, out, p);
      row := row[p := Tile(s, true)];
    }

    /** Marks the first nb bytes of a free chunk in use; gives the free rest. */
    method SplitChunk(p: int, s: nat, nb: nat, ghost out: set<int>) returns (r: int)
      requires Sound(out) && p in out && row[p].size == s && Splits(row, p, nb)
      modifies this`heap, this`row
      ensures r == p + nb && r !in old(row) && row == PartRow(old(row), p, nb) && Sound(out - {p} + {r})
      ensures InUse(row) == InUse(old(row))[p := nb]
      ensures Spares(old(heap), heap, InUse(old(row)))
    {
      hide Spares;
      hide Within;
      hide Marks;
      hide TriesOk;
      hide SmallsOk;
      hide BinsOk;
      hide Tiling;
      hide Filed;
      hide InUse;
      ghost var h0 := heap;
      KeptHow(row, smalls, nodes, dv, dvsize, out, p);
      FreeChunk(heap, row, base, limit, top, topsize, p);
      InsideChunk(heap, row, base, limit, top, topsize, p, nb);
      NoChunkAtZero(heap, row, base, limit, top, topsize);
      r := p + nb;
      heap := heap.(head := heap.head[p := nb + 3]);
      heap := heap.(head := heap.head[r := s - nb + 1], prevFoot := heap.prevFoot[r + (s - nb) := s - nb]);
      PartSpares(h0, heap, row, base, limit, top, topsize, p, nb);
      UsePart(h0, heap, row, base, limit, top, topsize, p, nb);
      HeadsFrame(h0, heap, row, Marks(smallmap), smalls, nodes, dv, dvsize, out, {p, r});
      FiledPart(row, smalls, nodes, dv, dvsize, out, p, nb);
      row := PartRow(row, p, nb);
    }

    /** Marks the first nb bytes of the top chunk in use. */
    method SplitTop(nb: nat) returns (p: int)
      requires Consistent() && MIN_CHUNK_SIZE <= nb < topsize && nb % ALIGNMENT == 0
      modifies this`heap, this`row, this`top, this`topsize
      ensures p == old(top) && p !in old(row) && row == old(row)[p := Tile(nb, true)] && Consistent()
      ensures top == p + nb && topsize == old(topsize) - nb
      ensures InUse(row) == InUse(old(row))[p := nb]
      ensures Spares(old(heap), heap, InUse(old(row)))
    {
      hide Spares;
      hide Within;
      hide Marks;
      hide TriesOk;
      hide SmallsOk;
      hide BinsOk;
      hide Tiling;
      hide Filed;
      hide InUse;
      ghost var h0, size0 := heap, topsize;
      TopApart(heap, row, base, limit, top, topsize);
      var rsize := topsize - nb;
      topsize := rsize;
      p := top;
      top := p + nb;
      heap := heap.(head := heap.head[top := rsize + 1]);
      heap := heap.(head := heap.head[p := nb + 3]);
      TopSpares(h0, heap, row, base, limit, p, size0, nb);
      UseTop(h0, heap, row, base, limit, p, size0, nb);
      HeadsFrame(h0, heap, row, Marks(smallmap), smalls, nodes, dv, dvsize, {}, {p, top});
      FiledTop(row, smalls, nodes, dv, dvsize, p, nb);
      row := row[p := Tile(nb, true)];
    }

    /** Marks the first nb bytes of the designated victim in use; the rest is the new victim. */
    method SplitVictim(nb: nat) returns (p: int)
      requires Consistent() && dv != 0 && MIN_CHUNK_SIZE <= nb && nb % ALIGNMENT == 0 && dvsize - nb >= MIN_CHUNK_SIZE
      modifies this`heap, this`row, this`dv, this`dvsize
      ensures p == old(dv) && Free(old(row), p) && old(row)[p].size == old(dvsize) && Consistent()
      ensures p in row && row[p] == Tile(nb, true) && InUse(row) == InUse(old(row))[p := nb]
      ensures dv == p + nb && dvsize == old(dvsize) - nb
      ensures Spares(old(heap), heap, InUse(old(row)))
    {
      hide Spares;
      hide Within;
      hide Marks;
      hide TriesOk;
      hide SmallsOk;
      hide BinsOk;
      hide Tiling;
      hide Filed;
      hide InUse;
      ghost var h0, s := heap, dvsize;
      VictimFacts(heap, row, base, limit, top, topsize, smalls, nodes, dv, dvsize, {});
      InsideChunk(heap, row, base, limit, top, topsize, dv, nb);
      NoChunkAtZero(heap, row, base, limit, top, topsize);
      FreeChunk(heap, row, base, limit, top, topsize, dv);
      VictimOut(row, smalls, nodes, dv, dvsize, {});
      assert {} + {dv} == {dv};
      var rsize := dvsize - nb;
      p := dv;
      var r := p + nb;
      dv := r;
      dvsize := rsize;
      heap := heap.(head := heap.head[r := rsize + 1], prevFoot := heap.prevFoot[r + rsize := rsize]);
      heap := heap.(head := heap.head[p := nb + 3]);
      PartSpares(h0, heap, row, base, limit, top, topsize, p, nb);
      UsePart(h0, heap, row, base, limit, top, topsize, p, nb);
      HeadsFrame(h0, heap, row, Marks(smallmap), smalls, nodes, p, s, {}, {p, r});
      FiledPart(row, smalls, nodes, 0, 0, {p}, p, nb);
      assert {p} - {p} + {r} == {r};
      row := PartRow(row, p, nb);
      NoChunkAtZero(heap, row, base, limit, top, topsize);
      VictimIn(row, smalls, nodes, {r}, r);
      assert {r} - {r} == {};
    }

    /** Marks all of the designated victim in use. */
    method ExhaustVictim() returns (p: int)
      requires Consistent() && dv != 0
      modifies this`heap, this`row, this`dv, this`dvsize
      ensures p == old(dv) && Free(old(row), p) && old(row)[p].size == old(dvsize) && Consistent()
      ensures p in row && row[p] == Tile(old(dvsize), true) && InUse(row) == InUse(old(row))[p := old(dvsize)]
      ensures dv == 0 && dvsize == 0
      ensures Spares(old(heap), heap, InUse(old(row)))
    {
      hide Spares;
      hide Within;
      hide Marks;
      hide TriesOk;
      hide SmallsOk;
      hide BinsOk;
      hide Tiling;
      hide Filed;
      hide InUse;
      VictimFacts(heap, row, base, limit, top, topsize, smalls, nodes, dv, dvsize, {});
      NoChunkAtZero(heap, row, base, limit, top, topsize);
      VictimOut(row, smalls, nodes, dv, dvsize, {});
      p := dv;
      var dvs := dvsize;
      dvsize := 0;
      dv := 0;
      assert {} + {p} == {p};
      SetInuseAndPinuse(p, dvs, {p});
      assert {p} - {p} == {};
    }

    // ----- Allocating from the tree bins -----

    /** Takes v, already found, and hands out its first nb bytes; a rest too small to be a chunk stays with it. */
    method TakeFit(v: int, rsize: int, nb: nat) returns (r: int)
      requires Consistent() && Free(row, v) && v != dv && row[v].size == rsize + nb && rsize >= 0
      requires MIN_CHUNK_SIZE <= nb && nb % ALIGNMENT == 0
      modifies this`heap, this`treebins, this`treemap, this`nodes, this`smallmap, this`smalls, this`row
      ensures v in row && row[v] == Tile(if rsize < MIN_CHUNK_SIZE then rsize + nb else nb, true)
      ensures InUse(row) == InUse(old(row))[v := row[v].size]
      ensures if rsize < MIN_CHUNK_SIZE then r == 0 && Consistent()
              else r == v + nb && Sound({r}) && row[r].size == rsize
      ensures Spares(old(heap), heap, InUse(old(row)))
    {
      hide Spares;
      hide Within;
      hide Marks;
      hide TriesOk;
      hide SmallsOk;
      hide BinsOk;
      hide Tiling;
      hide Filed;
      hide InUse;
      ghost var h0, kept := heap, InUse(row);
      UnlinkChunk(v, rsize + nb, {});
      ghost var h1 := heap;
      SelfWithin(kept);
      assert {} + {v} == {v};
      if rsize < MIN_CHUNK_SIZE {
        SetInuseAndPinuse(v, rsize + nb, {v});
        assert {v} - {v} == {};
        r := 0;
      } else {
        r := SplitChunk(v, rsize + nb, nb, {v});
        assert {v} - {v} + {r} == {r};
      }
      SparesThen(h0, h1, heap, kept, kept, kept);
    }

    /** Serves a large request from the best fitting tree chunk, unless the victim fits as well. */
    method TmallocLarge(nb: nat) returns (p: int)
      requires Consistent() && MIN_LARGE_SIZE <= nb < WORD && nb % ALIGNMENT == 0
      modifies this`heap, this`treebins, this`treemap, this`nodes, this`smallmap, this`smalls, this`row
      ensures Consistent()
      ensures p == 0 <==> Tightest(old(row), nb, dv) || NoneFits(old(row), nb)
      ensures p == 0 ==> unchanged(this)
      ensures p != 0 ==> Allocated(old(row), row, nb, p) && Tightest(old(row), nb, p) && p != dv
      ensures p != 0 ==> InTurn(old(heap), old(nodes), old(smalls), p)
      ensures Spares(old(heap), heap, InUse(old(row)))
    {
      hide Spares;
      hide Within;
      NothingChanged(heap, InUse(row));
      hide InTurn;
      hide Marks;
      hide TriesOk;
      hide SmallsOk;
      hide BinsOk;
      hide Tiling;
      hide Filed;
      hide InUse;
      hide Candidate;
      hide Best;
      var v, rsize := SearchLarge(nb);
      LargeFits(heap, row, base, limit, top, topsize, smalls, nodes, dv, dvsize, nb, v, rsize);
      p := 0;
      if v != 0 && rsize < Minus(dvsize, nb) {
        TreeInTurn(heap, row, smalls, nodes, dv, dvsize, nb, v, rsize);
        FreeNotInUse(row, v);
        ghost var h0, kept := heap, InUse(row);
        var r := TakeFit(v, rsize, nb);
        ghost var h1 := heap;
        if rsize >= MIN_CHUNK_SIZE {
          InsertChunk(r, rsize, {r});
          WithinMore(kept, v, row[v].size);
          SelfWithin(kept);
          SparesThen(h0, h1, heap, kept, InUse(row), kept);
          assert {r} - {r} == {};
        }
        p := v;
      }
    }

    /** Serves a small request from the smallest tree chunk; the rest becomes the designated victim. */
    method TmallocSmall(nb: nat) returns (p: int)
      requires Consistent() && treemap != 0 && MIN_CHUNK_SIZE <= nb < MIN_LARGE_SIZE && nb % ALIGNMENT == 0
      requires dvsize < nb
      modifies this`heap, this`treebins, this`treemap, this`nodes, this`smallmap, this`smalls, this`row
      modifies this`dv, this`dvsize
      ensures Consistent() && Allocated(old(row), row, nb, p) && Free(old(row), p) && old(row)[p].size >= nb
              && p != old(dv)
      ensures forall a | Binned(old(nodes), a) :: Free(old(row), a) && old(row)[p].size <= old(row)[a].size
      ensures Remaindered(old(row)[p].size, nb, p, old(dv), old(dvsize), dv, dvsize)
      ensures InTurn(old(heap), old(nodes), old(smalls), p)
      ensures Spares(old(heap), heap, InUse(old(row)))
    {
      hide Spares;
      hide Within;
      hide InTurn;
      hide LeastBit;
      hide TrailingZeros;
      hide Marks;
      hide TriesOk;
      hide SmallsOk;
      hide BinsOk;
      hide Tiling;
      hide Filed;
      hide InUse;
      hide Candidate;
      hide Best;
      hide Pending;
      hide Binned;
      ZeroIsEmpty(treemap);
      LeastMarked(treemap);
      var i := TrailingZeros(LeastBit(treemap));
      FirstBin(heap, treebins, Marks(treemap), nodes, nb, i);
      var v := treebins[i];
      var rsize := SizeIn(At(heap.head, v)) - nb;
      var l := At(heap.child, (v, false));
      var t := if l != 0 then l else At(heap.child, (v, true));
      v, rsize := SearchSubtree(nb, v, rsize, t, Leftmost(nodes, Root(i)));
      SomeFits(heap, nodes, nb, v, Root(i));
      FoundChunk(heap, row, base, limit, top, topsize, smalls, nodes, dv, dvsize, nb, v, rsize);
      FreeNotInUse(row, v);
      SmallestTree(heap, row, base, limit, top, topsize, smalls, nodes, dv, dvsize, nb, v);
      TreeInTurn(heap, row, smalls, nodes, dv, dvsize, nb, v, rsize);
      ghost var h0, kept := heap, InUse(row);
      var r := TakeFit(v, rsize, nb);
      ghost var h1 := heap;
      if rsize >= MIN_CHUNK_SIZE {
        WithinMore(kept, v, row[v].size);
        SelfWithin(kept);
        ReplaceDv(r, rsize, {r});
        SparesThen(h0, h1, heap, kept, InUse(row), kept);
        assert {r} - {r} == {};
      }
      p := v;
    }

    // ----- malloc -----

    /** Serves a small request from the front of small bin i, whose chunks are large enough. */
    method TakeSmall(i: nat, nb: nat) returns (p: int)
      requires Consistent() && i in Marks(smallmap) && nb <= 8 * i && MIN_CHUNK_SIZE <= nb && nb % ALIGNMENT == 0
      requires 8 * i - nb < MIN_CHUNK_SIZE || dvsize < nb < MIN_LARGE_SIZE
      modifies this`heap, this`smallmap, this`smalls, this`row, this`dv, this`dvsize
      ensures Consistent() && Allocated(old(row), row, nb, p) && Free(old(row), p) && p != old(dv)
              && old(row)[p].size == 8 * i
      ensures Remaindered(8 * i, nb, p, old(dv), old(dvsize), dv, dvsize)
      ensures InTurn(old(heap), old(nodes), old(smalls), p)
      ensures Spares(old(heap), heap, InUse(old(row)))
    {
      hide Spares;
      hide Within;
      hide InTurn;
      hide Marks;
      hide TriesOk;
      hide SmallsOk;
      hide BinsOk;
      hide Tiling;
      hide Filed;
      hide InUse;
      hide InSmall;
      hide Binned;
      hide LinksOnly;
      ghost var h0, smalls0 := heap, smalls;
      p := UnlinkFirstSmallChunk(i);
      KeptHow(row, smalls0, nodes, dv, dvsize, {}, p);
      SmallInTurn(h0, row, smalls0, nodes, dv, dvsize, i, p);
      FreeChunk(h0, row, base, limit, top, topsize, p);
      FreeNotInUse(row, p);
      SmallOut(row, smalls0, smalls, nodes, dv, dvsize, {}, p);
      LinksFrame(h0, heap, row, smalls0, nodes, dv, dvsize, {}, p);
      LinksRest(h0, heap, smalls0, p);
      TilingFrame(h0, heap, row, base, limit, top, topsize);
      SmallSpares(h0, heap, row, base, limit, top, topsize, smalls0, nodes, dv, dvsize, {}, p);
      ghost var h1, kept := heap, InUse(row);
      SelfWithin(kept);
      assert {} + {p} == {p};
      var rsize := 8 * i - nb;
      if rsize < MIN_CHUNK_SIZE {
        SetInuseAndPinuse(p, 8 * i, {p});
        SparesThen(h0, h1, heap, kept, kept, kept);
        assert {p} - {p} == {};
      } else {
        var r := SplitChunk(p, 8 * i, nb, {p});
        SparesThen(h0, h1, heap, kept, kept, kept);
        ghost var h2 := heap;
        WithinMore(kept, p, nb);
        assert {p} - {p} + {r} == {r};
        ReplaceDv(r, rsize, {r});
        SparesThen(h0, h2, heap, kept, InUse(row), kept);
        assert {r} - {r} == {};
      }
    }

    /** Serves a request of nb bytes from the designated victim. */
    method TakeVictim(nb: nat) returns (p: int)
      requires Consistent() && nb <= dvsize && MIN_CHUNK_SIZE <= nb && nb % ALIGNMENT == 0
      modifies this`heap, this`row, this`dv, this`dvsize
      ensures Consistent() && p == old(dv) && Free(old(row), p) && Allocated(old(row), row, nb, p)
      ensures if old(dvsize) - nb >= 32 then dv == p + nb && dvsize == old(dvsize) - nb else dv == 0 && dvsize == 0
      ensures Spares(old(heap), heap, InUse(old(row)))
    {
      hide Spares;
      hide Within;
      hide Marks;
      hide TriesOk;
      hide SmallsOk;
      hide BinsOk;
      hide Tiling;
      hide Filed;
      hide InUse;
      VictimFacts(heap, row, base, limit, top, topsize, smalls, nodes, dv, dvsize, {});
      FreeNotInUse(row, dv);
      if dvsize - nb >= MIN_CHUNK_SIZE {
        p := SplitVictim(nb);
      } else {
        p := ExhaustVictim();
      }
    }

    /** Serves a small request from a bin; 0 if the victim is to serve it, or no bin can. */
    method MallocSmall(nb: nat) returns (p: int)
      requires Consistent() && MIN_CHUNK_SIZE <= nb < MIN_LARGE_SIZE && nb % ALIGNMENT == 0
      modifies this
      ensures Consistent()
      ensures p != 0 ==> Allocated(old(row), row, nb, p) && Free(old(row), p) && old(row)[p].size >= nb
      ensures p != 0 ==> SmallChoice(old(row), old(dv), old(dvsize), nb, p)
      ensures p == 0 ==> unchanged(this) && (if nb <= dvsize then NoneExact(row, dv, nb) else NoneFits(row, nb))
      ensures p != 0 ==> InTurn(old(heap), old(nodes), old(smalls), p) && top == old(top) && topsize == old(topsize)
      ensures p != 0 ==> p != old(dv) && Remaindered(old(row)[p].size, nb, p, old(dv), old(dvsize), dv, dvsize)
      ensures Spares(old(heap), heap, InUse(old(row)))
    {
      hide Spares;
      hide Within;
      NothingChanged(heap, InUse(row));
      hide InTurn;
      hide InUse;
      hide Binned;
      hide Remaindered;
      hide And;
      hide LeftBits;
      hide LeastBit;
      hide Idx2Bit;
      hide TrailingZeros;
      hide Not;
      hide ShiftRight;
      hide ShiftLeft;
      hide Marks;
      hide TriesOk;
      hide SmallsOk;
      hide BinsOk;
      hide Tiling;
      hide Filed;
      hide Allocated;
      NoChunkAtZero(heap, row, base, limit, top, topsize);
      MarksBound(heap, Marks(smallmap), smalls);
      SmallBinsSay(heap, row, base, limit, top, topsize, Marks(smallmap), smalls, nodes, dv, dvsize, nb);
      VictimFacts(heap, row, base, limit, top, topsize, smalls, nodes, dv, dvsize, {});
      ghost var row0 := row;
      var idx := nb / 8;
      p := 0;
      var smallbits := ShiftRight(smallmap, idx);
      SmallMapSays(smallmap, idx);
      if And(smallbits, 3) != 0 {
        if And(Not(smallbits), 1) != 0 { idx := idx + 1; }
        p := TakeSmall(idx, nb);
      } else if nb > dvsize {
        NextSmallMarked(smallmap, idx);
        if smallbits != 0 {
          var i := TrailingZeros(LeastBit(And(ShiftLeft(smallbits, idx), LeftBits(Idx2Bit(idx)))));
          p := TakeSmall(i, nb);
          assert Tightest(row0, nb, p);
        } else if treemap != 0 {
          p := TmallocSmall(nb);
          assert Tightest(row0, nb, p);
        } else {
          ZeroIsEmpty(treemap);
          NothingSmall(heap, row, base, limit, top, topsize, treebins, Marks(treemap), Marks(smallmap),
              smalls, nodes, dv, dvsize, nb);
        }
      }
    }

    /** Serves a request that no bin serves: from the designated victim, or from the top chunk. */
    method TakeRest(nb: nat) returns (p: int)
      requires Consistent() && MIN_CHUNK_SIZE <= nb && (nb % ALIGNMENT == 0 || nb >= MAX_SIZE)
      modifies this
      ensures Consistent()
      ensures p != 0 ==> Allocated(old(row), row, nb, p)
      ensures p != 0 ==>
                if nb <= old(dvsize) then p == old(dv) && Free(old(row), p) && old(row)[p].size == old(dvsize)
                else p == old(top)
      ensures p == 0 <==> nb > old(dvsize) && nb >= old(topsize)
      ensures p == 0 ==> unchanged(this)
      ensures p != 0 ==> Rest(nb, old(Reserves()), Reserves())
      ensures p != 0 ==> InTurn(old(heap), old(nodes), old(smalls), p)
      ensures Spares(old(heap), heap, InUse(old(row)))
    {
      hide Spares;
      hide Within;
      NothingChanged(heap, InUse(row));
      hide InTurn;
      hide Marks;
      hide TriesOk;
      hide SmallsOk;
      hide BinsOk;
      hide Tiling;
      hide Filed;
      hide InUse;
      Bounds(heap, row, base, limit, top, topsize);
      NoChunkAtZero(heap, row, base, limit, top, topsize);
      VictimFacts(heap, row, base, limit, top, topsize, smalls, nodes, dv, dvsize, {});
      TopApart(heap, row, base, limit, top, topsize);
      FreeNotInUse(row, top);
      RestInTurn(heap, row, base, limit, top, topsize, smalls, nodes, dv, dvsize);
      p := 0;
      if nb <= dvsize {
        p := TakeVictim(nb);
      } else if nb < topsize {
        p := SplitTop(nb);
      }
    }

    /** The first half of malloc: serves a request from a bin where that is to be done. */
    method MallocFromBins(bytes: nat) returns (p: int, nb: nat)
      requires Consistent() && bytes < WORD
      modifies this
      ensures Consistent() && nb == Request(bytes)
      ensures p != 0 ==> Allocated(old(row), row, nb, p) && Free(old(row), p) && old(row)[p].size >= nb
      ensures p != 0 ==> Chosen(old(row), old(dv), old(dvsize), bytes, p) && p != old(dv)
      ensures p != 0 ==> top == old(top) && topsize == old(topsize)
      ensures p != 0 ==> if bytes <= 232 then Remaindered(old(row)[p].size, nb, p, old(dv), old(dvsize), dv, dvsize)
                         else dv == old(dv) && dvsize == old(dvsize)
      ensures p == 0 ==>
                unchanged(this) && (if nb <= dvsize then Chosen(row, dv, dvsize, bytes, dv) else NoneFits(row, nb))
      ensures p != 0 ==> InTurn(old(heap), old(nodes), old(smalls), p)
      ensures Spares(old(heap), heap, InUse(old(row)))
    {
      hide Spares;
      hide Within;
      NothingChanged(heap, InUse(row));
      hide InTurn;
      hide Marks;
      hide TriesOk;
      hide SmallsOk;
      hide BinsOk;
      hide Tiling;
      hide Filed;
      hide Allocated;
      hide Remaindered;
      hide PadRequest;
      RequestFits(bytes);
      NoChunkAtZero(heap, row, base, limit, top, topsize);
      Bounds(heap, row, base, limit, top, topsize);
      VictimFacts(heap, row, base, limit, top, topsize, smalls, nodes, dv, dvsize, {});
      p := 0;
      if bytes <= MAX_SMALL_REQUEST {
        nb := if bytes < MIN_REQUEST then MIN_CHUNK_SIZE else PadRequest(bytes);
        p := MallocSmall(nb);
      } else if bytes >= MAX_REQUEST {
        nb := WORD - 1;
      } else {
        nb := PadRequest(bytes);
        if treemap != 0 {
          p := TmallocLarge(nb);
        } else {
          ZeroIsEmpty(treemap);
          NothingLarge(heap, row, base, limit, top, topsize, treebins, Marks(treemap), Marks(smallmap),
              smalls, nodes, dv, dvsize, nb);
        }
      }
    }

    /** Allocates at least the given number of bytes from the segment; 0 if it has no room, where
        the program would go on to ask for more memory. */
    method DlMalloc(bytes: nat) returns (mem: int)
      requires Consistent() && bytes < WORD
      modifies this
      ensures Consistent()
      ensures mem != 0 ==> mem % 16 == 0 && Allocated(old(row), row, Request(bytes), mem - 16)
      ensures mem != 0 ==>
                if mem - 16 == old(top) then NoneFits(old(row), Request(bytes))
                else Chosen(old(row), old(dv), old(dvsize), bytes, mem - 16)
      ensures mem == 0 <==> NoneFits(old(row), Request(bytes)) && old(topsize) <= Request(bytes)
      ensures mem == 0 ==> unchanged(this)
      ensures mem != 0 ==> Leaves(old(row), bytes, mem - 16, old(Reserves()), Reserves())
      ensures mem != 0 ==> InTurn(old(heap), old(nodes), old(smalls), mem - 16)
      ensures Spares(old(heap), heap, InUse(old(row)))
    {
      hide Spares;
      hide Within;
      NothingChanged(heap, InUse(row));
      hide InTurn;
      hide Marks;
      hide TriesOk;
      hide SmallsOk;
      hide BinsOk;
      hide Tiling;
      hide Filed;
      hide Allocated;
      hide InUse;
      hide Request;
      hide Chosen;
      hide Leaves;
      hide Rest;
      hide Remaindered;
      RequestFits(bytes);
      TopApart(heap, row, base, limit, top, topsize);
      VictimFacts(heap, row, base, limit, top, topsize, smalls, nodes, dv, dvsize, {});
      Bounds(heap, row, base, limit, top, topsize);
      ghost var row0 := row;
      ghost var r0 := Reserves();
      var p, nb := MallocFromBins(bytes);
      if p == 0 {
        p := TakeRest(nb);
        if p != 0 { RestLeaves(row0, bytes, p, r0, Reserves()); }
      } else {
        BinLeaves(row0, bytes, p, r0, Reserves());
      }
      if p == 0 {
        mem := 0;
      } else {
        AllocatedPlace(heap, row0, row, base, limit, top, topsize, nb, p);
        mem := p + 16;
      }
    }

    // ----- free -----

    /** Makes the chunks from q up to e one free chunk, by the head and foot words already written. */
    ghost method BookFreed(h0: Heap, p: int, q: int, e: int, out: set<int>, dv0: int, dvsize0: int)
      requires Tiling(h0, row, base, limit, top, topsize) && Around(h0, row, p, q, e) && e in row && row[e].inuse
      requires TriesOk(h0, nodes) && SmallsOk(h0, Marks(smallmap), smalls)
               && Filed(row, smalls, nodes, dv0, dvsize0, out)
      requires Absorbed(row, p, q, e, out, dv0)
      requires heap == FreedWords(h0, q, e, row[e].size)
      modifies this`row
      ensures q < e && row == Released(old(row), q, e) && Free(row, q) && row[q].size == e - q
      ensures Tiling(heap, row, base, limit, top, topsize) && InUse(row) == InUse(old(row)) - {p}
      ensures TriesOk(heap, nodes) && SmallsOk(heap, Marks(smallmap), smalls)
      ensures var gone := dv0 != 0 && q <= dv0 < e;
              Filed(row, smalls, nodes, if gone then 0 else dv0, if gone then 0 else dvsize0, {q})
      ensures Spares(h0, heap, InUse(row))
    {
      hide Spares;
      hide Marks;
      hide TriesOk;
      hide SmallsOk;
      hide Tiling;
      hide Filed;
      hide InUse;
      hide Around;
      AroundIsReleasable(h0, row, base, limit, top, topsize, p, q, e);
      InRow(row, p, q, e);
      FreedSpares(h0, heap, row, base, limit, top, topsize, p, q, e);
      InUseReleased(row, p, q, e);
      NoChunkAtZero(h0, row, base, limit, top, topsize);
      Release(h0, heap, row, base, limit, top, topsize, p, q, e);
      FiledFreed(row, smalls, nodes, dv0, dvsize0, out, p, q, e);
      AbsorbedHead(row, p, q, e, out, dv0);
      HeadsFrame(h0, heap, row, Marks(smallmap), smalls, nodes, dv0, dvsize0, out, {q, e});
      row := Released(row, q, e);
    }

    /** Writes the head and foot words of a free chunk. */
    method SetSizeAndPinuseOfFreeChunk(p: int, s: int)
      modifies this`heap
      ensures heap == old(heap).(head := old(heap).head[p := s + 1], prevFoot := old(heap).prevFoot[p + s := s])
    {
      heap := heap.(head := heap.head[p := s + 1], prevFoot := heap.prevFoot[p + s := s]);
    }

    /** The same, and tells the chunk after it, at n, that it is free. */
    method SetFreeWithPinuse(p: int, s: int, n: int)
      modifies this`heap
      ensures heap == old(heap).(head := old(heap).head[n := ClearBit0(At(old(heap).head, n))][p := s + 1],
                prevFoot := old(heap).prevFoot[p + s := s])
    {
      heap := heap.(head := heap.head[n := ClearBit0(At(heap.head, n))]);
      SetSizeAndPinuseOfFreeChunk(p, s);
    }

    /** Frees p into the victim q before it, the chunk after p being in use. */
    method FreeIntoVictimBefore(ghost p: int, q: int, psize: nat, next: int)
      requires Consistent() && Around(heap, row, p, q, next) && q == dv != p && next == End(row, p) && psize == next - q
      requires next in row && row[next].inuse
      modifies this`heap, this`row, this`dvsize
      ensures Consistent() && InUse(row) == InUse(old(row)) - {p} && dvsize == psize
      ensures Spares(old(heap), heap, InUse(row))
    {
      hide Spares;
      hide Within;
      hide Marks;
      hide TriesOk;
      hide SmallsOk;
      hide BinsOk;
      hide Tiling;
      hide Filed;
      hide InUse;
      ghost var h0, dvs := heap, dvsize;
      NoChunkAtZero(heap, row, base, limit, top, topsize);
      NextBits(heap, row, base, limit, top, topsize, p);
      AroundIsReleasable(heap, row, base, limit, top, topsize, p, q, next);
      dvsize := psize;
      SetFreeWithPinuse(q, psize, next);
      BookFreed(h0, p, q, next, {}, dv, dvs);
      NoChunkAtZero(heap, row, base, limit, top, topsize);
      VictimIn(row, smalls, nodes, {q}, q);
      assert {q} - {q} == {};
    }

    /** Frees p, merged with a free chunk q before it if they differ, into the top chunk. */
    method FreeIntoTop(ghost p: int, q: int, psize: nat, ghost out: set<int>)
      requires Sound(out) && Around(heap, row, p, q, top) && top == End(row, p) && psize == top - q
               && Absorbed(row, p, q, top, out, dv)
      modifies this`heap, this`row, this`top, this`topsize, this`dv, this`dvsize
      ensures Consistent() && InUse(row) == InUse(old(row)) - {p} && top == q && topsize == old(topsize) + psize
      ensures if q == old(dv) then dv == 0 && dvsize == 0 else dv == old(dv) && dvsize == old(dvsize)
      ensures Spares(old(heap), heap, InUse(row))
    {
      hide Spares;
      hide Within;
      hide Marks;
      hide TriesOk;
      hide SmallsOk;
      hide BinsOk;
      hide Tiling;
      hide Filed;
      hide InUse;
      ghost var h0, top0, size0, dv0, dvs := heap, top, topsize, dv, dvsize;
      NoChunkAtZero(heap, row, base, limit, top, topsize);
      TopWord(heap, row, base, limit, top, topsize);
      AroundIsReleasable(heap, row, base, limit, top, topsize, p, q, top);
      InRow(row, p, q, top);
      AbsorbedHead(row, p, q, top, out, dv);
      VictimFacts(heap, row, base, limit, top, topsize, smalls, nodes, dv, dvsize, out);
      topsize := topsize + psize;
      var tsize := topsize;
      top := q;
      heap := heap.(head := heap.head[q := tsize + 1]);
      if q == dv {
        dv := 0;
        dvsize := 0;
      }
      TopTakes(h0, heap, row, base, limit, top0, size0, Marks(smallmap), smalls, nodes, dv0, dvs, out, p, q);
      row := Emptied(row, q, top0);
    }

    /** Frees p, merged with a free chunk q before it if they differ, into the victim after it. */
    method FreeIntoVictimAfter(ghost p: int, q: int, psize: nat, next: int, ghost out: set<int>)
      requires Sound(out) && Around(heap, row, p, q, next) && next == End(row, p) == dv && psize == next - q
               && Absorbed(row, p, q, next, out, dv)
      requires dv != 0
      modifies this`heap, this`row, this`dv, this`dvsize
      ensures Consistent() && InUse(row) == InUse(old(row)) - {p} && dv == q && dvsize == old(dvsize) + psize
      ensures Spares(old(heap), heap, InUse(row))
    {
      hide Spares;
      hide Within;
      hide Marks;
      hide TriesOk;
      hide SmallsOk;
      hide BinsOk;
      hide Tiling;
      hide Filed;
      hide InUse;
      ghost var h0, dvs := heap, dvsize;
      VictimFacts(heap, row, base, limit, top, topsize, smalls, nodes, dv, dvsize, out);
      ghost var e := End(row, next);
      AroundIsReleasable(heap, row, base, limit, top, topsize, p, q, e);
      dvsize := dvsize + psize;
      var dsize := dvsize;
      dv := q;
      SetSizeAndPinuseOfFreeChunk(q, dsize);
      SameWord(h0, e, row[e].size + 2);
      BookFreed(h0, p, q, e, out, next, dvs);
      NoChunkAtZero(heap, row, base, limit, top, topsize);
      VictimIn(row, smalls, nodes, {q}, q);
      assert {q} - {q} == {};
    }

    /** Frees p, merged with the free chunk after it and with one before it if q is not p; the
        result is free and out of the bins, or is the victim if q was. */
    method ConsolidateForward(ghost p: int, q: int, psize0: nat, next: int, ghost out: set<int>) returns (psize: nat)
      requires Sound(out) && Around(heap, row, p, q, next) && next == End(row, p) && psize0 == next - q
               && Absorbed(row, p, q, next, out, dv)
      requires Free(row, next) && next != dv
      modifies this`heap, this`treebins, this`treemap, this`nodes, this`smallmap, this`smalls, this`row, this`dvsize
      ensures InUse(row) == InUse(old(row)) - {p} && Sound(if q == dv then {} else {q})
      ensures q in row && row[q].size == psize >= psize0 && dvsize == if q == dv then psize else old(dvsize)
      ensures Spares(old(heap), heap, InUse(row))
    {
      hide Spares;
      hide Within;
      hide Marks;
      hide TriesOk;
      hide SmallsOk;
      hide BinsOk;
      hide Tiling;
      hide Filed;
      hide InUse;
      hide Around;
      hide Absorbed;
      ghost var dvs := dvsize;
      ghost var e := ForwardRegion(heap, row, base, limit, top, topsize, smalls, nodes, dv, dvsize, out, p, q, next);
      var nsize := SizeIn(At(heap.head, next));
      psize := psize0 + nsize;
      ghost var before, used := heap, InUse(row);
      UnlinkChunk(next, nsize, out);
      ghost var h0 := heap;
      AroundFrame(old(heap), h0, row, p, q, e);
      SetSizeAndPinuseOfFreeChunk(q, psize);
      SameWord(h0, e, row[e].size + 2);
      BookFreed(h0, p, q, e, out + {next}, dv, dvs);
      WithinMore(used, p, 0);
      SelfWithin(InUse(row));
      SparesThen(before, h0, heap, used, InUse(row), InUse(row));
      if q == dv {
        dvsize := psize;
        NoChunkAtZero(heap, row, base, limit, top, topsize);
        VictimIn(row, smalls, nodes, {q}, q);
        assert {q} - {q} == {};
      }
    }

    /** Frees p, merged with one before it if q is not p, the chunk after it being in use. */
    method FreeAlone(ghost p: int, q: int, psize: nat, next: int, ghost out: set<int>)
      requires Sound(out) && Around(heap, row, p, q, next) && next == End(row, p) && psize == next - q
               && Absorbed(row, p, q, next, out, dv)
      requires next in row && row[next].inuse && q != dv
      modifies this`heap, this`row
      ensures InUse(row) == InUse(old(row)) - {p} && Sound({q})
      ensures q in row && row[q].size == psize
      ensures Spares(old(heap), heap, InUse(row))
    {
      hide Spares;
      hide Within;
      hide Marks;
      hide TriesOk;
      hide SmallsOk;
      hide BinsOk;
      hide Tiling;
      hide Filed;
      hide InUse;
      VictimFacts(heap, row, base, limit, top, topsize, smalls, nodes, dv, dvsize, out);
      NextBits(heap, row, base, limit, top, topsize, p);
      AroundIsReleasable(heap, row, base, limit, top, topsize, p, q, next);
      ghost var h0 := heap;
      assert dv != 0 ==> !(q <= dv < next);
      SetFreeWithPinuse(q, psize, next);
      BookFreed(h0, p, q, next, out, dv, dvsize);
    }

    /** Frees p, merged with the free chunks on either side of it, into the bins, or into the victim
        before it. */
    method FreeIntoBins(ghost p: int, q: int, psize0: nat, next: int, ghost out: set<int>)
      requires Sound(out) && Around(heap, row, p, q, next) && next == End(row, p) && psize0 == next - q
               && Absorbed(row, p, q, next, out, dv)
      requires next in row && next != dv && (q == dv ==> !row[next].inuse)
      modifies this`heap, this`treebins, this`treemap, this`nodes, this`smallmap, this`smalls, this`row, this`dvsize
      ensures Consistent() && InUse(row) == InUse(old(row)) - {p}
      ensures if q == dv then dvsize >= psize0 else dvsize == old(dvsize)
      ensures Spares(old(heap), heap, InUse(row))
    {
      hide Spares;
      hide Within;
      hide Marks;
      hide TriesOk;
      hide SmallsOk;
      hide BinsOk;
      hide Tiling;
      hide Filed;
      hide InUse;
      ghost var h0 := heap;
      var psize := psize0;
      NextBits(heap, row, base, limit, top, topsize, p);
      if At(heap.head, next) / 2 % 2 == 0 {
        psize := ConsolidateForward(p, q, psize0, next, out);
        if q == dv { return; }
      } else {
        FreeAlone(p, q, psize, next, out);
      }
      ghost var h1 := heap;
      InsertChunk(q, psize, {q});
      SelfWithin(InUse(row));
      SparesThen(h0, h1, heap, InUse(row), InUse(row), InUse(row));
      assert {q} - {q} == {};
    }

    /** Frees p, merged with a free chunk q before it if they differ, into what comes after it. */
    method FreeForward(ghost p: int, q: int, psize: nat, next: int, ghost out: set<int>)
      requires Sound(out) && Around(heap, row, p, q, next) && next == End(row, p) && psize == next - q
               && Absorbed(row, p, q, next, out, dv)
      requires q == dv ==> !(next in row && row[next].inuse)
      modifies this
      ensures Consistent() && InUse(row) == InUse(old(row)) - {p} && Spares(old(heap), heap, InUse(row))
      ensures TakesBack(p, next, old(Reserves()), Reserves())
    {
      hide Spares;
      hide Within;
      hide Marks;
      hide TriesOk;
      hide SmallsOk;
      hide BinsOk;
      hide Tiling;
      hide Filed;
      hide InUse;
      hide Around;
      hide Absorbed;
      InUseEnd(heap, row, base, limit, top, topsize, p, q, next);
      NextBits(heap, row, base, limit, top, topsize, p);
      VictimNear(heap, row, base, limit, top, topsize, smalls, nodes, dv, dvsize, out, p, q, next);
      if At(heap.head, next) / 2 % 2 == 0 && next == top {
        FreeIntoTop(p, q, psize, out);
      } else if At(heap.head, next) / 2 % 2 == 0 && next == dv {
        FreeIntoVictimAfter(p, q, psize, next, out);
      } else {
        FreeIntoBins(p, q, psize, next, out);
      }
    }

    /** Frees a chunk in use, merging it with free chunks before and after it. */
    method DlFree(mem: int)
      requires Consistent() && (mem != 0 ==> mem - 16 in InUse(row))
      modifies this
      ensures Consistent() && InUse(row) == if mem == 0 then InUse(old(row)) else InUse(old(row)) - {mem - 16}
      ensures Spares(old(heap), heap, InUse(row))
      ensures if mem == 0 then unchanged(this)
              else TakesBack(mem - 16, mem - 16 + InUse(old(row))[mem - 16], old(Reserves()), Reserves())
    {
      hide Spares;
      hide Within;
      hide Marks;
      hide TriesOk;
      hide SmallsOk;
      hide BinsOk;
      hide Tiling;
      hide Filed;
      ghost var h0, used := heap, InUse(row);
      NothingChanged(heap, used);
      if mem == 0 { return; }
      var p := mem - 16;
      ghost var p0, out := p, {};
      InUseHere(row, p);
      hide InUse;
      hide TakesBack;
      hide Around;
      hide Absorbed;
      Merging(heap, row, base, limit, top, topsize, smalls, nodes, dv, dvsize, p);
      var psize := SizeIn(At(heap.head, p));
      var next := p + psize;
      if At(heap.head, p) % 2 == 0 {
        var prevsize := At(heap.prevFoot, p);
        var prev := p - prevsize;
        psize := psize + prevsize;
        p := prev;
        if p != dv {
          UnlinkChunk(p, prevsize, {});
          AroundFrame(h0, heap, row, p0, p, next);
          out := {p};
          assert {} + {p} == {p};
        } else if At(heap.head, next) % 4 == 3 {
          VictimNear(heap, row, base, limit, top, topsize, smalls, nodes, dv, dvsize, {}, p0, p, next);
          ghost var r0 := Reserves();
          FreeIntoVictimBefore(p0, p, psize, next);
          VictimTakesBack(p0, p, next, r0, Reserves());
          return;
        }
      }
      ghost var h1 := heap;
      FreeForward(p0, p, psize, next, out);
      WithinMore(used, p0, 0);
      SelfWithin(InUse(row));
      SparesThen(h0, h1, heap, used, InUse(row), InUse(row));
    }
  }

  /** What freeing the chunk from p up to e leaves: next to the top chunk it becomes part of that, with the victim if
      that is right before it; else next to the victim it becomes part of that. */
  ghost predicate TakesBack(p: int, e: int, r: Reserve, r': Reserve) {
    var before := r.dv != 0 && r.dv + r.dvsize == p;
    if e == r.top then
      && r'.top == (if before then r.dv else r'.top) <= p && r'.top + r'.topsize == r.top + r.topsize
      && r'.dv == (if before then 0 else r.dv) && r'.dvsize == if before then 0 else r.dvsize
    else
      && r'.top == r.top && r'.topsize == r.topsize
      && if before || (r.dv != 0 && e == r.dv) then r'.dv <= p && e <= r'.dv + r'.dvsize && r'.dv != 0
         else r'.dv == r.dv && r'.dvsize == r.dvsize
  }

  lemma InUseHere(row: Row, p: int)
    requires p in InUse(row)
    ensures p in row && row[p].inuse && InUse(row)[p] == row[p].size
  {
  }

  /** What is merged from below a chunk in use, by its head and foot words. */
  lemma Merging(h: Heap, row: Row, base: int, limit: int, top: int, topsize: int, smalls: Smalls, nodes: Nodes,
                dv: int, dvsize: int, p: int)
    requires Tiling(h, row, base, limit, top, topsize) && Filed(row, smalls, nodes, dv, dvsize, {})
    requires p in row && row[p].inuse
    ensures SizeIn(At(h.head, p)) == row[p].size > 0 && dv != p && p > 0
    ensures var next, q := End(row, p), if At(h.head, p) % 2 == 0 then p - At(h.prevFoot, p) else p;
            && Around(h, row, p, q, next) && (q != p ==> Free(row, q) && row[q].size == p - q > 0)
            && Absorbed(row, p, q, next, if q == p || q == dv then {} else {q}, dv)
            && (q != p <==> At(h.head, p) % 2 == 0)
            && (At(h.head, next) % 4 == 3 <==> next in row && row[next].inuse)
            && (next == top <==> next !in row)
  {
    hide Tiling;
    var next, q := End(row, p), if At(h.head, p) % 2 == 0 then p - At(h.prevFoot, p) else p;
    InUseChunk(h, row, base, limit, top, topsize, p);
    NextBits(h, row, base, limit, top, topsize, p);
    VictimFacts(h, row, base, limit, top, topsize, smalls, nodes, dv, dvsize, {});
    NoChunkAtZero(h, row, base, limit, top, topsize);
    if q != p { FreeChunk(h, row, base, limit, top, topsize, q); }
    AroundIsReleasable(h, row, base, limit, top, topsize, p, q, next);
  }

  lemma VictimTakesBack(p: int, q: int, e: int, r: Reserve, r': Reserve)
    requires r.dv == q != 0 && q + r.dvsize == p && e != r.top && r' == r.(dvsize := e - q) && q <= p
    ensures TakesBack(p, e, r, r')
  {
  }

  lemma InUseEnd(h: Heap, row: Row, base: int, limit: int, top: int, topsize: int, p: int, q: int, e: int)
    requires Tiling(h, row, base, limit, top, topsize) && Around(h, row, p, q, e)
    ensures p in row && row[p].inuse && (End(row, p) == top || End(row, p) in row)
  {
    hide Tiling;
    InUseChunk(h, row, base, limit, top, topsize, p);
  }

  lemma VictimNear(h: Heap, row: Row, base: int, limit: int, top: int, topsize: int, smalls: Smalls, nodes: Nodes,
                   dv: int, dvsize: int, out: set<int>, p: int, q: int, e: int)
    requires Tiling(h, row, base, limit, top, topsize) && Filed(row, smalls, nodes, dv, dvsize, out)
    requires Around(h, row, p, q, e)
    ensures dv != 0 ==> (q == dv <==> dv + dvsize == p)
    ensures dv != 0 ==> Free(row, dv) && dvsize > 0
    ensures dv == 0 ==> q != dv
    ensures q <= p < p + row[p].size <= e && q > 0
  {
    hide Tiling;
    hide Filed;
    hide Around;
    VictimFacts(h, row, base, limit, top, topsize, smalls, nodes, dv, dvsize, out);
    NoChunkAtZero(h, row, base, limit, top, topsize);
    AroundPlaces(h, row, base, limit, top, topsize, p, q, e);
    if dv != 0 { BeforeIs(h, row, base, limit, top, topsize, p, q, e, dv); }
  }

  /** What merging forward covers: up to the end of the free chunk after p. */
  lemma ForwardRegion(h: Heap, row: Row, base: int, limit: int, top: int, topsize: int, smalls: Smalls, nodes: Nodes,
                      dv: int, dvsize: int, out: set<int>, p: int, q: int, next: int) returns (e: int)
    requires Tiling(h, row, base, limit, top, topsize) && Filed(row, smalls, nodes, dv, dvsize, out)
    requires Around(h, row, p, q, next) && next == End(row, p) && Absorbed(row, p, q, next, out, dv) && Free(row, next)
             && next != dv
    ensures e == next + row[next].size && Size(h, next) == row[next].size && next !in out
    ensures Around(h, row, p, q, e) && Absorbed(row, p, q, e, out + {next}, dv)
    ensures e in row && row[e].inuse && At(h.head, e) == row[e].size + 2 && q < e
    ensures dv != 0 ==> (q <= dv < e <==> q == dv)
  {
    hide Tiling;
    hide Filed;
    VictimFacts(h, row, base, limit, top, topsize, smalls, nodes, dv, dvsize, out);
    FreeChunk(h, row, base, limit, top, topsize, next);
    e := End(row, next);
    AroundIsReleasable(h, row, base, limit, top, topsize, p, q, e);
    InRow(row, p, q, e);
  }

  lemma AroundFrame(h: Heap, h': Heap, row: Row, p: int, q: int, e: int)
    requires Around(h, row, p, q, e) && h'.head == h.head
    ensures Around(h', row, p, q, e)
  {
  }

  lemma SameWord(h: Heap, a: int, w: int)
    requires At(h.head, a) == w != 0
    ensures h.head[a := w] == h.head
  {
  }

  /** The heap after a free chunk from q up to e was written, followed by a chunk of size n in use. */
  ghost function FreedWords(h: Heap, q: int, e: int, n: int): Heap {
    h.(head := h.head[e := n + 2][q := e - q + 1], prevFoot := h.prevFoot[e := e - q])
  }

  /** The chunks from q up to e other than p are out of the bins, or the victim. */
  ghost predicate Absorbed(row: Row, p: int, q: int, e: int, out: set<int>, dv: int) {
    && (forall a | a in row && q <= a < e && a != p :: a in out || (a == dv && dv != 0))
    && (forall a | a in out :: q <= a < e && a != p)
  }

  /** The top chunk has taken in the chunks from q on. */
  lemma TopTakes(h: Heap, h': Heap, row: Row, base: int, limit: int, top: int, topsize: int, marks: set<nat>,
                 smalls: Smalls, nodes: Nodes, dv: int, dvsize: int, out: set<int>, p: int, q: int)
    requires Tiling(h, row, base, limit, top, topsize) && Releasable(row, p, q, top)
             && Absorbed(row, p, q, top, out, dv)
    requires TriesOk(h, nodes) && SmallsOk(h, marks, smalls) && Filed(row, smalls, nodes, dv, dvsize, out) && 0 !in row
    requires q < top && h' == h.(head := h.head[q := limit - q + 1])
    ensures Tiling(h', Emptied(row, q, top), base, limit, q, limit - q)
    ensures InUse(Emptied(row, q, top)) == InUse(row) - {p} && Spares(h, h', InUse(Emptied(row, q, top)))
    ensures TriesOk(h', nodes) && SmallsOk(h', marks, smalls)
    ensures var gone := dv != 0 && q <= dv < top;
            Filed(Emptied(row, q, top), smalls, nodes, if gone then 0 else dv, if gone then 0 else dvsize, {})
  {
    hide Spares;
    hide TriesOk;
    hide SmallsOk;
    hide Tiling;
    hide InUse;
    ReleaseTop(h, h', row, base, limit, top, topsize, p, q);
    FreedSpares(h, h', row, base, limit, top, topsize, p, q, top);
    assert !Free(row, q) || q in out || q == dv;
    HeadsFrame(h, h', row, marks, smalls, nodes, dv, dvsize, out, {q});
    hide Filed;
    FiledInTop(row, smalls, nodes, dv, dvsize, out, p, q, top);
  }

  lemma AbsorbedHead(row: Row, p: int, q: int, e: int, out: set<int>, dv: int)
    requires Absorbed(row, p, q, e, out, dv) && q < e
    ensures q in row && q != p ==> q in out || q == dv
  {
  }

  const MAX_SMALL_REQUEST: nat := 232
  const MIN_REQUEST: nat := 23
  const MAX_REQUEST: nat := WORD - 128

  /** A request with the chunk overhead, rounded up to the alignment. */
  function PadRequest(bytes: nat): nat {
    (bytes + 8 + 15) / 16 * 16
  }

  /** The chunk size a request asks for; one that no chunk has if the request is too large. */
  function Request(bytes: nat): nat {
    if bytes <= MAX_SMALL_REQUEST then (if bytes < MIN_REQUEST then MIN_CHUNK_SIZE else PadRequest(bytes))
    else if bytes >= MAX_REQUEST then WORD - 1
    else PadRequest(bytes)
  }

  /** A request fits in the chunk asked for, with its head word, and it asks for no more than that and the
      alignment of 16 bytes and the least chunk size of 32 demand. */
  lemma RequestFits(bytes: nat)
    requires bytes < WORD
    ensures MIN_CHUNK_SIZE <= Request(bytes) < WORD && (Request(bytes) < MIN_LARGE_SIZE <==> bytes <= MAX_SMALL_REQUEST)
    ensures bytes < WORD - 128 ==>
              && bytes + 8 <= Request(bytes) && 32 <= Request(bytes) && Request(bytes) % 16 == 0
              && (Request(bytes) > 32 ==> Request(bytes) - 16 < bytes + 8)
    ensures bytes >= WORD - 128 ==> Request(bytes) == WORD - 1
  {
  }

  /** The first bin in use is where the walk to the smallest tree chunk starts. */
  lemma FirstBin(h: Heap, bins: seq<int>, marks: set<nat>, nodes: Nodes, nb: nat, i: nat)
    requires TriesOk(h, nodes) && BinsOk(bins, marks, nodes) && marks != {} && 0 < nb < MIN_LARGE_SIZE
             && i == LeastFrom(marks, 0)
    ensures i < NTREEBINS == |bins| && Root(i) in nodes && bins[i] == Head(nodes, Root(i))
    ensures var v := bins[i]; var l := At(h.child, (v, false)); var t := if l != 0 then l else At(h.child, (v, true));
            && v != 0 && Candidate(h, nodes, nb, v, Size(h, v) - nb) && SizeAt(h, nodes, Root(i)) >= nb
            && Pending(h, nodes, nb, v, t, Leftmost(nodes, Root(i)))
  {
    hide TriesOk;
    hide Leftmost;
    var b :| b in marks;
    var r := Root(i);
    NodeFacts(h, nodes, r);
    forall q | q in nodes
      ensures SizeAt(h, nodes, q) >= nb && (Under(q, r) || SizeAt(h, nodes, q) >= Lo(r) + Width(r))
    {
      FirstOrLater(h, bins, marks, nodes, i, q);
    }
    LeftmostIs(h, nodes, r);
    assert Pending(h, nodes, nb, 0, Head(nodes, r), r);
    GoesLeft(h, nodes, nb, 0, Head(nodes, r), r, Head(nodes, r));
  }

  lemma FirstOrLater(h: Heap, bins: seq<int>, marks: set<nat>, nodes: Nodes, i: nat, q: Pos)
    requires TriesOk(h, nodes) && BinsOk(bins, marks, nodes) && i == LeastFrom(marks, 0) && Root(i) in nodes
             && q in nodes
    ensures SizeAt(h, nodes, q) >= MIN_LARGE_SIZE
            && (Under(q, Root(i)) || SizeAt(h, nodes, q) >= Lo(Root(i)) + Width(Root(i)))
  {
    hide TriesOk;
    hide TreeIndex;
    hide MinSize;
    NodeFacts(h, nodes, q);
    UnderRoot(q);
    UpIsIn(h, nodes, q, Root(Bin(q)));
    BinBound(q);
    if Bin(q) != i {
      RootRange(i);
      TreeIndexBounds(SizeAt(h, nodes, q));
      if i + 1 < Bin(q) { MinSizesAscend(i + 1, Bin(q)); }
    }
  }

  lemma SomeFits(h: Heap, nodes: Nodes, nb: nat, v: int, p: Pos)
    requires Best(h, nodes, nb, v) && p in nodes && SizeAt(h, nodes, p) >= nb
    ensures v != 0
  {
  }

  lemma MarksBound(h: Heap, marks: set<nat>, smalls: Smalls)
    requires SmallsOk(h, marks, smalls)
    ensures forall i | i in marks :: i < NSMALLBINS
  {
  }

  /** No chunk is as large as the segment bound. */
  lemma Bounds(h: Heap, row: Row, base: int, limit: int, top: int, topsize: int)
    requires Tiling(h, row, base, limit, top, topsize)
    ensures topsize <= limit - base && top > 0 && top % ALIGNMENT == 0
    ensures forall a | a in row :: row[a].size < limit - base
  {
    hide Tagged;
    hide Separate;
    forall a | a in row ensures row[a].size < limit - base { ChunkBound(h, row, base, limit, top, topsize, a); }
  }

  lemma AllocatedPlace(h: Heap, row: Row, row': Row, base: int, limit: int, top: int, topsize: int, nb: nat, p: int)
    requires Tiling(h, row', base, limit, top, topsize) && Allocated(row, row', nb, p)
    ensures p > 0 && (p + 16) % ALIGNMENT == 0
  {
    ChunkFacts(h, row', base, limit, top, topsize, p);
    NotTop(h, row', base, limit, top, topsize, p);
    hide Tiling;
    AlignedSum(p, 16);
  }

  /** With no tree bin in use there is no large free chunk but the victim. */
  lemma NoTrees(h: Heap, bins: seq<int>, marks: set<nat>, nodes: Nodes)
    requires TriesOk(h, nodes) && BinsOk(bins, marks, nodes) && marks == {}
    ensures forall a :: !Binned(nodes, a)
    ensures nodes == map[]
  {
    forall q | q in nodes ensures false {
      NodeFacts(h, nodes, q);
      UnderRoot(q);
      UpIsIn(h, nodes, q, Root(Bin(q)));
      BinBound(q);
    }
  }

  /** What the small bins hold, by bin; their chunks have even indices only. */
  lemma SmallBinsSay(h: Heap, row: Row, base: int, limit: int, top: int, topsize: int, smallmap: set<nat>,
                     smalls: Smalls, nodes: Nodes, dv: int, dvsize: int, nb: nat)
    requires Tiling(h, row, base, limit, top, topsize) && SmallsOk(h, smallmap, smalls)
             && Filed(row, smalls, nodes, dv, dvsize, {})
    requires nb < MIN_LARGE_SIZE && nb % ALIGNMENT == 0
    ensures forall a | Free(row, a) && a != dv && row[a].size < MIN_LARGE_SIZE ::
              row[a].size / 8 in smallmap && row[a].size / 8 * 8 == row[a].size
    ensures forall a | Free(row, a) && a != dv && row[a].size >= MIN_LARGE_SIZE :: Binned(nodes, a)
    ensures nb / 8 + 1 !in smallmap && nb / 8 * 8 == nb
  {
    hide Tiling;
    hide SmallsOk;
    hide InSmall;
    hide Binned;
    forall a | Free(row, a) && a != dv
      ensures if row[a].size < MIN_LARGE_SIZE then row[a].size / 8 in smallmap && row[a].size / 8 * 8 == row[a].size
              else Binned(nodes, a)
    {
      KeptWhere(row, smalls, nodes, dv, dvsize, {}, a);
      FreeChunk(h, row, base, limit, top, topsize, a);
      if row[a].size < MIN_LARGE_SIZE { var i, k := SmallSize(h, smallmap, smalls, a); }
    }
    var odd := nb / 8 + 1;
    if odd in smallmap {
      MarkedBin(h, smallmap, smalls, odd);
      var x := smalls[odd][|smalls[odd]| - 1];
      KeptHow(row, smalls, nodes, dv, dvsize, {}, x);
      FreeChunk(h, row, base, limit, top, topsize, x);
      SmallNeighbours(h, smallmap, smalls, odd, |smalls[odd]| - 1);
      OddMultiple(nb, odd);
    }
  }

  lemma OddMultiple(nb: nat, odd: nat)
    requires nb % ALIGNMENT == 0 && odd == nb / 8 + 1
    ensures 8 * odd % ALIGNMENT != 0
  {
    ModUnique(nb, 8, 2 * (nb / ALIGNMENT), 0);
    ModUnique(8 * odd, ALIGNMENT, nb / ALIGNMENT, 8);
  }

  /** With all bins that could serve a small request empty, and the victim too small, nothing fits. */
  lemma NothingSmall(h: Heap, row: Row, base: int, limit: int, top: int, topsize: int, bins: seq<int>,
                     treemap: set<nat>, smallmap: set<nat>, smalls: Smalls, nodes: Nodes, dv: int, dvsize: int, nb: nat)
    requires Tiling(h, row, base, limit, top, topsize) && TriesOk(h, nodes) && BinsOk(bins, treemap, nodes)
             && SmallsOk(h, smallmap, smalls)
    requires Filed(row, smalls, nodes, dv, dvsize, {}) && treemap == {} && dvsize < nb && nb % 8 == 0
    requires forall i | i in smallmap :: i < nb / 8
    ensures NoneFits(row, nb)
  {
    hide TriesOk;
    hide Tiling;
    hide SmallsOk;
    hide InSmall;
    hide Binned;
    NoTrees(h, bins, treemap, nodes);
    VictimFacts(h, row, base, limit, top, topsize, smalls, nodes, dv, dvsize, {});
    NoChunkAtZero(h, row, base, limit, top, topsize);
    forall a | Free(row, a) ensures row[a].size < nb {
      if a != dv {
        KeptWhere(row, smalls, nodes, dv, dvsize, {}, a);
        FreeChunk(h, row, base, limit, top, topsize, a);
        var i, k := SmallSize(h, smallmap, smalls, a);
      }
    }
  }

  /** With no tree bin in use, only the victim can serve a large request. */
  lemma NothingLarge(h: Heap, row: Row, base: int, limit: int, top: int, topsize: int, bins: seq<int>,
                     treemap: set<nat>, smallmap: set<nat>, smalls: Smalls, nodes: Nodes, dv: int, dvsize: int, nb: nat)
    requires Tiling(h, row, base, limit, top, topsize) && TriesOk(h, nodes) && BinsOk(bins, treemap, nodes)
    requires Filed(row, smalls, nodes, dv, dvsize, {}) && treemap == {} && MIN_LARGE_SIZE <= nb < WORD
             && limit - base < MAX_SIZE
    ensures Tightest(row, nb, dv) || NoneFits(row, nb)
  {
    hide TriesOk;
    hide Tiling;
    NoTrees(h, bins, treemap, nodes);
    LargeFits(h, row, base, limit, top, topsize, smalls, nodes, dv, dvsize, nb, 0, WORD - nb);
  }

  lemma FreeNotInUse(row: Row, p: int)
    requires Free(row, p) || p !in row
    ensures p !in InUse(row)
  {
  }

  /** Of the chunks of its size, a tree chunk is the one that was put in first; of those in its bin, a small
      chunk is the one that was put in last. */
  ghost predicate InTurn(h: Heap, nodes: Nodes, smalls: Smalls, p: int) {
    && (Binned(nodes, p) ==> |Chain(h, nodes, Size(h, p))| > 0 && Chain(h, nodes, Size(h, p))[0] == p)
    && (InSmall(smalls, p) ==> exists i: nat :: i < |smalls| && smalls[i] != [] && smalls[i][|smalls[i]| - 1] == p)
  }

  lemma TreeInTurn(h: Heap, row: Row, smalls: Smalls, nodes: Nodes, dv: int, dvsize: int, nb: nat, v: int, rsize: int)
    requires TriesOk(h, nodes) && Filed(row, smalls, nodes, dv, dvsize, {}) && Candidate(h, nodes, nb, v, rsize)
             && v != 0
    ensures InTurn(h, nodes, smalls, v)
  {
    hide TriesOk;
    hide Filed;
    hide InSmall;
    hide Chain;
    FoundIsOldest(h, nodes, nb, v, rsize);
    var q :| q in nodes && v == Head(nodes, q);
    BinnedHead(h, nodes, q);
    KeptHow(row, smalls, nodes, dv, dvsize, {}, v);
  }

  lemma SmallInTurn(h: Heap, row: Row, smalls: Smalls, nodes: Nodes, dv: int, dvsize: int, i: nat, p: int)
    requires Filed(row, smalls, nodes, dv, dvsize, {}) && InSmall(smalls, p)
    requires i < |smalls| && smalls[i] != [] && smalls[i][|smalls[i]| - 1] == p
    ensures InTurn(h, nodes, smalls, p)
  {
    hide Filed;
    hide InSmall;
    hide Chain;
    KeptHow(row, smalls, nodes, dv, dvsize, {}, p);
  }

  /** Victim and top chunk are in no bin. */
  lemma RestInTurn(h: Heap, row: Row, base: int, limit: int, top: int, topsize: int, smalls: Smalls, nodes: Nodes,
                   dv: int, dvsize: int)
    requires Tiling(h, row, base, limit, top, topsize) && Filed(row, smalls, nodes, dv, dvsize, {})
    ensures InTurn(h, nodes, smalls, dv) && InTurn(h, nodes, smalls, top)
  {
    hide Tiling;
    hide Filed;
    hide InSmall;
    hide Binned;
    TopApart(h, row, base, limit, top, topsize);
    assert !Free(row, top);
    forall a | a == dv || a == top ensures !InSmall(smalls, a) && !Binned(nodes, a) {
      if InSmall(smalls, a) || Binned(nodes, a) { KeptHow(row, smalls, nodes, dv, dvsize, {}, a); }
    }
  }

  /** Where a request is served from, if not from the top chunk: a large request is served best
      fit, by the victim if no other chunk that fits is smaller. */
  ghost predicate Chosen(row: Row, dv: int, dvsize: int, bytes: nat, p: int) {
    if bytes <= MAX_SMALL_REQUEST then SmallChoice(row, dv, dvsize, Request(bytes), p)
    else if Tightest(row, Request(bytes), dv) then p == dv
    else Tightest(row, Request(bytes), p)
  }

  /** What a request of nb bytes that no bin serves leaves of the victim, or of the top chunk. */
  ghost predicate Rest(nb: nat, r: Reserve, r': Reserve) {
    if nb > r.dvsize then r' == r.(top := r.top + nb, topsize := r.topsize - nb)
    else if r.dvsize - nb >= 32 then r' == r.(dv := r.dv + nb, dvsize := r.dvsize - nb)
    else r' == r.(dv := 0, dvsize := 0)
  }

  /** What is left of victim and top chunk once p has served a request: they give up their first bytes if they serve
      it; else what a small request leaves of a chunk is the new victim, and neither changes after a large one. A rest
      of less than 32 bytes is no chunk, and stays with p. */
  ghost predicate Leaves(row: Row, bytes: nat, p: int, r: Reserve, r': Reserve) {
    var nb := Request(bytes);
    if p == r.top || p == r.dv then Rest(nb, r, r')
    else if bytes <= 232 && p in row && row[p].size - nb >= 32 then r' == r.(dv := p + nb, dvsize := row[p].size - nb)
    else r' == r
  }

  lemma BinLeaves(row: Row, bytes: nat, p: int, r: Reserve, r': Reserve)
    requires p in row && p != r.dv && p != r.top && r'.top == r.top && r'.topsize == r.topsize
    requires if bytes <= 232 then Remaindered(row[p].size, Request(bytes), p, r.dv, r.dvsize, r'.dv, r'.dvsize)
             else r'.dv == r.dv && r'.dvsize == r.dvsize
    ensures Leaves(row, bytes, p, r, r')
  {
  }

  lemma RestLeaves(row: Row, bytes: nat, p: int, r: Reserve, r': Reserve)
    requires (p == r.top || p == r.dv) && Rest(Request(bytes), r, r')
    ensures Leaves(row, bytes, p, r, r')
  {
  }

  /** What is left of a chunk of size s after nb bytes became the victim, if it is enough for a chunk. */
  ghost predicate Remaindered(s: int, nb: nat, p: int, dv: int, dvsize: int, dv': int, dvsize': int) {
    if s - nb >= MIN_CHUNK_SIZE then dv' == p + nb && dvsize' == s - nb else dv' == dv && dvsize' == dvsize
  }

  /** No free chunk but the victim is exactly of the size. */
  ghost predicate NoneExact(row: Row, dv: int, nb: nat) {
    forall a {:trigger Free(row, a)} | Free(row, a) && a != dv :: row[a].size != nb
  }

  /** Where a small request is served from, if not from the top chunk: an exact fit if there is one,
      else the victim if it fits, else the tightest free chunk. */
  ghost predicate SmallChoice(row: Row, dv: int, dvsize: int, nb: nat, p: int) {
    if !NoneExact(row, dv, nb) then Free(row, p) && p != dv && row[p].size == nb
    else if nb <= dvsize then p == dv
    else Tightest(row, nb, p)
  }

  ghost predicate NoneFits(row: Row, nb: nat) {
    forall a {:trigger Free(row, a)} | Free(row, a) :: row[a].size < nb
  }

  /** Free chunk p is large enough, and no larger than any other that is. */
  ghost predicate Tightest(row: Row, nb: nat, p: int) {
    && Free(row, p) && row[p].size >= nb
    && forall a {:trigger Free(row, a)} | Free(row, a) && row[a].size >= nb :: row[p].size <= row[a].size
  }

  /** Chunk p was free or part of the top chunk and is now in use, large enough and with less than a
      chunk to spare; no other chunk in use has changed. */
  ghost predicate Allocated(row: Row, row': Row, nb: nat, p: int) {
    && p !in InUse(row) && p in row' && nb <= row'[p].size < nb + 32
    && InUse(row') == InUse(row)[p := row'[p].size]
  }

  /** What a binned chunk's size says about the candidate. */
  lemma BinnedFits(h: Heap, row: Row, base: int, limit: int, top: int, topsize: int, smalls: Smalls, nodes: Nodes,
                   dv: int, dvsize: int, nb: nat, v: int, a: int)
    requires Tiling(h, row, base, limit, top, topsize) && TriesOk(h, nodes) && Filed(row, smalls, nodes, dv, dvsize, {})
    requires Best(h, nodes, nb, v) && Binned(nodes, a) && row[a].size >= nb
    ensures v != 0 && Size(h, v) <= row[a].size
  {
    hide TriesOk;
    hide Tiling;
    KeptHow(row, smalls, nodes, dv, dvsize, {}, a);
    FreeChunk(h, row, base, limit, top, topsize, a);
    var q :| q in nodes && a in nodes[q];
    var j :| 0 <= j < |nodes[q]| && nodes[q][j] == a;
    HeadLinks(h, nodes, q, j);
  }

  /** For a small request the best fit in the trees is the smallest chunk there. */
  lemma SmallestTree(h: Heap, row: Row, base: int, limit: int, top: int, topsize: int, smalls: Smalls, nodes: Nodes,
                     dv: int, dvsize: int, nb: nat, v: int)
    requires Tiling(h, row, base, limit, top, topsize) && TriesOk(h, nodes) && Filed(row, smalls, nodes, dv, dvsize, {})
    requires Best(h, nodes, nb, v) && nb < MIN_LARGE_SIZE
    ensures forall a | Binned(nodes, a) :: Free(row, a) && Size(h, v) <= row[a].size
  {
    hide TriesOk;
    hide Tiling;
    hide Best;
    hide Binned;
    forall a | Binned(nodes, a) ensures Free(row, a) && Size(h, v) <= row[a].size {
      KeptHow(row, smalls, nodes, dv, dvsize, {}, a);
      BinnedFits(h, row, base, limit, top, topsize, smalls, nodes, dv, dvsize, nb, v, a);
    }
  }

  /** The chunk found in the tree bins. */
  lemma FoundChunk(h: Heap, row: Row, base: int, limit: int, top: int, topsize: int, smalls: Smalls, nodes: Nodes,
                   dv: int, dvsize: int, nb: nat, v: int, rsize: int)
    requires Tiling(h, row, base, limit, top, topsize) && TriesOk(h, nodes) && Filed(row, smalls, nodes, dv, dvsize, {})
    requires Candidate(h, nodes, nb, v, rsize) && v != 0
    ensures Binned(nodes, v) && Free(row, v) && v != dv && row[v].size == rsize + nb == Size(h, v) && rsize >= 0
  {
    hide TriesOk;
    hide Tiling;
    var q :| q in nodes && v == Head(nodes, q) && rsize == SizeAt(h, nodes, q) - nb && rsize >= 0;
    BinnedHead(h, nodes, q);
    HeadIn(h, nodes, q);
    KeptHow(row, smalls, nodes, dv, dvsize, {}, v);
    FreeChunk(h, row, base, limit, top, topsize, v);
  }

  /** For a large request: either the chunk found is the tightest free chunk, or the victim is, or none fits. */
  lemma LargeFits(h: Heap, row: Row, base: int, limit: int, top: int, topsize: int, smalls: Smalls, nodes: Nodes,
                  dv: int, dvsize: int, nb: nat, v: int, rsize: int)
    requires Tiling(h, row, base, limit, top, topsize) && TriesOk(h, nodes) && Filed(row, smalls, nodes, dv, dvsize, {})
    requires limit - base < MAX_SIZE && MIN_LARGE_SIZE <= nb < WORD
    requires Candidate(h, nodes, nb, v, rsize) && Best(h, nodes, nb, v)
    ensures v != 0 ==> Free(row, v) && v != dv && row[v].size == rsize + nb && rsize >= 0
    ensures if v != 0 && rsize < Minus(dvsize, nb)
            then Tightest(row, nb, v) && !Tightest(row, nb, dv) && !NoneFits(row, nb)
            else Tightest(row, nb, dv) || NoneFits(row, nb)
  {
    hide TriesOk;
    hide Tiling;
    hide Best;
    hide Candidate;
    hide Binned;
    hide InSmall;
    if v != 0 {
      FoundChunk(h, row, base, limit, top, topsize, smalls, nodes, dv, dvsize, nb, v, rsize);
      ChunkBound(h, row, base, limit, top, topsize, v);
    }
    VictimFacts(h, row, base, limit, top, topsize, smalls, nodes, dv, dvsize, {});
    NoChunkAtZero(h, row, base, limit, top, topsize);
    forall a | Free(row, a) && row[a].size >= nb && a != dv ensures v != 0 && Size(h, v) <= row[a].size {
      KeptWhere(row, smalls, nodes, dv, dvsize, {}, a);
      BinnedFits(h, row, base, limit, top, topsize, smalls, nodes, dv, dvsize, nb, v, a);
    }
    if v != 0 && rsize < Minus(dvsize, nb) {
      assert Tightest(row, nb, v);
      assert Free(row, dv) ==> dv != 0 && (row[dv].size >= nb ==> row[v].size < row[dv].size);
    } else if dvsize >= nb {
      assert Tightest(row, nb, dv);
    } else {
      assert NoneFits(row, nb);
    }
  }

  /** A word with its lowest bit set. */
  function SetBit0(w: int): int {
    w / 2 * 2 + 1
  }
}
