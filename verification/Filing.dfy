/** Where free chunks are kept: each is the designated victim, or in a small bin, or in a tree bin,
    by its size; and how that follows the changes to the row of chunks. */
module Filing {
  import opened BinIndex
  import opened SmallBins
  import opened Tiles
  import opened TreeBins

  /** Chunk a of the row is free. */
  ghost predicate Free(row: Row, a: int) {
    a in row && !row[a].inuse
  }

  /** Every free chunk, except those in out, is kept in exactly one place, the one for its size. */
  ghost predicate Filed(row: Row, smalls: Smalls, nodes: Nodes, dv: int, dvsize: int, out: set<int>) {
    && (forall a | InSmall(smalls, a) :: Free(row, a) && row[a].size < MIN_LARGE_SIZE && a != dv && a !in out)
    && (forall a | Binned(nodes, a) :: Free(row, a) && row[a].size >= MIN_LARGE_SIZE && a != dv && a !in out)
    && (forall a | a in out :: Free(row, a) && a != dv)
    && (if dv == 0 then dvsize == 0 else Free(row, dv) && row[dv].size == dvsize > 0)
    && (forall a {:trigger Free(row, a)} | Free(row, a) ::
         a in out || a == dv || InSmall(smalls, a) || Binned(nodes, a))
  }

  /** Where a free chunk is kept. */
  lemma KeptWhere(row: Row, smalls: Smalls, nodes: Nodes, dv: int, dvsize: int, out: set<int>, a: int)
    requires Filed(row, smalls, nodes, dv, dvsize, out) && Free(row, a) && a != dv && a !in out
    ensures if row[a].size < MIN_LARGE_SIZE then InSmall(smalls, a) && !Binned(nodes, a)
            else Binned(nodes, a) && !InSmall(smalls, a)
  {
  }

  lemma KeptHow(row: Row, smalls: Smalls, nodes: Nodes, dv: int, dvsize: int, out: set<int>, a: int)
    requires Filed(row, smalls, nodes, dv, dvsize, out)
             && (InSmall(smalls, a) || Binned(nodes, a) || a in out || (a == dv && dv != 0))
    ensures Free(row, a)
            && (InSmall(smalls, a) ==> row[a].size < MIN_LARGE_SIZE && !Binned(nodes, a) && a != dv && a !in out)
    ensures Binned(nodes, a) ==> row[a].size >= MIN_LARGE_SIZE && !InSmall(smalls, a) && a != dv && a !in out
    ensures a in out ==> !InSmall(smalls, a) && !Binned(nodes, a) && a != dv
    ensures a == dv ==> row[a].size == dvsize
  {
  }

  // ----- Into and out of the bins -----

  lemma SmallIn(row: Row, smalls: Smalls, smalls': Smalls, nodes: Nodes, dv: int, dvsize: int, out: set<int>, x: int)
    requires Filed(row, smalls, nodes, dv, dvsize, out) && x in out && row[x].size < MIN_LARGE_SIZE
    requires forall y :: InSmall(smalls', y) <==> y == x || InSmall(smalls, y)
    ensures Filed(row, smalls', nodes, dv, dvsize, out - {x})
  {
    hide InSmall;
    hide Binned;
  }

  lemma SmallOut(row: Row, smalls: Smalls, smalls': Smalls, nodes: Nodes, dv: int, dvsize: int, out: set<int>, x: int)
    requires Filed(row, smalls, nodes, dv, dvsize, out) && InSmall(smalls, x)
    requires forall y :: InSmall(smalls', y) <==> y != x && InSmall(smalls, y)
    ensures Filed(row, smalls', nodes, dv, dvsize, out + {x})
  {
    hide InSmall;
    hide Binned;
  }

  lemma TreeIn(row: Row, smalls: Smalls, nodes: Nodes, nodes': Nodes, dv: int, dvsize: int, out: set<int>, x: int)
    requires Filed(row, smalls, nodes, dv, dvsize, out) && x in out && row[x].size >= MIN_LARGE_SIZE
    requires forall y :: Binned(nodes', y) <==> y == x || Binned(nodes, y)
    ensures Filed(row, smalls, nodes', dv, dvsize, out - {x})
  {
    hide InSmall;
    hide Binned;
  }

  lemma TreeOut(row: Row, smalls: Smalls, nodes: Nodes, nodes': Nodes, dv: int, dvsize: int, out: set<int>, x: int)
    requires Filed(row, smalls, nodes, dv, dvsize, out) && Binned(nodes, x)
    requires forall y :: Binned(nodes', y) <==> y != x && Binned(nodes, y)
    ensures Filed(row, smalls, nodes', dv, dvsize, out + {x})
  {
    hide InSmall;
    hide Binned;
  }

  lemma VictimOut(row: Row, smalls: Smalls, nodes: Nodes, dv: int, dvsize: int, out: set<int>)
    requires Filed(row, smalls, nodes, dv, dvsize, out) && 0 !in row && dv != 0
    ensures Filed(row, smalls, nodes, 0, 0, out + {dv})
  {
    hide InSmall;
    hide Binned;
  }

  lemma VictimIn(row: Row, smalls: Smalls, nodes: Nodes, out: set<int>, x: int)
    requires Filed(row, smalls, nodes, 0, 0, out) && x in out && 0 !in row && row[x].size > 0
    ensures Filed(row, smalls, nodes, x, row[x].size, out - {x})
  {
    hide InSmall;
    hide Binned;
  }

  // ----- The row changes -----

  lemma FiledWhole(row: Row, smalls: Smalls, nodes: Nodes, dv: int, dvsize: int, out: set<int>, p: int)
    requires Filed(row, smalls, nodes, dv, dvsize, out) && p in out
    ensures p in row && Filed(row[p := Tile(row[p].size, true)], smalls, nodes, dv, dvsize, out - {p})
  {
    hide InSmall;
    hide Binned;
    var row' := row[p := Tile(row[p].size, true)];
    assert forall a :: Free(row', a) <==> Free(row, a) && a != p;
    assert forall a | Free(row', a) :: row'[a] == row[a];
  }

  lemma FiledPart(row: Row, smalls: Smalls, nodes: Nodes, dv: int, dvsize: int, out: set<int>, p: int, nb: int)
    requires Filed(row, smalls, nodes, dv, dvsize, out) && p in out && Splits(row, p, nb) && p + nb !in row
             && p + nb != 0
    ensures Filed(PartRow(row, p, nb), smalls, nodes, dv, dvsize, out - {p} + {p + nb})
  {
    hide InSmall;
    hide Binned;
    var row' := PartRow(row, p, nb);
    assert forall a :: Free(row', a) <==> (Free(row, a) && a != p) || a == p + nb;
    assert forall a | Free(row, a) && a != p :: row'[a] == row[a];
  }

  lemma FiledTop(row: Row, smalls: Smalls, nodes: Nodes, dv: int, dvsize: int, top: int, nb: nat)
    requires Filed(row, smalls, nodes, dv, dvsize, {}) && top !in row
    ensures Filed(row[top := Tile(nb, true)], smalls, nodes, dv, dvsize, {})
  {
    hide InSmall;
    hide Binned;
    var row' := row[top := Tile(nb, true)];
    assert forall a :: Free(row', a) <==> Free(row, a);
    assert forall a | Free(row, a) :: row'[a] == row[a];
  }

  lemma FiledReleased(row: Row, smalls: Smalls, nodes: Nodes, dv: int, dvsize: int, out: set<int>, p: int, q: int,
                      e: int)
    requires Filed(row, smalls, nodes, dv, dvsize, out) && Releasable(row, p, q, e) && dv != q
    requires forall a | a in row && q <= a < e && a != p :: a in out
    requires forall a | a in out :: q <= a < e && a != p
    ensures Filed(Released(row, q, e), smalls, nodes, dv, dvsize, {q})
  {
    hide InSmall;
    hide Binned;
    hide Releasable;
    InRow(row, p, q, e);
    var row' := Released(row, q, e);
    assert forall a :: Free(row', a) <==> a == q || (Free(row, a) && !(q <= a < e));
    assert forall a | Free(row, a) && !(q <= a < e) :: row'[a] == row[a];
    assert forall a | Free(row, a) && q <= a < e :: a == p || a in out;
    assert forall a | Free(row, a) && q <= a < e :: a in out by { InUseP(row, p, q, e); }
  }

  lemma InUseP(row: Row, p: int, q: int, e: int)
    requires Releasable(row, p, q, e)
    ensures p in row && row[p].inuse
  {
  }

  lemma FiledWithout(row: Row, smalls: Smalls, nodes: Nodes, dv: int, dvsize: int, out: set<int>, p: int, q: int,
                     e: int)
    requires Filed(row, smalls, nodes, dv, dvsize, out) && Releasable(row, p, q, e)
    requires forall a | a in row && q <= a < e && a != p :: a in out
    requires forall a | a in out :: q <= a < e && a != p
    ensures Filed(Emptied(row, q, e), smalls, nodes, dv, dvsize, {})
  {
    hide InSmall;
    hide Binned;
    hide Releasable;
    InUseP(row, p, q, e);
    var row' := Emptied(row, q, e);
    assert forall a :: Free(row', a) <==> (Free(row, a) && !(q <= a < e));
    assert forall a | Free(row, a) && !(q <= a < e) :: row'[a] == row[a];
    assert forall a | Free(row, a) && q <= a < e :: a in out;
  }

  // ----- Frames -----

  ghost predicate SameFields(h: Heap, h': Heap, x: int) {
    && Size(h', x) == Size(h, x) && At(h'.fd, x) == At(h.fd, x) && At(h'.bk, x) == At(h.bk, x)
    && At(h'.child, (x, false)) == At(h.child, (x, false)) && At(h'.child, (x, true)) == At(h.child, (x, true))
    && At(h'.parent, x) == At(h.parent, x) && At(h'.index, x) == At(h.index, x)
  }

  lemma TriesUntouched(h: Heap, h': Heap, nodes: Nodes)
    requires TriesOk(h, nodes) && forall x | Binned(nodes, x) :: SameFields(h, h', x)
    ensures TriesOk(h', nodes)
  {
    forall q | q in nodes ensures NodeOk(h', nodes, q) && Size(h', Head(nodes, q)) == Size(h, Head(nodes, q)) {
      NodeUntouched(h, h', nodes, q);
    }
    hide NodeOk;
    hide Binned;
  }

  lemma NodeUntouched(h: Heap, h': Heap, nodes: Nodes, q: Pos)
    requires TriesOk(h, nodes) && q in nodes && forall x | Binned(nodes, x) :: SameFields(h, h', x)
    ensures NodeOk(h', nodes, q) && Size(h', Head(nodes, q)) == Size(h, Head(nodes, q))
  {
    hide TriesOk;
    hide Valid;
    hide Fits;
    NodeFacts(h, nodes, q);
    BinnedHead(h, nodes, q);
    RingUntouched(h, h', nodes[q], Bin(q));
    assert SameFields(h, h', Head(nodes, q));
    MakeNode(h', nodes, q);
  }

  lemma RingUntouched(h: Heap, h': Heap, c: seq<int>, bin: nat)
    requires Ring(h, c, bin) && forall x | x in c :: SameFields(h, h', x)
    ensures Ring(h', c, bin)
  {
    hide SizeIn;
    hide SameFields;
    forall j | 0 <= j < |c|
      ensures Size(h', c[j]) == Size(h, c[j]) && At(h'.index, c[j]) == At(h.index, c[j])
              && At(h'.parent, c[j]) == At(h.parent, c[j])
      ensures At(h'.child, (c[j], false)) == At(h.child, (c[j], false))
              && At(h'.child, (c[j], true)) == At(h.child, (c[j], true))
      ensures At(h'.fd, c[j]) == At(h.fd, c[j]) && At(h'.bk, c[j]) == At(h.bk, c[j])
    {
      assert SameFields(h, h', c[j]);
      FieldsSame(h, h', c[j]);
    }
    assert RingMembers(h', c, bin) by { hide RingLinks; assert RingMembers(h, c, bin); }
    assert RingLinks(h', c) by { hide RingMembers; assert RingLinks(h, c); }
  }

  lemma FieldsSame(h: Heap, h': Heap, x: int)
    requires SameFields(h, h', x)
    ensures Size(h', x) == Size(h, x) && At(h'.index, x) == At(h.index, x) && At(h'.parent, x) == At(h.parent, x)
    ensures At(h'.child, (x, false)) == At(h.child, (x, false)) && At(h'.child, (x, true)) == At(h.child, (x, true))
    ensures At(h'.fd, x) == At(h.fd, x) && At(h'.bk, x) == At(h.bk, x)
  {
  }

  /** Writes to head and foot words of chunks that are in no bin keep the bins sound. */
  lemma TreesFrame(h: Heap, h': Heap, nodes: Nodes)
    requires TriesOk(h, nodes) && h'.parent == h.parent && h'.index == h.index && h'.child == h.child
    requires forall x | Binned(nodes, x) ::
               Size(h', x) == Size(h, x) && At(h'.fd, x) == At(h.fd, x) && At(h'.bk, x) == At(h.bk, x)
    ensures TriesOk(h', nodes) && forall s: int :: Chain(h', nodes, s) == Chain(h, nodes, s)
  {
    hide Chain;
    hide NodeOk;
    assert forall q | q in nodes :: Size(h', Head(nodes, q)) == Size(h, Head(nodes, q)) by {
      forall q | q in nodes
        ensures Size(h', Head(nodes, q)) == Size(h, Head(nodes, q))
      {
        BinnedHead(h, nodes, q); HeadIn(h, nodes, q);
      }
    }
    forall x | Binned(nodes, x) ensures SameFields(h, h', x) {
    }
    TriesUntouched(h, h', nodes);
    forall s: int ensures Chain(h', nodes, s) == Chain(h, nodes, s) { ChainFrame(h, h', nodes, s); }
  }

  lemma ChainFrame(h: Heap, h': Heap, nodes: Nodes, s: int)
    requires forall q | q in nodes :: Size(h', Head(nodes, q)) == Size(h, Head(nodes, q))
    requires TriesOk(h, nodes) && (forall q | q in nodes :: NodeOk(h', nodes, q))
    ensures Chain(h', nodes, s) == Chain(h, nodes, s)
  {
    hide NodeOk;
    if q :| q in nodes && Size(h, Head(nodes, q)) == s {
      ChainIs(h, nodes, q);
      ChainIs(h', nodes, q);
    } else {
      NoChain(h, nodes, s);
      NoChain(h', nodes, s);
    }
  }

  lemma HeadsFrame(h: Heap, h': Heap, row: Row, marks: set<nat>, smalls: Smalls, nodes: Nodes, dv: int, dvsize: int,
                   out: set<int>, changed: set<int>)
    requires TriesOk(h, nodes) && SmallsOk(h, marks, smalls) && Filed(row, smalls, nodes, dv, dvsize, out)
    requires h' == h.(head := h'.head, prevFoot := h'.prevFoot) && HeadsBut(h, h', changed)
    requires forall c | c in changed :: !Free(row, c) || c in out || c == dv
    ensures TriesOk(h', nodes) && SmallsOk(h', marks, smalls)
  {
    hide TriesOk;
    hide SmallsOk;
    hide Binned;
    hide InSmall;
    TreesFrame(h, h', nodes);
    SmallsFrame(h, h', marks, smalls);
  }

  /** Link changes at small chunks and at one chunk in no bin keep the tree bins sound. */
  lemma LinksFrame(h: Heap, h': Heap, row: Row, smalls: Smalls, nodes: Nodes, dv: int, dvsize: int, out: set<int>,
                   x: int)
    requires TriesOk(h, nodes) && LinksOnly(h, h', smalls, x) && Filed(row, smalls, nodes, dv, dvsize, out)
             && !Binned(nodes, x)
    ensures TriesOk(h', nodes)
  {
    hide TriesOk;
    hide Binned;
    hide InSmall;
    hide LinksOnly;
    forall y | Binned(nodes, y)
      ensures Size(h', y) == Size(h, y) && At(h'.fd, y) == At(h.fd, y) && At(h'.bk, y) == At(h.bk, y)
    {
      BinnedPositive(h, nodes, y);
      KeptHow(row, smalls, nodes, dv, dvsize, out, y);
      LinkSame(h, h', smalls, x, y);
    }
    LinksRest(h, h', smalls, x);
    TreesFrame(h, h', nodes);
  }

  lemma LinkSame(h: Heap, h': Heap, smalls: Smalls, x: int, y: int)
    requires LinksOnly(h, h', smalls, x) && y > 0 && y != x && !InSmall(smalls, y)
    ensures Size(h', y) == Size(h, y) && At(h'.fd, y) == At(h.fd, y) && At(h'.bk, y) == At(h.bk, y)
  {
  }

  lemma LinksRest(h: Heap, h': Heap, smalls: Smalls, x: int)
    requires LinksOnly(h, h', smalls, x)
    ensures h'.head == h.head && h'.prevFoot == h.prevFoot && h'.parent == h.parent && h'.index == h.index
            && h'.child == h.child
  {
  }

  lemma BinnedPositive(h: Heap, nodes: Nodes, y: int)
    requires TriesOk(h, nodes) && Binned(nodes, y)
    ensures y > 0
  {
    hide TriesOk;
    var p :| p in nodes && y in nodes[p];
    NodeFacts(h, nodes, p);
  }

  /** Linking or unlinking a large chunk leaves the small bins alone. */
  lemma SmallsAlone(h: Heap, h': Heap, row: Row, marks: set<nat>, smalls: Smalls, nodes: Nodes, dv: int, dvsize: int,
                    out: set<int>, x: int)
    requires SmallsOk(h, marks, smalls) && Filed(row, smalls, nodes, dv, dvsize, out) && !InSmall(smalls, x) && x > 0
    requires h'.head == h.head && TriesOk(h, nodes)
    requires forall y :: y != x && !Binned(nodes, y) ==> At(h'.fd, y) == At(h.fd, y) && At(h'.bk, y) == At(h.bk, y)
    ensures SmallsOk(h', marks, smalls)
  {
    hide Filed;
    hide TriesOk;
    hide Circle;
    forall i: nat | i < NSMALLBINS ensures SmallOk(h', marks, smalls, i) {
      SmallFacts(h, marks, smalls, i);
      forall y | y in smalls[i] ensures y != x && !Binned(nodes, y) {
        assert InSmall(smalls, y);
        KeptHow(row, smalls, nodes, dv, dvsize, out, y);
      }
      if Binned(nodes, SmallBin(i)) { BinnedPositive(h, nodes, SmallBin(i)); }
      if smalls[i] != [] { CircleFrame(h, h', [SmallBin(i)] + smalls[i]); }
    }
  }

  lemma TilingFrame(h: Heap, h': Heap, row: Row, base: int, limit: int, top: int, topsize: int)
    requires Tiling(h, row, base, limit, top, topsize) && h'.head == h.head && h'.prevFoot == h.prevFoot
    ensures Tiling(h', row, base, limit, top, topsize)
  {
    hide Separate;
    hide Shaped;
    forall a | a in row ensures Tagged(h', row, a) { assert Tagged(h, row, a); }
  }

  lemma NoChunkAtZero(h: Heap, row: Row, base: int, limit: int, top: int, topsize: int)
    requires Tiling(h, row, base, limit, top, topsize)
    ensures 0 !in row
  {
    hide Separate;
    hide Tagged;
    if 0 in row { NotTop(h, row, base, limit, top, topsize, 0); }
  }

  lemma ChunkBound(h: Heap, row: Row, base: int, limit: int, top: int, topsize: int, p: int)
    requires Tiling(h, row, base, limit, top, topsize) && p in row
    ensures row[p].size < limit - base
  {
    hide Separate;
    hide Tagged;
    assert Shaped(row, base, top, p);
  }

  lemma InsertedFacts(h: Heap, nodes: Nodes, h': Heap, nodes': Nodes, x: int, s: int)
    requires InsertedLarge(h, nodes, h', nodes', x, s)
    ensures h'.head == h.head && h'.prevFoot == h.prevFoot
            && (forall y :: Binned(nodes', y) <==> y == x || Binned(nodes, y))
    ensures forall y :: y != x && !Binned(nodes, y) ==> At(h'.fd, y) == At(h.fd, y) && At(h'.bk, y) == At(h.bk, y)
  {
  }

  lemma RemovedFacts(h: Heap, nodes: Nodes, h': Heap, nodes': Nodes, x: int)
    requires RemovedLarge(h, nodes, h', nodes', x)
    ensures h'.head == h.head && h'.prevFoot == h.prevFoot
            && (forall y :: Binned(nodes', y) <==> y != x && Binned(nodes, y))
    ensures forall y :: !Binned(nodes, y) ==> At(h'.fd, y) == At(h.fd, y) && At(h'.bk, y) == At(h.bk, y)
  {
  }

  /** The designated victim, if there is one. */
  lemma VictimFacts(h: Heap, row: Row, base: int, limit: int, top: int, topsize: int, smalls: Smalls, nodes: Nodes,
                    dv: int, dvsize: int, out: set<int>)
    requires Tiling(h, row, base, limit, top, topsize) && Filed(row, smalls, nodes, dv, dvsize, out)
    ensures dv == 0 <==> dvsize == 0
    ensures dv != 0 ==>
              Free(row, dv) && Size(h, dv) == row[dv].size == dvsize && dv > 0 && !InSmall(smalls, dv)
              && !Binned(nodes, dv) && dv !in out
    ensures dv != 0 ==> dvsize % ALIGNMENT == 0 && dvsize >= MIN_CHUNK_SIZE && dvsize < limit - base
  {
    hide Tiling;
    hide InSmall;
    hide Binned;
    if dv != 0 {
      FreeChunk(h, row, base, limit, top, topsize, dv);
      ChunkBound(h, row, base, limit, top, topsize, dv);
    }
  }

  /** The free chunks from q up to e, and chunk p, became one free chunk, not kept anywhere yet. */
  lemma FiledFreed(row: Row, smalls: Smalls, nodes: Nodes, dv: int, dvsize: int, out: set<int>, p: int, q: int, e: int)
    requires Filed(row, smalls, nodes, dv, dvsize, out) && Releasable(row, p, q, e) && 0 !in row
    requires forall a | a in row && q <= a < e && a != p :: a in out || (a == dv && dv != 0)
    requires forall a | a in out :: q <= a < e && a != p
    ensures q < e
    ensures var gone := dv != 0 && q <= dv < e;
            Filed(Released(row, q, e), smalls, nodes, if gone then 0 else dv, if gone then 0 else dvsize, {q})
  {
    hide InSmall;
    hide Binned;
    hide Releasable;
    InRow(row, p, q, e);
    InUseP(row, p, q, e);
    if dv != 0 && q <= dv < e {
      VictimOut(row, smalls, nodes, dv, dvsize, out);
      FiledReleased(row, smalls, nodes, 0, 0, out + {dv}, p, q, e);
    } else {
      FiledReleased(row, smalls, nodes, dv, dvsize, out, p, q, e);
    }
  }

  /** The same, when they became part of the top chunk. */
  lemma FiledInTop(row: Row, smalls: Smalls, nodes: Nodes, dv: int, dvsize: int, out: set<int>, p: int, q: int, e: int)
    requires Filed(row, smalls, nodes, dv, dvsize, out) && Releasable(row, p, q, e) && 0 !in row
    requires forall a | a in row && q <= a < e && a != p :: a in out || (a == dv && dv != 0)
    requires forall a | a in out :: q <= a < e && a != p
    ensures var gone := dv != 0 && q <= dv < e;
            Filed(Emptied(row, q, e), smalls, nodes, if gone then 0 else dv, if gone then 0 else dvsize, {})
  {
    hide InSmall;
    hide Binned;
    hide Releasable;
    InUseP(row, p, q, e);
    if dv != 0 && q <= dv < e {
      VictimOut(row, smalls, nodes, dv, dvsize, out);
      FiledWithout(row, smalls, nodes, 0, 0, out + {dv}, p, q, e);
    } else {
      FiledWithout(row, smalls, nodes, dv, dvsize, out, p, q, e);
    }
  }
}
