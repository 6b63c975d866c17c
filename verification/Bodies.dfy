/** The bodies of chunks in use: what the program writes there leaves all invariants alone, and malloc and free
    leave alone what it wrote there. */
module Bodies {
  import opened Filing
  import opened SmallBins
  import opened Tiles
  import opened TreeBins
  import opened BinIndex

  // ----- The program's own writes -----

  /** The word at this address belongs to the body of the chunk, which reaches into the next one's foot word. */
  ghost predicate InBody(p: int, size: nat, word: int) {
    p + 16 <= word < p + size + 8
  }

  /** Memory changed only in the body of chunk p. A chunk's foot word is at its address, its head 8 bytes on, and its
      links and tree fields follow at 16 to 56. */
  ghost predicate BodyWrites(h: Heap, h': Heap, p: int, size: nat) {
    && (forall a {:trigger At(h'.prevFoot, a)} | !InBody(p, size, a) :: At(h'.prevFoot, a) == At(h.prevFoot, a))
    && (forall a {:trigger At(h'.head, a)} | !InBody(p, size, a + 8) :: At(h'.head, a) == At(h.head, a))
    && (forall a {:trigger At(h'.fd, a)} | !InBody(p, size, a + 16) :: At(h'.fd, a) == At(h.fd, a))
    && (forall a {:trigger At(h'.bk, a)} | !InBody(p, size, a + 24) :: At(h'.bk, a) == At(h.bk, a))
    && (forall a, b {:trigger At(h'.child, (a, b))} | !InBody(p, size, a + if b then 40 else 32) ::
         At(h'.child, (a, b)) == At(h.child, (a, b)))
    && (forall a {:trigger At(h'.parent, a)} | !InBody(p, size, a + 48) :: At(h'.parent, a) == At(h.parent, a))
    && (forall a {:trigger At(h'.index, a)} | !InBody(p, size, a + 56) :: At(h'.index, a) == At(h.index, a))
  }

  /** Another chunk of the row, or the top chunk, lies before the chunk or after it. */
  lemma BesideBody(row: Row, base: int, top: int, p: int, a: int)
    requires RowOk(row, base, top) && p in row && (a == top || a in row)
    ensures row[p].size >= 32 && (a <= p || a >= End(row, p))
    ensures !InBody(p, row[p].size, a + 8) && (a != End(row, p) ==> !InBody(p, row[p].size, a))
    ensures a in row && a != p ==> End(row, a) <= p || a >= End(row, p)
  {
    assert Shaped(row, base, top, p);
    if a in row { assert Shaped(row, base, top, a); }
  }

  lemma BodyTiling(h: Heap, h': Heap, row: Row, base: int, limit: int, top: int, topsize: int, p: int)
    requires Tiling(h, row, base, limit, top, topsize) && p in row && row[p].inuse && BodyWrites(h, h', p, row[p].size)
    ensures Tiling(h', row, base, limit, top, topsize)
  {
    hide InBody;
    TilingParts(h, row, base, limit, top, topsize);
    TilingParts(h', row, base, limit, top, topsize);
    BesideBody(row, base, top, p, top);
    forall a | a in row ensures Tagged(h', row, a) {
      assert Tagged(h, row, a);
      BesideBody(row, base, top, p, a);
      if row[a].inuse {
        if At(h.head, a) != row[a].size + 3 {
          assert FreeBefore(h, row, a);
          assert a != End(row, p);
        }
      } else {
        BesideBody(row, base, top, p, End(row, a));
        assert End(row, a) != End(row, p);
      }
    }
  }

  /** Fields of free chunks are not touched by writes to the body of a chunk in use. */
  lemma FreeUntouched(h: Heap, h': Heap, row: Row, base: int, top: int, p: int, x: int)
    requires RowOk(row, base, top) && p in row && row[p].inuse && BodyWrites(h, h', p, row[p].size) && Free(row, x)
    ensures At(h'.head, x) == At(h.head, x) && At(h'.fd, x) == At(h.fd, x) && At(h'.bk, x) == At(h.bk, x)
    ensures row[x].size >= MIN_LARGE_SIZE ==>
              && At(h'.child, (x, false)) == At(h.child, (x, false))
              && At(h'.child, (x, true)) == At(h.child, (x, true))
              && At(h'.parent, x) == At(h.parent, x) && At(h'.index, x) == At(h.index, x)
  {
    BesideBody(row, base, top, p, x);
    assert Shaped(row, base, top, x);
  }

  lemma SmallsUntouched(h: Heap, h': Heap, marks: set<nat>, smalls: Smalls)
    requires SmallsOk(h, marks, smalls)
    requires forall x | InSmall(smalls, x) ::
               Size(h', x) == Size(h, x) && At(h'.fd, x) == At(h.fd, x) && At(h'.bk, x) == At(h.bk, x)
    requires forall i: nat | i < NSMALLBINS ::
               At(h'.fd, SmallBin(i)) == At(h.fd, SmallBin(i)) && At(h'.bk, SmallBin(i)) == At(h.bk, SmallBin(i))
    ensures SmallsOk(h', marks, smalls)
  {
    forall i: nat | i < NSMALLBINS ensures SmallOk(h', marks, smalls, i) {
      SmallFacts(h, marks, smalls, i);
      assert forall x | x in smalls[i] :: InSmall(smalls, x);
      if smalls[i] != [] { CircleFrame(h, h', [SmallBin(i)] + smalls[i]); }
    }
  }

  /** Whatever the program writes into the body of a chunk in use, all invariants stay. */
  lemma BodyWritesKeep(h: Heap, h': Heap, row: Row, base: int, limit: int, top: int, topsize: int, marks: set<nat>,
                       smalls: Smalls,
                       nodes: Nodes, dv: int, dvsize: int, p: int)
    requires Tiling(h, row, base, limit, top, topsize) && TriesOk(h, nodes) && SmallsOk(h, marks, smalls)
    requires Filed(row, smalls, nodes, dv, dvsize, {}) && p in InUse(row) && BodyWrites(h, h', p, InUse(row)[p])
    ensures Tiling(h', row, base, limit, top, topsize) && TriesOk(h', nodes) && SmallsOk(h', marks, smalls)
  {
    hide TriesOk;
    hide SmallsOk;
    hide InSmall;
    hide Binned;
    TilingParts(h, row, base, limit, top, topsize);
    hide Tiling;
    hide BodyWrites;
    BodyTiling(h, h', row, base, limit, top, topsize, p);
    forall x | Binned(nodes, x) ensures SameFields(h, h', x) {
      KeptHow(row, smalls, nodes, dv, dvsize, {}, x);
      FreeUntouched(h, h', row, base, top, p, x);
    }
    TriesUntouched(h, h', nodes);
    forall x | InSmall(smalls, x)
      ensures Size(h', x) == Size(h, x) && At(h'.fd, x) == At(h.fd, x) && At(h'.bk, x) == At(h.bk, x)
    {
      KeptHow(row, smalls, nodes, dv, dvsize, {}, x);
      FreeUntouched(h, h', row, base, top, p, x);
    }
    HeadersUntouched(h, h', row, base, top, p);
    SmallsUntouched(h, h', marks, smalls);
  }

  lemma HeadersUntouched(h: Heap, h': Heap, row: Row, base: int, top: int, p: int)
    requires RowOk(row, base, top) && p in row && BodyWrites(h, h', p, row[p].size)
    ensures forall i: nat | i < NSMALLBINS ::
              At(h'.fd, SmallBin(i)) == At(h.fd, SmallBin(i)) && At(h'.bk, SmallBin(i)) == At(h.bk, SmallBin(i))
  {
    assert Shaped(row, base, top, p);
  }

  // ----- What malloc and free leave alone -----

  /** No word in the body of chunk p has changed. Addresses of chunks are positive; others stand for NULL and the
      bins. */
  ghost predicate BodyKept(h: Heap, h': Heap, p: int, size: nat) {
    && (forall a {:trigger At(h'.prevFoot, a)} | a > 0 && InBody(p, size, a) :: At(h'.prevFoot, a) == At(h.prevFoot, a))
    && (forall a {:trigger At(h'.head, a)} | a > 0 && InBody(p, size, a + 8) :: At(h'.head, a) == At(h.head, a))
    && (forall a {:trigger At(h'.fd, a)} | a > 0 && InBody(p, size, a + 16) :: At(h'.fd, a) == At(h.fd, a))
    && (forall a {:trigger At(h'.bk, a)} | a > 0 && InBody(p, size, a + 24) :: At(h'.bk, a) == At(h.bk, a))
    && (forall a {:trigger At(h'.child, (a, false))} | a > 0 && InBody(p, size, a + 32) ::
          At(h'.child, (a, false)) == At(h.child, (a, false)))
    && (forall a {:trigger At(h'.child, (a, true))} | a > 0 && InBody(p, size, a + 40) ::
          At(h'.child, (a, true)) == At(h.child, (a, true)))
    && (forall a {:trigger At(h'.parent, a)} | a > 0 && InBody(p, size, a + 48) :: At(h'.parent, a) == At(h.parent, a))
    && (forall a {:trigger At(h'.index, a)} | a > 0 && InBody(p, size, a + 56) :: At(h'.index, a) == At(h.index, a))
  }

  /** The bodies of these chunks have not changed. */
  ghost predicate Spares(h: Heap, h': Heap, kept: map<int, nat>) {
    forall p {:trigger BodyKept(h, h', p, kept[p])} | p in kept :: BodyKept(h, h', p, kept[p])
  }

  ghost predicate Within(kept: map<int, nat>, more: map<int, nat>) {
    forall p | p in kept :: p in more && more[p] == kept[p]
  }

  lemma NothingChanged(h: Heap, kept: map<int, nat>)
    ensures Spares(h, h, kept)
  {
  }

  lemma SparesThen(h0: Heap, h1: Heap, h2: Heap, first: map<int, nat>, second: map<int, nat>, kept: map<int, nat>)
    requires Spares(h0, h1, first) && Spares(h1, h2, second) && Within(kept, first) && Within(kept, second)
    ensures Spares(h0, h2, kept)
  {
    forall p | p in kept ensures BodyKept(h0, h2, p, kept[p]) {
      assert BodyKept(h0, h1, p, first[p]) && BodyKept(h1, h2, p, second[p]);
      BodyThen(h0, h1, h2, p, kept[p]);
    }
  }

  lemma BodyThen(h0: Heap, h1: Heap, h2: Heap, p: int, size: nat)
    requires BodyKept(h0, h1, p, size) && BodyKept(h1, h2, p, size)
    ensures BodyKept(h0, h2, p, size)
  {
    hide InBody;
    forall a | a > 0 && InBody(p, size, a) ensures At(h2.prevFoot, a) == At(h0.prevFoot, a) {
      assert At(h1.prevFoot, a) == At(h0.prevFoot, a);
    }
    forall a | a > 0 && InBody(p, size, a + 8)
      ensures At(h2.head, a) == At(h0.head, a)
    {
      assert At(h1.head, a) == At(h0.head, a);
    }
    forall a | a > 0 && InBody(p, size, a + 16)
      ensures At(h2.fd, a) == At(h0.fd, a)
    {
      assert At(h1.fd, a) == At(h0.fd, a);
    }
    forall a | a > 0 && InBody(p, size, a + 24)
      ensures At(h2.bk, a) == At(h0.bk, a)
    {
      assert At(h1.bk, a) == At(h0.bk, a);
    }
    forall a | a > 0 && InBody(p, size, a + 32) ensures At(h2.child, (a, false)) == At(h0.child, (a, false)) {
      assert At(h1.child, (a, false)) == At(h0.child, (a, false));
    }
    forall a | a > 0 && InBody(p, size, a + 40) ensures At(h2.child, (a, true)) == At(h0.child, (a, true)) {
      assert At(h1.child, (a, true)) == At(h0.child, (a, true));
    }
    forall a | a > 0 && InBody(p, size, a + 48)
      ensures At(h2.parent, a) == At(h0.parent, a)
    {
      assert At(h1.parent, a) == At(h0.parent, a);
    }
    forall a | a > 0 && InBody(p, size, a + 56)
      ensures At(h2.index, a) == At(h0.index, a)
    {
      assert At(h1.index, a) == At(h0.index, a);
    }
  }

  lemma SelfWithin(kept: map<int, nat>)
    ensures Within(kept, kept)
  {
  }

  /** A chunk more, or one less, of those in use. */
  lemma WithinMore(kept: map<int, nat>, p: int, s: nat)
    ensures p !in kept ==> Within(kept, kept[p := s])
    ensures Within(kept - {p}, kept)
  {
  }

  // ----- Writes to links of free chunks -----

  /** Only links of free chunks have been written, and tree fields of large ones. */
  ghost predicate FreeWrites(h: Heap, h': Heap, row: Row) {
    && h'.head == h.head && h'.prevFoot == h.prevFoot
    && (forall y {:trigger At(h'.fd, y)} | y > 0 && !Free(row, y) :: At(h'.fd, y) == At(h.fd, y))
    && (forall y {:trigger At(h'.bk, y)} | y > 0 && !Free(row, y) :: At(h'.bk, y) == At(h.bk, y))
    && (forall y {:trigger SameTree(h, h', y)} | y > 0 && !(Free(row, y) && row[y].size >= MIN_LARGE_SIZE) ::
         SameTree(h, h', y))
  }

  lemma FreeWritesSpare(h: Heap, h': Heap, row: Row, base: int, limit: int, top: int, topsize: int)
    requires Tiling(h, row, base, limit, top, topsize) && FreeWrites(h, h', row)
    ensures Spares(h, h', InUse(row))
  {
    TilingParts(h, row, base, limit, top, topsize);
    hide Tiling;
    forall p | p in InUse(row) ensures BodyKept(h, h', p, InUse(row)[p]) {
      FreeWritesKeep(h, h', row, base, top, p);
    }
  }

  lemma FreeWritesKeep(h: Heap, h': Heap, row: Row, base: int, top: int, p: int)
    requires RowOk(row, base, top) && FreeWrites(h, h', row) && p in row && row[p].inuse
    ensures BodyKept(h, h', p, row[p].size)
  {
    hide FreeWrites;
    hide RowOk;
    forall a | a > 0
      ensures InBody(p, row[p].size, a + 16) ==> At(h'.fd, a) == At(h.fd, a)
    {
      WordKept(h, h', row, base, top, p, a);
    }
    forall a | a > 0
      ensures InBody(p, row[p].size, a + 24) ==> At(h'.bk, a) == At(h.bk, a)
    {
      WordKept(h, h', row, base, top, p, a);
    }
    forall a | a > 0
      ensures InBody(p, row[p].size, a + 32) ==> At(h'.child, (a, false)) == At(h.child, (a, false))
      ensures InBody(p, row[p].size, a + 40) ==> At(h'.child, (a, true)) == At(h.child, (a, true))
    {
      WordKept(h, h', row, base, top, p, a);
    }
    forall a | a > 0
      ensures InBody(p, row[p].size, a + 48) ==> At(h'.parent, a) == At(h.parent, a)
      ensures InBody(p, row[p].size, a + 56) ==> At(h'.index, a) == At(h.index, a)
    {
      WordKept(h, h', row, base, top, p, a);
    }
    HeadsSame(h, h', row);
  }

  lemma HeadsSame(h: Heap, h': Heap, row: Row)
    requires FreeWrites(h, h', row)
    ensures h'.head == h.head && h'.prevFoot == h.prevFoot
  {
  }

  lemma WordKept(h: Heap, h': Heap, row: Row, base: int, top: int, p: int, a: int)
    requires RowOk(row, base, top) && FreeWrites(h, h', row) && p in row && row[p].inuse && a > 0
    ensures InBody(p, row[p].size, a + 16) ==> At(h'.fd, a) == At(h.fd, a)
    ensures InBody(p, row[p].size, a + 24) ==> At(h'.bk, a) == At(h.bk, a)
    ensures InBody(p, row[p].size, a + 32) ==> At(h'.child, (a, false)) == At(h.child, (a, false))
    ensures InBody(p, row[p].size, a + 40) ==> At(h'.child, (a, true)) == At(h.child, (a, true))
    ensures InBody(p, row[p].size, a + 48) ==> At(h'.parent, a) == At(h.parent, a)
    ensures InBody(p, row[p].size, a + 56) ==> At(h'.index, a) == At(h.index, a)
  {
    if Free(row, a) {
      BesideBody(row, base, top, p, a);
      assert Shaped(row, base, top, a);
      hide RowOk;
      if row[a].size < MIN_LARGE_SIZE { assert SameTree(h, h', a); }
    } else {
      assert SameTree(h, h', a);
    }
  }

  // ----- Writes to heads and feet -----

  /** Heads and feet written lie outside the bodies of these chunks. */
  ghost predicate Outside(kept: map<int, nat>, heads: set<int>, feet: set<int>) {
    && (forall p, a | p in kept && a in heads :: !InBody(p, kept[p], a + 8))
    && (forall p, a | p in kept && a in feet :: !InBody(p, kept[p], a))
  }

  lemma OutsideSpares(h: Heap, h': Heap, heads: set<int>, feet: set<int>, kept: map<int, nat>)
    requires h' == h.(head := h'.head, prevFoot := h'.prevFoot) && HeadsBut(h, h', heads) && FeetBut(h, h', feet)
    requires Outside(kept, heads, feet)
    ensures Spares(h, h', kept)
  {
    hide InBody;
  }

  /** Nothing within a free chunk, nor its foot, is in the body of a chunk in use. */
  lemma FreeOutside(row: Row, base: int, top: int, x: int, a: int)
    requires RowOk(row, base, top) && Free(row, x) && x <= a < End(row, x)
    ensures Outside(InUse(row), {x, a}, {End(row, x)})
  {
    forall p | p in InUse(row)
      ensures !InBody(p, InUse(row)[p], x + 8) && !InBody(p, InUse(row)[p], a + 8)
              && !InBody(p, InUse(row)[p], End(row, x))
    {
      BesideBody(row, base, top, p, x);
      assert Shaped(row, base, top, x);
    }
  }

  /** Heads of chunks are in no body. */
  lemma ChunkOutside(row: Row, base: int, top: int, a: int)
    requires RowOk(row, base, top) && (a in row || a == top)
    ensures Outside(InUse(row), {a}, {})
  {
    forall p | p in InUse(row) ensures !InBody(p, InUse(row)[p], a + 8) { BesideBody(row, base, top, p, a); }
  }

  lemma WholeSpares(h: Heap, h': Heap, row: Row, base: int, limit: int, top: int, topsize: int, p: int)
    requires Tiling(h, row, base, limit, top, topsize) && Free(row, p)
    requires h' == h.(head := h'.head) && HeadsBut(h, h', {p, End(row, p)})
    ensures Spares(h, h', InUse(row))
  {
    TilingParts(h, row, base, limit, top, topsize);
    assert Shaped(row, base, top, p);
    hide Tiling;
    ChunkOutside(row, base, top, p);
    ChunkOutside(row, base, top, End(row, p));
    hide InUse;
    hide InBody;
    OutsideSpares(h, h', {p, End(row, p)}, {}, InUse(row));
  }

  lemma PartSpares(h: Heap, h': Heap, row: Row, base: int, limit: int, top: int, topsize: int, p: int, nb: int)
    requires Tiling(h, row, base, limit, top, topsize) && Free(row, p) && 0 <= nb < row[p].size
    requires h' == h.(head := h'.head, prevFoot := h'.prevFoot) && HeadsBut(h, h', {p, p + nb})
             && FeetBut(h, h', {End(row, p)})
    ensures Spares(h, h', InUse(row))
  {
    TilingParts(h, row, base, limit, top, topsize);
    hide Tiling;
    FreeOutside(row, base, top, p, p + nb);
    hide InUse;
    OutsideSpares(h, h', {p, p + nb}, {End(row, p)}, InUse(row));
  }

  lemma TopSpares(h: Heap, h': Heap, row: Row, base: int, limit: int, top: int, topsize: int, nb: nat)
    requires Tiling(h, row, base, limit, top, topsize)
    requires h' == h.(head := h'.head) && HeadsBut(h, h', {top, top + nb})
    ensures Spares(h, h', InUse(row))
  {
    TilingParts(h, row, base, limit, top, topsize);
    hide Tiling;
    forall p | p in InUse(row) ensures !InBody(p, InUse(row)[p], top + 8) && !InBody(p, InUse(row)[p], top + nb + 8) {
      assert Shaped(row, base, top, p);
    }
    hide InUse;
    hide InBody;
    OutsideSpares(h, h', {top, top + nb}, {}, InUse(row));
  }

  /** Freeing p writes the head of the free chunk made, from q up to e, its foot, and the head at e. */
  lemma FreedSpares(h: Heap, h': Heap, row: Row, base: int, limit: int, top: int, topsize: int, p: int, q: int, e: int)
    requires Tiling(h, row, base, limit, top, topsize) && Releasable(row, p, q, e) && (e in row || e == top)
    requires h' == h.(head := h'.head, prevFoot := h'.prevFoot) && HeadsBut(h, h', {q, e}) && FeetBut(h, h', {e})
    ensures Spares(h, h', InUse(row) - {p})
  {
    TilingParts(h, row, base, limit, top, topsize);
    hide Tiling;
    ChunkOutside(row, base, top, q);
    ChunkOutside(row, base, top, e);
    var kept := InUse(row) - {p};
    forall x | x in kept ensures !InBody(x, kept[x], e) { FootOutside(row, base, top, p, q, e, x); }
    hide InUse;
    hide InBody;
    OutsideSpares(h, h', {q, e}, {e}, kept);
  }

  /** Another chunk in use does not end where the chunk made free does. */
  lemma FootOutside(row: Row, base: int, top: int, p: int, q: int, e: int, x: int)
    requires RowOk(row, base, top) && Releasable(row, p, q, e) && (e in row || e == top) && x in row && row[x].inuse
             && x != p
    ensures !InBody(x, row[x].size, e)
  {
    BesideBody(row, base, top, x, e);
    assert x < q || x >= e;
    if x < q { BesideBody(row, base, top, x, q); }
  }

  // ----- Putting chunks into bins and taking them out -----

  lemma SmallSpares(h: Heap, h': Heap, row: Row, base: int, limit: int, top: int, topsize: int, smalls: Smalls,
                    nodes: Nodes,
                    dv: int, dvsize: int, out: set<int>, x: int)
    requires Tiling(h, row, base, limit, top, topsize) && Filed(row, smalls, nodes, dv, dvsize, out)
    requires LinksOnly(h, h', smalls, x) && Free(row, x)
    ensures Spares(h, h', InUse(row))
  {
    hide Tiling;
    hide InSmall;
    hide Binned;
    FreeWritesSpare(h, h', row, base, limit, top, topsize);
  }

  lemma LargeInSpares(h: Heap, h': Heap, row: Row, base: int, limit: int, top: int, topsize: int, smalls: Smalls,
                      nodes: Nodes, nodes': Nodes,
                      dv: int, dvsize: int, out: set<int>, x: int, s: int)
    requires Tiling(h, row, base, limit, top, topsize) && Filed(row, smalls, nodes, dv, dvsize, out)
    requires InsertedLarge(h, nodes, h', nodes', x, s) && TreeFrame(h, h', nodes, x)
    requires Free(row, x) && row[x].size >= MIN_LARGE_SIZE
    ensures Spares(h, h', InUse(row))
  {
    hide Tiling;
    hide InSmall;
    hide Binned;
    InsertedFacts(h, nodes, h', nodes', x, s);
    hide InsertedLarge;
    hide SameTree;
    FreeWritesSpare(h, h', row, base, limit, top, topsize);
  }

  lemma LargeOutSpares(h: Heap, h': Heap, row: Row, base: int, limit: int, top: int, topsize: int, smalls: Smalls,
                       nodes: Nodes, nodes': Nodes,
                       dv: int, dvsize: int, out: set<int>, x: int)
    requires Tiling(h, row, base, limit, top, topsize) && Filed(row, smalls, nodes, dv, dvsize, out)
    requires RemovedLarge(h, nodes, h', nodes', x) && TreeFrame(h, h', nodes, x) && Binned(nodes, x)
    ensures Spares(h, h', InUse(row))
  {
    hide Tiling;
    hide InSmall;
    hide Binned;
    RemovedFacts(h, nodes, h', nodes', x);
    hide RemovedLarge;
    hide SameTree;
    FreeWritesSpare(h, h', row, base, limit, top, topsize);
  }
}
