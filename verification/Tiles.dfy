/** Boundary tags: one segment of memory as a row of chunks, each either in use or free, ending in
    the top chunk; and what allocating, splitting and freeing chunks does to the row. */
module Tiles {
  import opened Arithmetic
  import opened Sequences
  import opened TreeBins

  const MIN_CHUNK_SIZE: nat := 32
  const ALIGNMENT: nat := 16

  datatype Tile = Tile(size: nat, inuse: bool)

  /** The chunks of a segment by address, without the top chunk. */
  type Row = map<int, Tile>

  /** The address just past a chunk. */
  function End(row: Row, a: int): int
    requires a in row
  {
    a + row[a].size
  }

  ghost predicate Shaped(row: Row, base: int, top: int, a: int)
    requires a in row
  {
    && base <= a && a % ALIGNMENT == 0 && MIN_CHUNK_SIZE <= row[a].size && row[a].size % ALIGNMENT == 0
    && End(row, a) <= top && (End(row, a) == top || End(row, a) in row)
  }

  /** The head word: the size, the in-use bit, and the bit that says the chunk before is in use. A
      free chunk follows one in use, and the chunk after it is in use and knows its size. */
  ghost predicate Tagged(h: Heap, row: Row, a: int)
    requires a in row
  {
    var s := row[a].size;
    if row[a].inuse then
      At(h.head, a) == s + 3 || (At(h.head, a) == s + 2 && FreeBefore(h, row, a))
    else
      At(h.head, a) == s + 1 && FreeAt(h, row, a)
  }

  ghost predicate FreeBefore(h: Heap, row: Row, a: int) {
    var b := a - At(h.prevFoot, a);
    b in row && !row[b].inuse && End(row, b) == a
  }

  ghost predicate FreeAt(h: Heap, row: Row, a: int)
    requires a in row
  {
    var n := End(row, a);
    n in row && row[n].inuse && At(h.prevFoot, n) == row[a].size && At(h.head, n) == row[n].size + 2
  }

  ghost predicate Separate(row: Row) {
    forall a, b | a in row && b in row && a < b :: End(row, a) <= b
  }

  ghost predicate Tiling(h: Heap, row: Row, base: int, limit: int, top: int, topsize: int) {
    && 0 < base <= top && top % ALIGNMENT == 0 && (base == top || base in row)
    && top + topsize == limit && topsize > 0 && At(h.head, top) == topsize + 1
    && topsize % ALIGNMENT == 0
    && Separate(row)
    && (forall a {:trigger Shaped(row, base, top, a)} | a in row :: Shaped(row, base, top, a))
    && (forall a {:trigger Tagged(h, row, a)} | a in row :: Tagged(h, row, a))
  }

  /** Parts of the segment's shape that no write to memory changes. */
  ghost predicate RowOk(row: Row, base: int, top: int) {
    && 0 < base <= top && top % ALIGNMENT == 0 && (base == top || base in row) && Separate(row)
    && (forall a {:trigger Shaped(row, base, top, a)} | a in row :: Shaped(row, base, top, a))
  }

  lemma TilingParts(h: Heap, row: Row, base: int, limit: int, top: int, topsize: int)
    ensures Tiling(h, row, base, limit, top, topsize) <==>
              && RowOk(row, base, top) && top + topsize == limit && topsize > 0 && At(h.head, top) == topsize + 1
              && topsize % ALIGNMENT == 0
              && forall a {:trigger Tagged(h, row, a)} | a in row :: Tagged(h, row, a)
  {
  }

  // ----- Reading a chunk's surroundings -----

  /** What a head word of size s with its low flags says. */
  lemma HeadWord(s: int, flags: int)
    requires s % ALIGNMENT == 0 && 0 <= flags < 4
    ensures SizeIn(s + flags) == s && (s + flags) % 2 == flags % 2 && (s + flags) / 2 % 2 == flags / 2
  {
    var k := s / ALIGNMENT;
    ModUnique(s + flags, 8, 2 * k, flags);
    ModUnique(s + flags, 2, 8 * k + flags / 2, flags % 2);
    ModUnique(8 * k + flags / 2, 2, 4 * k, flags / 2);
  }

  lemma AlignedSum(a: int, b: int)
    requires a % ALIGNMENT == 0 && b % ALIGNMENT == 0
    ensures (a + b) % ALIGNMENT == 0
  {
    ModUnique(a + b, ALIGNMENT, a / ALIGNMENT + b / ALIGNMENT, 0);
  }

  /** What head and foot words say about a chunk in use. */
  lemma InUseChunk(h: Heap, row: Row, base: int, limit: int, top: int, topsize: int, p: int)
    requires Tiling(h, row, base, limit, top, topsize) && p in row && row[p].inuse
    ensures Size(h, p) == row[p].size && At(h.head, p) / 2 % 2 == 1
    ensures At(h.head, p) % 2 == 0 ==> FreeBefore(h, row, p)
    ensures At(h.head, p) % 2 == 1 ==> forall b | b in row && End(row, b) == p :: row[b].inuse
    ensures var n := End(row, p); n == top || n in row
    ensures At(h.head, p) == row[p].size + 2 + At(h.head, p) % 2
    ensures p > 0 && p != top && row[p].size >= MIN_CHUNK_SIZE && row[p].size % ALIGNMENT == 0
  {
    hide Separate;
    hide FreeBefore;
    hide SizeIn;
    assert Tagged(h, row, p);
    assert Shaped(row, base, top, p);
    HeadWord(row[p].size, 2);
    HeadWord(row[p].size, 3);
    forall b | b in row && End(row, b) == p && !row[b].inuse ensures At(h.head, p) == row[p].size + 2 {
      assert Tagged(h, row, b);
    }
  }

  lemma FreeChunk(h: Heap, row: Row, base: int, limit: int, top: int, topsize: int, p: int)
    requires Tiling(h, row, base, limit, top, topsize) && p in row && !row[p].inuse
    ensures Size(h, p) == row[p].size && At(h.head, p) == row[p].size + 1 && FreeAt(h, row, p)
    ensures p > 0 && p != top && row[p].size >= MIN_CHUNK_SIZE && row[p].size % ALIGNMENT == 0
    ensures forall b | b in row && End(row, b) == p :: row[b].inuse
  {
    hide Separate;
    hide SizeIn;
    assert Tagged(h, row, p);
    assert Shaped(row, base, top, p);
    HeadWord(row[p].size, 1);
    forall b | b in row && End(row, b) == p ensures row[b].inuse {
      assert Tagged(h, row, b);
    }
  }

  // ----- Allocating -----

  ghost function InUse(row: Row): map<int, nat> {
    map a | a in row && row[a].inuse :: row[a].size
  }

  ghost predicate HeadsBut(h: Heap, h': Heap, changed: set<int>) {
    forall a :: a !in changed ==> At(h'.head, a) == At(h.head, a)
  }

  ghost predicate FeetBut(h: Heap, h': Heap, changed: set<int>) {
    forall a :: a !in changed ==> At(h'.prevFoot, a) == At(h.prevFoot, a)
  }

  /** Free chunk p was handed out whole. */
  ghost predicate WholeUsed(h: Heap, h': Heap, row: Row, p: int) {
    && p in row && !row[p].inuse && End(row, p) in row
    && HeadsBut(h, h', {p, End(row, p)}) && FeetBut(h, h', {})
    && At(h'.head, p) == row[p].size + 3 && At(h'.head, End(row, p)) == row[End(row, p)].size + 3
  }

  lemma UseWhole(h: Heap, h': Heap, row: Row, base: int, limit: int, top: int, topsize: int, p: int)
    requires Tiling(h, row, base, limit, top, topsize) && WholeUsed(h, h', row, p)
    ensures Tiling(h', row[p := Tile(row[p].size, true)], base, limit, top, topsize)
    ensures InUse(row[p := Tile(row[p].size, true)]) == InUse(row)[p := row[p].size]
  {
    hide Separate;
    hide Shaped;
    hide Tagged;
    var row' := row[p := Tile(row[p].size, true)];
    FreeChunk(h, row, base, limit, top, topsize, p);
    RowOkWhole(h, row, base, limit, top, topsize, p);
    forall c | c in row' ensures Tagged(h', row', c) { TaggedWhole(h, h', row, base, limit, top, topsize, p, c); }
    TilingParts(h', row', base, limit, top, topsize);
    NotTop(h, row, base, limit, top, topsize, End(row, p));
  }

  lemma NotTop(h: Heap, row: Row, base: int, limit: int, top: int, topsize: int, a: int)
    requires Tiling(h, row, base, limit, top, topsize) && a in row
    ensures a < top && a > 0 && row[a].size >= MIN_CHUNK_SIZE
  {
    hide Separate;
    assert Shaped(row, base, top, a);
  }

  lemma RowOkWhole(h: Heap, row: Row, base: int, limit: int, top: int, topsize: int, p: int)
    requires Tiling(h, row, base, limit, top, topsize) && p in row
    ensures RowOk(row[p := Tile(row[p].size, true)], base, top)
  {
    hide Tagged;
    var row' := row[p := Tile(row[p].size, true)];
    forall c | c in row' ensures Shaped(row', base, top, c) { assert Shaped(row, base, top, c); }
  }

  lemma TaggedWhole(h: Heap, h': Heap, row: Row, base: int, limit: int, top: int, topsize: int, p: int, c: int)
    requires Tiling(h, row, base, limit, top, topsize) && WholeUsed(h, h', row, p) && c in row
    ensures Tagged(h', row[p := Tile(row[p].size, true)], c)
  {
    hide Shaped;
    hide Separate;
    var row' := row[p := Tile(row[p].size, true)];
    assert Tagged(h, row, c) && Tagged(h, row, p);
    if c != p && !row[c].inuse { EndsDiffer(h, row, base, limit, top, topsize, c, p); }
  }

  lemma EndsDiffer(h: Heap, row: Row, base: int, limit: int, top: int, topsize: int, a: int, b: int)
    requires Tiling(h, row, base, limit, top, topsize) && a in row && b in row && a != b
    ensures End(row, a) != End(row, b)
  {
    hide Tagged;
    assert Shaped(row, base, top, a) && Shaped(row, base, top, b);
  }

  /** The first nb bytes of free chunk p were handed out. */
  ghost predicate PartUsed(h: Heap, h': Heap, row: Row, p: int, nb: int) {
    && p in row && !row[p].inuse
    && HeadsBut(h, h', {p, p + nb}) && FeetBut(h, h', {End(row, p)})
    && At(h'.head, p) == nb + 3 && At(h'.head, p + nb) == row[p].size - nb + 1
    && At(h'.prevFoot, End(row, p)) == row[p].size - nb
  }

  ghost predicate Splits(row: Row, p: int, nb: int) {
    && p in row && MIN_CHUNK_SIZE <= nb && nb % ALIGNMENT == 0 && row[p].size - nb >= MIN_CHUNK_SIZE
  }

  ghost function PartRow(row: Row, p: int, nb: int): Row
    requires Splits(row, p, nb)
  {
    row[p := Tile(nb, true)][p + nb := Tile(row[p].size - nb, false)]
  }

  lemma UsePart(h: Heap, h': Heap, row: Row, base: int, limit: int, top: int, topsize: int, p: int, nb: int)
    requires Tiling(h, row, base, limit, top, topsize) && Splits(row, p, nb) && PartUsed(h, h', row, p, nb)
    ensures Tiling(h', PartRow(row, p, nb), base, limit, top, topsize) && p + nb !in row
    ensures InUse(PartRow(row, p, nb)) == InUse(row)[p := nb]
  {
    hide Separate;
    hide Shaped;
    hide Tagged;
    hide RowOk;
    var row' := PartRow(row, p, nb);
    FreeChunk(h, row, base, limit, top, topsize, p);
    InsideChunk(h, row, base, limit, top, topsize, p, nb);
    RowOkPart(h, row, base, limit, top, topsize, p, nb);
    forall c | c in row' ensures Tagged(h', row', c) { TaggedPart(h, h', row, base, limit, top, topsize, p, nb, c); }
    TilingParts(h', row', base, limit, top, topsize);
  }

  /** There is no chunk inside a chunk. */
  lemma InsideChunk(h: Heap, row: Row, base: int, limit: int, top: int, topsize: int, p: int, d: int)
    requires Tiling(h, row, base, limit, top, topsize) && p in row && 0 < d < row[p].size
    ensures p + d !in row && p + d != top
  {
    hide Tagged;
    assert Shaped(row, base, top, p);
  }

  lemma RowOkPart(h: Heap, row: Row, base: int, limit: int, top: int, topsize: int, p: int, nb: int)
    requires Tiling(h, row, base, limit, top, topsize) && Splits(row, p, nb)
    ensures RowOk(PartRow(row, p, nb), base, top)
  {
    hide Tagged;
    hide Shaped;
    hide Separate;
    var row' := PartRow(row, p, nb);
    InsideChunk(h, row, base, limit, top, topsize, p, nb);
    forall c | c in row' ensures Shaped(row', base, top, c) { ShapedPart(row, base, top, p, nb, c); }
    SeparatePart(row, p, nb);
  }

  lemma ShapedPart(row: Row, base: int, top: int, p: int, nb: int, c: int)
    requires RowOk(row, base, top) && Splits(row, p, nb) && c in PartRow(row, p, nb) && p + nb !in row
    ensures Shaped(PartRow(row, p, nb), base, top, c)
  {
    hide Separate;
    assert Shaped(row, base, top, p);
    if c == p + nb {
      AlignedSum(p, nb);
      ModUnique(row[p].size - nb, ALIGNMENT, row[p].size / ALIGNMENT - nb / ALIGNMENT, 0);
    } else {
      assert Shaped(row, base, top, c);
    }
  }

  lemma SeparatePart(row: Row, p: int, nb: int)
    requires Separate(row) && Splits(row, p, nb) && p + nb !in row
    ensures Separate(PartRow(row, p, nb))
  {
    var row' := PartRow(row, p, nb);
    forall a, b | a in row' && b in row' && a < b ensures End(row', a) <= b { }
  }

  lemma TaggedPart(h: Heap, h': Heap, row: Row, base: int, limit: int, top: int, topsize: int, p: int, nb: int, c: int)
    requires Tiling(h, row, base, limit, top, topsize) && Splits(row, p, nb) && PartUsed(h, h', row, p, nb)
    requires c in PartRow(row, p, nb)
    ensures Tagged(h', PartRow(row, p, nb), c)
  {
    hide Shaped;
    hide Separate;
    InsideChunk(h, row, base, limit, top, topsize, p, nb);
    assert Tagged(h, row, p);
    if c in row {
      assert Tagged(h, row, c);
      if c != p && !row[c].inuse { EndsDiffer(h, row, base, limit, top, topsize, c, p); }
    }
  }

  /** The first nb bytes of the top chunk were handed out. */
  ghost predicate TopUsed(h: Heap, h': Heap, top: int, topsize: int, nb: int) {
    && HeadsBut(h, h', {top, top + nb}) && FeetBut(h, h', {})
    && At(h'.head, top) == nb + 3 && At(h'.head, top + nb) == topsize - nb + 1
  }

  lemma UseTop(h: Heap, h': Heap, row: Row, base: int, limit: int, top: int, topsize: int, nb: int)
    requires Tiling(h, row, base, limit, top, topsize) && MIN_CHUNK_SIZE <= nb < topsize && nb % ALIGNMENT == 0
    requires TopUsed(h, h', top, topsize, nb)
    ensures top !in row && Tiling(h', row[top := Tile(nb, true)], base, limit, top + nb, topsize - nb)
    ensures InUse(row[top := Tile(nb, true)]) == InUse(row)[top := nb]
  {
    hide Separate;
    hide Shaped;
    hide Tagged;
    hide RowOk;
    hide InUse;
    var row' := row[top := Tile(nb, true)];
    RowOkTop(h, row, base, limit, top, topsize, nb);
    forall c | c in row' ensures Tagged(h', row', c) {
      if c == top { assert row'[c].inuse; TaggedNew(h', row', c); }
      else { TaggedTop(h, h', row, base, limit, top, topsize, nb, c); }
    }
    TilingParts(h, row, base, limit, top, topsize);
    hide Tiling;
    AlignedDifference(topsize, nb);
    InUseMore(row, top, nb);
    TilingParts(h', row', base, limit, top + nb, topsize - nb);
  }

  lemma AlignedDifference(a: int, b: int)
    requires a % ALIGNMENT == 0 && b % ALIGNMENT == 0
    ensures (a - b) % ALIGNMENT == 0
  {
    ModUnique(a - b, ALIGNMENT, a / ALIGNMENT - b / ALIGNMENT, 0);
  }

  lemma InUseMore(row: Row, a: int, s: nat)
    requires a !in row
    ensures InUse(row[a := Tile(s, true)]) == InUse(row)[a := s]
  {
  }

  lemma TaggedNew(h: Heap, row: Row, a: int)
    requires a in row && row[a].inuse && At(h.head, a) == row[a].size + 3
    ensures Tagged(h, row, a)
  {
  }

  lemma RowOkTop(h: Heap, row: Row, base: int, limit: int, top: int, topsize: int, nb: int)
    requires Tiling(h, row, base, limit, top, topsize) && MIN_CHUNK_SIZE <= nb < topsize && nb % ALIGNMENT == 0
    ensures top !in row && RowOk(row[top := Tile(nb, true)], base, top + nb)
  {
    hide Tagged;
    if top in row { NotTop(h, row, base, limit, top, topsize, top); }
    var row' := row[top := Tile(nb, true)];
    forall c | c in row' ensures Shaped(row', base, top + nb, c) { if c in row { assert Shaped(row, base, top, c); } }
    forall a, b | a in row' && b in row' && a < b ensures End(row', a) <= b {
      if a in row { assert Shaped(row, base, top, a); }
      if b in row { assert Shaped(row, base, top, b); }
    }
  }

  lemma TaggedTop(h: Heap, h': Heap, row: Row, base: int, limit: int, top: int, topsize: int, nb: int, c: int)
    requires Tiling(h, row, base, limit, top, topsize) && 0 < nb && TopUsed(h, h', top, topsize, nb) && c in row
             && top !in row
    ensures Tagged(h', row[top := Tile(nb, true)], c)
  {
    hide Separate;
    hide Shaped;
    assert Tagged(h, row, c);
    NotTop(h, row, base, limit, top, topsize, c);
    if !row[c].inuse { NotTop(h, row, base, limit, top, topsize, End(row, c)); }
  }

  // ----- Freeing -----

  /** The chunks from q up to e are chunk p, in use, and free chunks; what follows is in use, and
      what comes before q is too. */
  ghost predicate Releasable(row: Row, p: int, q: int, e: int) {
    && q in row && p in row && row[p].inuse && q <= p < e && (e - q) % ALIGNMENT == 0
    && (forall a | a in row && q <= a < e && a != p :: !row[a].inuse)
    && (forall b | b in row && End(row, b) == q :: row[b].inuse)
  }

  ghost function Emptied(row: Row, q: int, e: int): Row {
    map a | a in row && !(q <= a < e) :: row[a]
  }

  /** The chunks from q up to e as one free chunk. */
  ghost function Released(row: Row, q: int, e: int): Row
    requires q < e
  {
    Emptied(row, q, e)[q := Tile(e - q, false)]
  }

  ghost predicate ReleaseWrites(h: Heap, h': Heap, row: Row, q: int, e: int) {
    && e in row && row[e].inuse
    && HeadsBut(h, h', {q, e}) && FeetBut(h, h', {e})
    && At(h'.head, q) == e - q + 1 && At(h'.head, e) == row[e].size + 2 && At(h'.prevFoot, e) == e - q
  }

  lemma Release(h: Heap, h': Heap, row: Row, base: int, limit: int, top: int, topsize: int, p: int, q: int, e: int)
    requires Tiling(h, row, base, limit, top, topsize) && Releasable(row, p, q, e) && ReleaseWrites(h, h', row, q, e)
    ensures Tiling(h', Released(row, q, e), base, limit, top, topsize)
    ensures InUse(Released(row, q, e)) == InUse(row) - {p}
  {
    hide Separate;
    hide Shaped;
    hide Tagged;
    hide RowOk;
    hide Releasable;
    hide Released;
    InRow(row, p, q, e);
    var row' := Released(row, q, e);
    RowOkReleased(h, row, base, limit, top, topsize, p, q, e);
    forall c | c in row'
      ensures Tagged(h', row', c)
    {
      TaggedReleased(h, h', row, base, limit, top, topsize, p, q, e, c);
    }
    NotTop(h, row, base, limit, top, topsize, e);
    NotTop(h, row, base, limit, top, topsize, q);
    TilingParts(h', row', base, limit, top, topsize);
    InUseReleased(row, p, q, e);
  }

  lemma InRow(row: Row, p: int, q: int, e: int)
    requires Releasable(row, p, q, e)
    ensures q in row && p in row && q < e
  {
  }

  lemma InUseReleased(row: Row, p: int, q: int, e: int)
    requires Releasable(row, p, q, e)
    ensures InUse(Released(row, q, e)) == InUse(row) - {p}
    ensures InUse(Emptied(row, q, e)) == InUse(row) - {p}
  {
  }

  lemma RowOkReleased(h: Heap, row: Row, base: int, limit: int, top: int, topsize: int, p: int, q: int, e: int)
    requires Tiling(h, row, base, limit, top, topsize) && Releasable(row, p, q, e) && e in row
    ensures RowOk(Released(row, q, e), base, top)
  {
    hide Tagged;
    var row' := Released(row, q, e);
    assert Shaped(row, base, top, q) && Shaped(row, base, top, e);
    forall c | c in row' ensures Shaped(row', base, top, c) {
      if c != q { ShapedReleased(h, row, base, limit, top, topsize, p, q, e, c); }
    }
    SeparateReleased(row, p, q, e);
  }

  lemma SeparateReleased(row: Row, p: int, q: int, e: int)
    requires Separate(row) && q in row && e in row && q < e
    ensures Separate(Released(row, q, e))
  {
    var row' := Released(row, q, e);
    forall a, b | a in row' && b in row' && a < b ensures End(row', a) <= b { }
  }

  lemma ShapedReleased(h: Heap, row: Row, base: int, limit: int, top: int, topsize: int, p: int, q: int, e: int, c: int)
    requires Tiling(h, row, base, limit, top, topsize) && Releasable(row, p, q, e) && e in row && c in row
             && !(q <= c < e)
    ensures Shaped(Released(row, q, e), base, top, c)
  {
    hide Tagged;
    assert Shaped(row, base, top, c);
  }

  lemma TaggedReleased(h: Heap, h': Heap, row: Row, base: int, limit: int, top: int, topsize: int, p: int, q: int,
                       e: int, c: int)
    requires Tiling(h, row, base, limit, top, topsize) && Releasable(row, p, q, e) && ReleaseWrites(h, h', row, q, e)
    requires c in Released(row, q, e)
    ensures Tagged(h', Released(row, q, e), c)
  {
    hide Tiling;
    var row' := Released(row, q, e);
    if c != q {
      ChunkFacts(h, row, base, limit, top, topsize, c);
      if c == e {
        assert FreeBefore(h', row', e);
      } else if row[c].inuse {
        if FreeBefore(h, row, c) {
          var b := c - At(h.prevFoot, c);
          BeforeStays(h, row, base, limit, top, topsize, q, e, b, c);
        }
      } else {
        AfterStays(h, row, base, limit, top, topsize, p, q, e, c);
      }
    }
  }

  lemma ChunkFacts(h: Heap, row: Row, base: int, limit: int, top: int, topsize: int, c: int)
    requires Tiling(h, row, base, limit, top, topsize) && c in row
    ensures Tagged(h, row, c) && Shaped(row, base, top, c)
  {
    hide Separate;
  }

  lemma BeforeStays(h: Heap, row: Row, base: int, limit: int, top: int, topsize: int, q: int, e: int, b: int, c: int)
    requires Tiling(h, row, base, limit, top, topsize) && b in row && c in row && End(row, b) == c && !(q <= c < e)
             && c != e
    requires e in row && q < e
    ensures !(q <= b < e)
  {
    hide Tagged;
    assert Shaped(row, base, top, b);
  }

  lemma AfterStays(h: Heap, row: Row, base: int, limit: int, top: int, topsize: int, p: int, q: int, e: int, c: int)
    requires Tiling(h, row, base, limit, top, topsize) && c in row && !row[c].inuse && !(q <= c < e)
    requires Releasable(row, p, q, e) && e in row
    ensures End(row, c) in row && !(q <= End(row, c) <= e)
  {
    hide Separate;
    ChunkFacts(h, row, base, limit, top, topsize, c);
    BetweenChunks(h, row, base, limit, top, topsize, q, e, c);
  }

  lemma BetweenChunks(h: Heap, row: Row, base: int, limit: int, top: int, topsize: int, q: int, e: int, c: int)
    requires Tiling(h, row, base, limit, top, topsize) && c in row && q in row && e in row && q < e && !(q <= c < e)
    ensures c < q ==> End(row, c) <= q
    ensures c >= e ==> End(row, c) > e
  {
    hide Tagged;
    assert Shaped(row, base, top, c);
  }

  /** The chunks from q on, p and free chunks, became part of the top chunk. */
  lemma ReleaseTop(h: Heap, h': Heap, row: Row, base: int, limit: int, top: int, topsize: int, p: int, q: int)
    requires Tiling(h, row, base, limit, top, topsize) && Releasable(row, p, q, top)
    requires HeadsBut(h, h', {q}) && FeetBut(h, h', {}) && At(h'.head, q) == limit - q + 1
    ensures Tiling(h', Emptied(row, q, top), base, limit, q, limit - q)
    ensures InUse(Emptied(row, q, top)) == InUse(row) - {p}
  {
    hide Separate;
    hide Shaped;
    hide Tagged;
    hide RowOk;
    hide Emptied;
    hide Releasable;
    var row' := Emptied(row, q, top);
    InUseReleased(row, p, q, top);
    TopReleased(h, row, base, limit, top, topsize, p, q);
    forall c | c in row'
      ensures Tagged(h', row', c)
    {
      TaggedTopReleased(h, h', row, base, limit, top, topsize, p, q, c);
    }
    TilingParts(h', row', base, limit, q, limit - q);
  }

  lemma TopReleased(h: Heap, row: Row, base: int, limit: int, top: int, topsize: int, p: int, q: int)
    requires Tiling(h, row, base, limit, top, topsize) && Releasable(row, p, q, top)
    ensures RowOk(Emptied(row, q, top), base, q) && q < top && (limit - q) % ALIGNMENT == 0
  {
    hide Tagged;
    var row' := Emptied(row, q, top);
    assert Shaped(row, base, top, q);
    forall c | c in row' ensures Shaped(row', base, q, c) {
      assert Shaped(row, base, top, c);
    }
  }

  lemma TaggedTopReleased(h: Heap, h': Heap, row: Row, base: int, limit: int, top: int, topsize: int, p: int, q: int,
                          c: int)
    requires Tiling(h, row, base, limit, top, topsize) && Releasable(row, p, q, top)
    requires HeadsBut(h, h', {q}) && FeetBut(h, h', {}) && c in Emptied(row, q, top)
    ensures Tagged(h', Emptied(row, q, top), c)
  {
    hide Tiling;
    ChunkFacts(h, row, base, limit, top, topsize, c);
    NotTop(h, row, base, limit, top, topsize, c);
    EndsBefore(h, row, base, limit, top, topsize, q, c);
    if FreeBefore(h, row, c) {
      var b := c - At(h.prevFoot, c);
      NotTop(h, row, base, limit, top, topsize, b);
    }
  }

  lemma EndsBefore(h: Heap, row: Row, base: int, limit: int, top: int, topsize: int, q: int, c: int)
    requires Tiling(h, row, base, limit, top, topsize) && q in row && c in row && c < q
    ensures End(row, c) <= q
  {
    hide Tagged;
    hide Shaped;
  }

  // ----- Walking the segment -----

  /** The chunks met walking from address a to the top chunk, each by the size of the one before. */
  ghost function Walk(row: Row, a: int, top: int): seq<int>
    decreases top - a
  {
    if a in row && a < top && row[a].size > 0 then [a] + Walk(row, End(row, a), top) else []
  }

  ghost function Total(row: Row, c: seq<int>): int {
    if c == [] then 0 else (if c[0] in row then row[c[0]].size else 0) + Total(row, c[1..])
  }

  lemma {:induction false} WalkFrom(h: Heap, row: Row, base: int, limit: int, top: int, topsize: int, a: int)
    requires Tiling(h, row, base, limit, top, topsize) && (a in row || a == top)
    ensures Total(row, Walk(row, a, top)) == top - a && Ascending(Walk(row, a, top))
    ensures forall b :: b in Walk(row, a, top) <==> b in row && a <= b
    decreases top - a
  {
    hide Tiling;
    hide Ascending;
    if a in row {
      NotTop(h, row, base, limit, top, topsize, a);
      ChunkFacts(h, row, base, limit, top, topsize, a);
      var n := End(row, a);
      WalkFrom(h, row, base, limit, top, topsize, n);
      Prepended(a, Walk(row, n, top));
      assert Walk(row, a, top) == [a] + Walk(row, n, top);
      NextChunk(h, row, base, limit, top, topsize, a);
    } else {
      forall b | b in row ensures b < a { NotTop(h, row, base, limit, top, topsize, b); }
      NoneAscend();
    }
  }

  lemma NextChunk(h: Heap, row: Row, base: int, limit: int, top: int, topsize: int, a: int)
    requires Tiling(h, row, base, limit, top, topsize) && a in row
    ensures forall b | b in row && a < b :: End(row, a) <= b
  {
  }

  /** Walking from the first chunk meets every chunk once, in order of address, and with the top
      chunk the sizes add up to the whole segment. */
  lemma WalkMeetsAll(h: Heap, row: Row, base: int, limit: int, top: int, topsize: int)
    requires Tiling(h, row, base, limit, top, topsize)
    ensures Total(row, Walk(row, base, top)) + topsize == limit - base
    ensures Ascending(Walk(row, base, top)) && forall b :: b in Walk(row, base, top) <==> b in row
  {
    hide Tagged;
    hide Separate;
    WalkFrom(h, row, base, limit, top, topsize, base);
    forall b | b in row ensures base <= b { assert Shaped(row, base, top, b); }
  }

  lemma EvenSize(h: Heap, row: Row, base: int, limit: int, top: int, topsize: int, a: int)
    requires Tiling(h, row, base, limit, top, topsize) && a in row
    ensures row[a].size % 2 == 0
  {
    hide Separate;
    hide Tagged;
    assert Shaped(row, base, top, a);
    hide Tiling;
    ModUnique(row[a].size, 2, 8 * (row[a].size / ALIGNMENT), 0);
  }

  /** From the top chunk on there is no other chunk. */
  lemma TopApart(h: Heap, row: Row, base: int, limit: int, top: int, topsize: int)
    requires Tiling(h, row, base, limit, top, topsize)
    ensures forall a | a in row :: a < top
  {
    forall a | a in row ensures a < top { NotTop(h, row, base, limit, top, topsize, a); }
  }

  // ----- The chunks around one that is freed -----

  /** Chunk p is in use; q is p, or the free chunk before it; e is its end, or that of the free chunk after it. */
  ghost predicate Around(h: Heap, row: Row, p: int, q: int, e: int) {
    && p in row && row[p].inuse
    && (if q == p then At(h.head, p) % 2 == 1 else q in row && !row[q].inuse && End(row, q) == p)
    && (e == End(row, p) || (End(row, p) in row && !row[End(row, p)].inuse && e == End(row, End(row, p))))
  }

  /** What is merged from below p is the one free chunk that ends there. */
  lemma BeforeIs(h: Heap, row: Row, base: int, limit: int, top: int, topsize: int, p: int, q: int, e: int, v: int)
    requires Tiling(h, row, base, limit, top, topsize) && Around(h, row, p, q, e) && v in row && !row[v].inuse
    ensures q == v <==> End(row, v) == p
  {
    hide Tiling;
    InUseChunk(h, row, base, limit, top, topsize, p);
    FreeChunk(h, row, base, limit, top, topsize, v);
    NextChunk(h, row, base, limit, top, topsize, v);
    if q != p {
      NextChunk(h, row, base, limit, top, topsize, q);
      FreeChunk(h, row, base, limit, top, topsize, q);
    }
  }

  lemma AroundPlaces(h: Heap, row: Row, base: int, limit: int, top: int, topsize: int, p: int, q: int, e: int)
    requires Tiling(h, row, base, limit, top, topsize) && Around(h, row, p, q, e)
    ensures 0 < q <= p < p + row[p].size <= e
  {
    hide Tiling;
    InUseChunk(h, row, base, limit, top, topsize, p);
    if q != p { FreeChunk(h, row, base, limit, top, topsize, q); }
    if e != End(row, p) { FreeChunk(h, row, base, limit, top, topsize, End(row, p)); }
  }

  lemma AroundIsReleasable(h: Heap, row: Row, base: int, limit: int, top: int, topsize: int, p: int, q: int, e: int)
    requires Tiling(h, row, base, limit, top, topsize) && Around(h, row, p, q, e)
    ensures Releasable(row, p, q, e)
    ensures forall a | a in row && q <= a < e :: a == p || (a == q && q != p) || (a == End(row, p) && e != End(row, p))
    ensures e != End(row, p) ==> e in row && row[e].inuse && At(h.head, e) == row[e].size + 2
    ensures var before := if q == p then 0 else row[q].size;
            var after := if e == End(row, p) then 0 else row[End(row, p)].size;
            e - q == before + row[p].size + after
  {
    hide Tiling;
    hide Tagged;
    InUseChunk(h, row, base, limit, top, topsize, p);
    NextChunk(h, row, base, limit, top, topsize, p);
    if q != p {
      FreeChunk(h, row, base, limit, top, topsize, q);
      NextChunk(h, row, base, limit, top, topsize, q);
    }
    var n := End(row, p);
    if e != n {
      FreeChunk(h, row, base, limit, top, topsize, n);
      NextChunk(h, row, base, limit, top, topsize, n);
    }
    var before, after := if q == p then 0 else row[q].size, if e == n then 0 else row[n].size;
    AlignedSum(before, row[p].size);
    AlignedSum(before + row[p].size, after);
  }

  /** The in-use bit after a chunk in use: set in a chunk in use, clear in a free one and in the top chunk. */
  lemma NextBits(h: Heap, row: Row, base: int, limit: int, top: int, topsize: int, p: int)
    requires Tiling(h, row, base, limit, top, topsize) && p in row && row[p].inuse
    ensures var n := End(row, p); var w := At(h.head, n);
            if n in row && row[n].inuse
            then w == row[n].size + 3 && w % 4 == 3 && w / 2 % 2 == 1 && ClearBit0(w) == row[n].size + 2
            else w % 4 != 3 && w / 2 % 2 == 0
    ensures End(row, p) == top <==> End(row, p) !in row
  {
    hide Tiling;
    hide Tagged;
    hide FreeBefore;
    InUseChunk(h, row, base, limit, top, topsize, p);
    TopApart(h, row, base, limit, top, topsize);
    var n := End(row, p);
    if n in row && row[n].inuse {
      InUseChunk(h, row, base, limit, top, topsize, n);
      PinSet(h, row, base, limit, top, topsize, p);
      FlagBits(row[n].size, 3);
    } else if n in row {
      FreeChunk(h, row, base, limit, top, topsize, n);
      FlagBits(row[n].size, 1);
    } else {
      TopWord(h, row, base, limit, top, topsize);
      FlagBits(topsize, 1);
    }
  }

  lemma TopWord(h: Heap, row: Row, base: int, limit: int, top: int, topsize: int)
    requires Tiling(h, row, base, limit, top, topsize)
    ensures At(h.head, top) == topsize + 1 && topsize % ALIGNMENT == 0 && topsize == limit - top && topsize > 0
  {
  }

  /** The chunk after one in use has its previous-in-use bit set. */
  lemma PinSet(h: Heap, row: Row, base: int, limit: int, top: int, topsize: int, p: int)
    requires Tiling(h, row, base, limit, top, topsize) && p in row && row[p].inuse && End(row, p) in row
             && row[End(row, p)].inuse
    ensures At(h.head, End(row, p)) == row[End(row, p)].size + 3
  {
    hide Shaped;
    var n := End(row, p);
    assert Tagged(h, row, n);
    if FreeBefore(h, row, n) {
      var b := n - At(h.prevFoot, n);
      EndsDiffer(h, row, base, limit, top, topsize, b, p);
    }
  }

  /** A word with its lowest bit cleared. */
  function ClearBit0(w: int): int {
    w / 2 * 2
  }

  lemma FlagBits(s: int, flags: int)
    requires s % ALIGNMENT == 0 && 0 <= flags < 4
    ensures (s + flags) % 4 == flags && (s + flags) / 2 % 2 == flags / 2 && ClearBit0(s + flags) == s + flags / 2 * 2
  {
    hide SizeIn;
    HeadWord(s, flags);
    var k := s / ALIGNMENT;
    ModUnique(s + flags, 4, 4 * k, flags);
    ModUnique(s + flags, 2, 8 * k + flags / 2, flags % 2);
  }
}
