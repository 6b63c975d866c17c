/** dlmalloc's bin index arithmetic: which tree bin holds a size, the interval of sizes each trie
    position covers, and the shifted key that steers a walk down the trie. */
module BinIndex {
  import opened Arithmetic

  const NTREEBINS: nat := 32
  const MIN_LARGE_SIZE: nat := 256

  /** Chunk sizes for which the index macro's narrowing to 32 bits loses nothing. */
  const MAX_SIZE: nat := 0x100_0000_0000

  /** One more than the largest machine word. */
  const WORD: nat := 0x1_0000_0000_0000_0000

  function TreeIndex(size: nat): nat {
    var x := size / 256 % 0x1_0000_0000;
    if x == 0 then 0
    else if x > 0xFFFF then NTREEBINS - 1
    else
      var k := HighBit(x);
      2 * k + size / Pow2(k + 7) % 2
  }

  function MinSize(index: nat): nat {
    Pow2(index / 2 + 8) + (if index % 2 == 1 then Pow2(index / 2 + 7) else 0)
  }

  /** The index of a size between the first and the last bin, by its two highest bits. */
  lemma MiddleIndex(s: nat, k: nat, m: nat)
    requires MIN_LARGE_SIZE <= s && s / 256 <= 0xFFFF && k == HighBit(s / 256) && m == Pow2(k + 7)
    ensures k <= 15 && 2 * m <= s < 4 * m
    ensures TreeIndex(s) == if s < 3 * m then 2 * k else 2 * k + 1
  {
    hide Pow2;
    hide HighBit;
    HighestBits(s, k);
    SecondBit(s, m);
  }

  lemma HighestBits(s: nat, k: nat)
    requires MIN_LARGE_SIZE <= s && s / 256 <= 0xFFFF && k == HighBit(s / 256)
    ensures k <= 15 && 2 * Pow2(k + 7) <= s < 4 * Pow2(k + 7)
  {
    hide Pow2;
    hide HighBit;
    Pow2Values();
    HighBitBounds(s / 256);
    if k > 15 { Pow2Monotone(16, k); }
    Pow2Sum(7, k);
  }

  lemma SecondBit(s: nat, m: nat)
    requires m > 0 && 2 * m <= s < 4 * m
    ensures s / m % 2 == if s < 3 * m then 0 else 1
  {
    var q := if s < 3 * m then 2 else 3;
    ModUnique(s, m, q, s - q * m);
  }

  lemma MinSizes(k: nat)
    ensures MinSize(2 * k) == 2 * Pow2(k + 7) && MinSize(2 * k + 1) == 3 * Pow2(k + 7)
            && MinSize(2 * k + 2) == 4 * Pow2(k + 7)
  {
    assert Pow2(k + 8) == 2 * Pow2(k + 7) && Pow2(k + 9) == 2 * Pow2(k + 8);
  }

  lemma LastBin()
    ensures MinSize(NTREEBINS - 1) == 0xC0_0000
  {
    Pow2Values();
  }

  /** The index of a size is the bin whose range holds it. */
  lemma TreeIndexBounds(s: nat)
    requires MIN_LARGE_SIZE <= s < MAX_SIZE
    ensures TreeIndex(s) < NTREEBINS
    ensures MinSize(TreeIndex(s)) <= s
    ensures TreeIndex(s) == NTREEBINS - 1 || s < MinSize(TreeIndex(s) + 1)
  {
    hide HighBit;
    hide Pow2;
    hide MinSize;
    if s / 256 > 0xFFFF {
      LastBin();
      assert s / 256 < 0x1_0000_0000;
    } else {
      var k := HighBit(s / 256);
      MiddleIndex(s, k, Pow2(k + 7));
      MinSizes(k);
    }
  }

  lemma MinSizeStep(i: nat)
    ensures MinSize(i) < MinSize(i + 1)
  {
    MinSizes(i / 2);
  }

  lemma {:induction false} MinSizesAscend(i: nat, j: nat)
    requires i < j
    ensures MinSize(i) < MinSize(j)
  {
    MinSizeStep(j - 1);
    if i + 1 < j { MinSizesAscend(i, j - 1); }
  }

  /** Larger sizes are in the same or later bins, and only sizes of one bin share an index. */
  lemma TreeIndexMonotone(s: nat, t: nat)
    requires MIN_LARGE_SIZE <= s <= t < MAX_SIZE
    ensures TreeIndex(s) <= TreeIndex(t)
  {
    TreeIndexBounds(s);
    TreeIndexBounds(t);
    if TreeIndex(t) < TreeIndex(s) {
      if TreeIndex(t) + 1 < TreeIndex(s) { MinSizesAscend(TreeIndex(t) + 1, TreeIndex(s)); }
    }
  }

  /** A size belongs to the one bin whose range holds it. */
  lemma TreeIndexUnique(s: nat, i: nat)
    requires MIN_LARGE_SIZE <= s < MAX_SIZE && i < NTREEBINS
    requires MinSize(i) <= s && (i == NTREEBINS - 1 || s < MinSize(i + 1))
    ensures TreeIndex(s) == i
  {
    hide *;
    TreeIndexBounds(s);
    OneRange(s, i, TreeIndex(s));
  }

  lemma OneRange(s: nat, i: nat, j: nat)
    requires i < NTREEBINS && MinSize(i) <= s && (i == NTREEBINS - 1 || s < MinSize(i + 1))
    requires j < NTREEBINS && MinSize(j) <= s && (j == NTREEBINS - 1 || s < MinSize(j + 1))
    ensures i == j
  {
    hide MinSize;
    if j < i && j + 1 < i { MinSizesAscend(j + 1, i); }
    if i < j && i + 1 < j { MinSizesAscend(i + 1, j); }
  }

  /** The bin whose range holds size s. */
  predicate InRange(s: nat, i: nat) {
    i < NTREEBINS && MinSize(i) <= s && (i == NTREEBINS - 1 || s < MinSize(i + 1))
  }

  /** Exactly when the index is right for a word: the macro keeps only 32 bits of the size above its
      lowest 8, so from 2^40 on it is right only for sizes whose kept bits still say "last bin". */
  lemma IndexRightWhen(s: nat)
    requires MIN_LARGE_SIZE <= s < WORD
    ensures InRange(s, TreeIndex(s)) <==> s < MAX_SIZE || s / 256 % 0x1_0000_0000 >= 0xC000
  {
    hide MinSize;
    hide Pow2;
    hide HighBit;
    LastBin();
    if s < MAX_SIZE {
      hide TreeIndex;
      TreeIndexBounds(s);
    } else {
      var x := s / 256 % 0x1_0000_0000;
      if 0 < x <= 0xFFFF { NarrowedIndex(s, x); }
      if TreeIndex(s) < NTREEBINS - 1
             && TreeIndex(s) + 1 < NTREEBINS - 1 { MinSizesAscend(TreeIndex(s) + 1, NTREEBINS - 1); }
    }
  }

  /** From 2^40 on the index can be wrong: that size itself gets index 0. */
  lemma FirstWrongIndex()
    ensures TreeIndex(MAX_SIZE) == 0 && !InRange(MAX_SIZE, TreeIndex(MAX_SIZE))
  {
    hide Pow2;
    hide HighBit;
    hide MinSize;
    hide InRange;
    assert MAX_SIZE / 256 % 0x1_0000_0000 == 0;
    IndexRightWhen(MAX_SIZE);
  }

  lemma NarrowedIndex(s: nat, x: nat)
    requires x == s / 256 % 0x1_0000_0000 && 0 < x <= 0xFFFF
    ensures TreeIndex(s) <= NTREEBINS - 1 && (TreeIndex(s) == NTREEBINS - 1 <==> x >= 0xC000)
  {
    hide Pow2;
    hide HighBit;
    var k := HighBit(x);
    HighBitBounds(x);
    Pow2Values();
    if k > 15 { Pow2Monotone(16, k); }
    if k < 15 { Pow2Monotone(k + 1, 15); }
    HighestBit(x, k);
    if k == 15 { BitOf22(s, x); }
  }

  lemma HighestBit(x: nat, k: nat)
    requires k == HighBit(x) && 0 < x <= 0xFFFF
    ensures k <= 15 && (k == 15 <==> x >= 0x8000)
  {
    hide Pow2;
    HighBitBounds(x);
    Pow2Values();
    assert Pow2(16) == 2 * Pow2(15) by { HalvePow2(16); }
    assert Pow2(k + 1) == 2 * Pow2(k) by { HalvePow2(k + 1); }
    if k > 15 { Pow2Monotone(16, k); }
    if k < 15 { Pow2Monotone(k + 1, 15); }
    if k >= 15 { Pow2Monotone(15, k); }
  }

  lemma BitOf22(s: nat, x: nat)
    requires x == s / 256 % 0x1_0000_0000 && 0x8000 <= x <= 0xFFFF
    ensures s / 0x40_0000 % 2 == if x >= 0xC000 then 1 else 0
  {
    var c, y := s / 256 / 0x1_0000_0000, if x >= 0xC000 then 3 else 2;
    var rest := s % 256 + 256 * (x - 0x4000 * y);
    assert s == (0x4_0000 * c + y) * 0x40_0000 + rest;
    ModUnique(s, 0x40_0000, 0x4_0000 * c + y, rest);
    ModUnique(0x4_0000 * c + y, 2, 0x2_0000 * c + 1, y - 2);
  }

  // ----- Positions in the tries -----

  /** A place in a bin's trie: the root, or a child of another place. */
  datatype Pos = Root(bin: nat) | Child(parent: Pos, right: bool)

  function Bin(p: Pos): nat {
    match p case Root(b) => b case Child(q, _) => Bin(q)
  }

  function Depth(p: Pos): nat {
    match p case Root(_) => 0 case Child(q, _) => 1 + Depth(q)
  }

  lemma ParentDiffers(p: Pos)
    ensures p.Child? ==> p.parent != p
  {
    assert p.Child? ==> Depth(p.parent) < Depth(p);
  }

  /** The shift that moves a bin's first deciding bit to the top of a word. */
  function LeftShift(bin: nat): nat {
    if bin == NTREEBINS - 1 then 0 else if bin / 2 < 57 then 57 - bin / 2 else 0
  }

  /** The number of bits that still distinguish sizes below a position. */
  function Bits(p: Pos): int {
    match p
    case Root(b) => 64 - LeftShift(b)
    case Child(q, _) => Bits(q) - 1
  }

  predicate Valid(p: Pos) {
    match p
    case Root(b) => b < NTREEBINS
    case Child(q, _) => Valid(q) && Bits(q) >= 1
  }

  function Width(p: Pos): nat {
    if Bits(p) >= 0 then Pow2(Bits(p)) else 0
  }

  /** The least size a position's subtree may hold. */
  function Lo(p: Pos): nat {
    match p
    case Root(b) => if b == NTREEBINS - 1 then 0 else MinSize(b)
    case Child(q, right) => if right then Lo(q) + Width(p) else Lo(q)
  }

  /** Size s may be held below position p. */
  predicate Holds(p: Pos, s: nat) {
    Lo(p) <= s < Lo(p) + Width(p)
  }

  lemma WidthOfChild(p: Pos, right: bool)
    requires Bits(p) >= 1
    ensures Width(Child(p, right)) == Pow2(Bits(p) - 1) && Width(p) == Pow2(Bits(p))
  {
    hide Pow2;
    hide LeftShift;
    assert Bits(Child(p, right)) == Bits(p) - 1;
  }

  lemma LoOfChild(p: Pos)
    ensures Lo(Child(p, false)) == Lo(p) && Lo(Child(p, true)) == Lo(p) + Width(Child(p, true))
  {
    hide Pow2;
    hide Width;
    hide MinSize;
  }

  /** A position's interval is twice as wide as its children's. */
  lemma Halved(p: Pos)
    requires Bits(p) >= 1
    ensures Width(p) == 2 * Width(Child(p, true)) == 2 * Width(Child(p, false))
    ensures Lo(Child(p, false)) == Lo(p) && Lo(Child(p, true)) == Lo(p) + Width(Child(p, true))
  {
    hide *;
    WidthOfChild(p, true);
    WidthOfChild(p, false);
    HalvePow2(Bits(p));
    LoOfChild(p);
  }

  /** A position's sizes are divided between its children. */
  lemma ChildrenHold(p: Pos, s: nat)
    requires Valid(p) && Bits(p) >= 1
    ensures Holds(p, s) <==> Holds(Child(p, false), s) || Holds(Child(p, true), s)
    ensures Holds(Child(p, true), s) <==> Holds(p, s) && s >= Lo(p) + Width(p) / 2
    ensures Holds(Child(p, false), s) <==> Holds(p, s) && s < Lo(p) + Width(p) / 2
  {
    Halved(p);
    hide Lo;
    hide Width;
  }

  /** The root of a size's bin holds it. */
  lemma RootHolds(s: nat)
    requires MIN_LARGE_SIZE <= s < MAX_SIZE
    ensures Valid(Root(TreeIndex(s))) && Holds(Root(TreeIndex(s)), s)
  {
    hide Pow2;
    hide MinSize;
    hide TreeIndex;
    TreeIndexBounds(s);
    RootRange(TreeIndex(s));
  }

  lemma RootRange(i: nat)
    requires i < NTREEBINS
    ensures Valid(Root(i))
    ensures i == NTREEBINS - 1 ==> Lo(Root(i)) == 0 && Width(Root(i)) == WORD
    ensures i < NTREEBINS - 1 ==> Lo(Root(i)) == MinSize(i) && Lo(Root(i)) + Width(Root(i)) == MinSize(i + 1)
  {
    hide Pow2;
    hide MinSize;
    if i == NTREEBINS - 1 {
      Pow2Values();
    } else {
      MinSizes(i / 2);
      assert i == 2 * (i / 2) || i == 2 * (i / 2) + 1;
      assert Bits(Root(i)) == i / 2 + 7;
    }
  }

  // ----- The key that steers a walk -----

  /** The distinguishing bits of s below p, shifted to the top of a word. */
  function Key(p: Pos, s: nat): int {
    if Holds(p, s) && 0 <= Bits(p) <= 64 then (s - Lo(p)) * Pow2(64 - Bits(p)) else 0
  }

  /** Which child the top bit of the key selects. */
  predicate TopBit(key: int) {
    key / 0x8000_0000_0000_0000 % 2 == 1
  }

  /** The walk starts from the size shifted left within a word. */
  lemma KeyStarts(s: nat)
    requires MIN_LARGE_SIZE <= s < MAX_SIZE
    ensures s * Pow2(LeftShift(TreeIndex(s))) % WORD == Key(Root(TreeIndex(s)), s)
  {
    hide Pow2;
    hide TreeIndex;
    hide MinSize;
    TreeIndexBounds(s);
    RootHolds(s);
    var i := TreeIndex(s);
    var q, w, scale := RootScale(i);
    ShiftDrops(s, Lo(Root(i)), q, w, scale);
  }

  lemma RootScale(i: nat) returns (q: nat, w: nat, scale: nat)
    requires i < NTREEBINS
    ensures w == Width(Root(i)) > 0 && scale == Pow2(LeftShift(i)) == Pow2(64 - Bits(Root(i)))
            && 0 <= Bits(Root(i)) <= 64
    ensures w * scale == WORD && Lo(Root(i)) == q * w
  {
    hide Pow2;
    hide MinSize;
    w, scale := Width(Root(i)), Pow2(LeftShift(i));
    RootRange(i);
    Pow2Values();
    Pow2Sum(64 - LeftShift(i), LeftShift(i));
    if i < NTREEBINS - 1 {
      q := if i % 2 == 0 then 2 else 3;
      MinSizes(i / 2);
      assert i == 2 * (i / 2) || i == 2 * (i / 2) + 1;
    } else {
      q := 0;
    }
  }

  /** Shifting drops a multiple of the width from the top of the word. */
  lemma ShiftDrops(s: nat, lo: nat, q: nat, w: nat, scale: nat)
    requires w > 0 && lo == q * w && lo <= s < lo + w && w * scale == WORD
    ensures s * scale % WORD == (s - lo) * scale
  {
    var r := s - lo;
    assert s * scale == q * WORD + r * scale by {
      assert s * scale == lo * scale + r * scale;
      assert lo * scale == q * (w * scale);
    }
    MulStep(r, w, scale);
    ModUnique(s * scale, WORD, q, r * scale);
  }

  /** The top bit selects the child that holds s, and shifting once gives that child's key. */
  lemma KeySteers(p: Pos, s: nat)
    requires Valid(p) && Bits(p) >= 1 && Holds(p, s)
    ensures Holds(Child(p, TopBit(Key(p, s))), s)
    ensures Key(p, s) * 2 % WORD == Key(Child(p, TopBit(Key(p, s))), s)
  {
    hide Pow2;
    hide Lo;
    hide Bits;
    ChildrenHold(p, s);
    var h, scale := KeyScale(p);
    Steer(s - Lo(p), h, scale);
  }

  lemma KeyScale(p: Pos) returns (h: nat, scale: nat)
    requires Valid(p) && Bits(p) >= 1
    ensures Bits(p) <= 64 && Bits(Child(p, true)) == Bits(Child(p, false)) == Bits(p) - 1
    ensures scale == Pow2(64 - Bits(p)) && Pow2(64 - (Bits(p) - 1)) == 2 * scale
    ensures Width(p) == 2 * h == 2 * (Width(p) / 2) && (2 * h) * scale == WORD
    ensures Lo(Child(p, true)) == Lo(p) + h && Lo(Child(p, false)) == Lo(p)
  {
    hide Pow2;
    BitsBounded(p);
    h, scale := Pow2(Bits(p) - 1), Pow2(64 - Bits(p));
    WordHalves(Bits(p));
  }

  lemma WordHalves(b: nat)
    requires 1 <= b <= 64
    ensures Pow2(b) == 2 * Pow2(b - 1) && Pow2(64 - (b - 1)) == 2 * Pow2(64 - b)
    ensures Pow2(b) * Pow2(64 - b) == WORD
  {
    Pow2Sum(b, 64 - b);
    Pow2Values();
  }

  lemma {:induction false} BitsBounded(p: Pos)
    requires Valid(p)
    ensures 0 <= Bits(p) <= 64
  {
    if p.Child? { BitsBounded(p.parent); }
  }

  lemma Steer(r: nat, h: nat, scale: nat)
    requires r < 2 * h && (2 * h) * scale == WORD
    ensures TopBit(r * scale) <==> r >= h
    ensures r * scale * 2 % WORD == (if r >= h then r - h else r) * (2 * scale)
  {
    hide TopBit;
    var k := r * scale;
    assert h * scale == 0x8000_0000_0000_0000 by { assert (2 * h) * scale == 2 * (h * scale); }
    MulStep(r, 2 * h, scale);
    if r >= h {
      assert (r - h) * scale == k - h * scale;
      MulStep(h, r, scale);
      Doubled(r - h, scale);
    } else {
      MulStep(r, h, scale);
      Doubled(r, scale);
    }
    TopBitOf(k);
  }

  lemma Doubled(r: nat, scale: nat)
    ensures r * (2 * scale) == 2 * (r * scale) >= 0
  {
  }

  /** The top bit of a word, and the word shifted left by one. */
  lemma TopBitOf(k: nat)
    requires k < WORD
    ensures TopBit(k) <==> k >= 0x8000_0000_0000_0000
    ensures k * 2 % WORD == if k >= 0x8000_0000_0000_0000 then 2 * (k - 0x8000_0000_0000_0000) else 2 * k
  {
  }
}
