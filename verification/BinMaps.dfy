/** dlmalloc's bitmaps of bins: a map is a word, and the operations on words are proved to be operations
    on the set of marked bins. */
module BinMaps {
  import opened BestFit
  import opened BinIndex

  type BinMap = bv32

  // The operations of words, by name, so that proofs can keep them apart from everything else.

  function And(x: BinMap, y: BinMap): BinMap { x & y }

  function Or(x: BinMap, y: BinMap): BinMap { x | y }

  function Not(x: BinMap): BinMap { !x }

  function Negative(x: BinMap): BinMap { -x }

  function Double(x: BinMap): BinMap { x << 1 }

  function Half(x: BinMap): BinMap { x >> 1 }

  /** One, shifted left i times. */
  function Idx2Bit(i: nat): BinMap {
    if i == 0 then 1 else Double(Idx2Bit(i - 1))
  }

  predicate Has(m: BinMap, b: BinMap) { m & b != 0 }

  predicate IsMarked(m: BinMap, i: nat) {
    Has(m, Idx2Bit(i))
  }

  function Mark(m: BinMap, i: nat): BinMap { Or(m, Idx2Bit(i)) }

  function Clear(m: BinMap, i: nat): BinMap { And(m, Not(Idx2Bit(i))) }

  function LeastBit(x: BinMap): BinMap { And(x, Negative(x)) }

  function LeftBits(x: BinMap): BinMap { Or(Double(x), Negative(Double(x))) }

  function ShiftRight(m: BinMap, n: nat): BinMap {
    if n == 0 then m else Half(ShiftRight(m, n - 1))
  }

  function ShiftLeft(m: BinMap, n: nat): BinMap {
    if n == 0 then m else Double(ShiftLeft(m, n - 1))
  }

  /** The number of zeros below the lowest one. */
  function TrailingZeros(x: BinMap): nat
    requires x != 0
  {
    if x & 1 == 1 then 0 else 1 + TrailingZeros(Half(x))
  }

  ghost function Marks(m: BinMap): set<nat> {
    set i: nat | i < NTREEBINS && IsMarked(m, i)
  }

  // ----- Single bits -----

  lemma LastBinBit()
    ensures Idx2Bit(31) == 0x8000_0000
  {
    assert Idx2Bit(4) == 0x10;
    assert Idx2Bit(8) == 0x100;
    assert Idx2Bit(12) == 0x1000;
    assert Idx2Bit(16) == 0x1_0000;
    assert Idx2Bit(20) == 0x10_0000;
    assert Idx2Bit(24) == 0x100_0000;
    assert Idx2Bit(28) == 0x1000_0000;
  }

  predicate IsBit(b: BinMap) { b != 0 && b & (b - 1) == 0 }

  lemma {:induction false} OneBit(i: nat)
    ensures var b := Idx2Bit(i); b & (b - 1) == 0
  {
    if i > 0 { OneBit(i - 1); }
  }

  lemma {:induction false} BitsAreBits(i: nat)
    requires i < 32
    ensures IsBit(Idx2Bit(i)) && (i < 31 ==> Idx2Bit(i) < 0x8000_0000)
    decreases 32 - i
  {
    if i == 31 {
      LastBinBit();
    } else {
      BitsAreBits(i + 1);
      OneBit(i);
      HalfBit(Idx2Bit(i));
    }
  }

  lemma HalfBit(b: BinMap)
    requires b << 1 != 0 && b & (b - 1) == 0
    ensures IsBit(b) && b < 0x8000_0000
  {
  }

  lemma {:induction false} BitsDiffer(i: nat, j: nat)
    requires i < j < 32
    ensures Idx2Bit(i) & Idx2Bit(j) == 0
  {
    if i > 0 { BitsDiffer(i - 1, j - 1); }
  }

  // ----- The marks of a word -----

  lemma MarksOf(x: BinMap, y: BinMap, i: nat)
    requires i < 32
    ensures IsMarked(Or(x, y), i) <==> IsMarked(x, i) || IsMarked(y, i)
    ensures IsMarked(And(x, y), i) <==> IsMarked(x, i) && IsMarked(y, i)
    ensures IsMarked(Not(x), i) <==> !IsMarked(x, i)
  {
    hide Idx2Bit;
    hide Has;
    hide And;
    hide Or;
    hide Not;
    var b := Idx2Bit(i);
    BitsAreBits(i);
    hide IsBit;
    EitherHas(x, y, b);
    BothHave(x, y, b);
    OtherHas(x, b);
  }

  lemma EitherHas(x: BinMap, y: BinMap, b: BinMap)
    requires IsBit(b)
    ensures Has(Or(x, y), b) <==> Has(x, b) || Has(y, b)
  {
    assert Or(x, y) == Not(And(Not(x), Not(y)));
    hide Has;
    hide And;
    hide Or;
    hide Not;
    BothHave(Not(x), Not(y), b);
    OtherHas(x, b);
    OtherHas(y, b);
    OtherHas(And(Not(x), Not(y)), b);
  }

  lemma BothHave(x: BinMap, y: BinMap, b: BinMap)
    requires IsBit(b)
    ensures Has(And(x, y), b) <==> Has(x, b) && Has(y, b)
  {
    BothHaveBit(x, y, b);
  }

  lemma BothHaveBit(x: BinMap, y: BinMap, b: BinMap)
    requires b != 0 && b & (b - 1) == 0
    ensures (x & y) & b != 0 <==> x & b != 0 && y & b != 0
  {
  }

  lemma OtherHas(x: BinMap, b: BinMap)
    requires IsBit(b)
    ensures Has(Not(x), b) <==> !Has(x, b)
  {
    OtherHasBit(x, b);
  }

  lemma OtherHasBit(x: BinMap, b: BinMap)
    requires b != 0 && b & (b - 1) == 0
    ensures !x & b != 0 <==> x & b == 0
  {
  }

  lemma MarksOfBit(i: nat, j: nat)
    requires i < 32 && j < 32
    ensures IsMarked(Idx2Bit(i), j) <==> i == j
  {
    BitsAreBits(i);
    if i < j { BitsDiffer(i, j); } else if j < i { BitsDiffer(j, i); }
  }

  lemma MarksHalved(x: BinMap, i: nat)
    requires i < 32
    ensures IsMarked(Half(x), i) <==> i < 31 && IsMarked(x, i + 1)
  {
    hide Has;
    BitsAreBits(i);
    hide IsBit;
    if i == 31 { LastBinBit(); HalfLacks(x); } else { HalvedHas(x, Idx2Bit(i)); }
  }

  lemma MarksDoubled(x: BinMap, i: nat)
    requires i < 32
    ensures IsMarked(Double(x), i) <==> i > 0 && IsMarked(x, i - 1)
  {
    hide Has;
    hide IsBit;
    if i > 0 {
      BitsAreBits(i - 1);
      DoubledHas(x, Idx2Bit(i - 1));
    } else {
      DoubleLacks(x);
    }
  }

  lemma HalvedHas(x: BinMap, b: BinMap)
    requires b < 0x8000_0000
    ensures Has(Half(x), b) <==> Has(x, Double(b))
  {
  }

  lemma HalfLacks(x: BinMap)
    ensures !Has(Half(x), 0x8000_0000)
  {
  }

  lemma DoubledHas(x: BinMap, b: BinMap)
    requires b < 0x8000_0000
    ensures Has(Double(x), Double(b)) <==> Has(x, b)
  {
  }

  lemma DoubleLacks(x: BinMap)
    ensures !Has(Double(x), 1)
  {
  }

  lemma MarkedIn(m: BinMap, i: nat)
    requires i < NTREEBINS
    ensures i in Marks(m) <==> IsMarked(m, i)
  {
  }

  lemma MarkingOne(m: BinMap, i: nat, j: nat)
    requires i < 32 && j < 32
    ensures IsMarked(Mark(m, i), j) <==> IsMarked(m, j) || j == i
    ensures IsMarked(Clear(m, i), j) <==> IsMarked(m, j) && j != i
  {
    hide Idx2Bit;
    hide Has;
    hide IsMarked;
    hide And;
    hide Or;
    hide Not;
    hide Negative;
    hide Double;
    var b := Idx2Bit(i);
    MarksOfBit(i, j);
    MarksOf(m, b, j);
    MarksOf(b, 0, j);
    MarksOf(m, Not(b), j);
  }

  /** Marking and clearing a bin change the set of marked bins by exactly that bin. */
  lemma Marking(m: BinMap, i: nat)
    requires i < NTREEBINS
    ensures Marks(Mark(m, i)) == Marks(m) + {i}
    ensures Marks(Clear(m, i)) == Marks(m) - {i}
  {
    hide IsMarked;
    hide Mark;
    hide Clear;
    forall j: nat | j < NTREEBINS
      ensures j in Marks(Mark(m, i)) <==> j in Marks(m) || j == i
      ensures j in Marks(Clear(m, i)) <==> j in Marks(m) && j != i
    {
      MarkingOne(m, i, j);
    }
  }

  // ----- The least mark -----

  /** The number of trailing zeros is the least marked bin. */
  lemma {:induction false} TrailingZerosMarked(x: BinMap)
    requires x != 0
    ensures TrailingZeros(x) < 32 && IsMarked(x, TrailingZeros(x))
    ensures forall j: nat | j < TrailingZeros(x) :: !IsMarked(x, j)
  {
    if x & 1 != 1 {
      var k := TrailingZeros(Half(x));
      TrailingZerosMarked(Half(x));
      MarksHalved(x, k);
      forall j: nat | j < k + 1 ensures !IsMarked(x, j) {
        if j > 0 { MarksHalved(x, j - 1); }
      }
    }
  }

  /** The word is zero exactly if no bin is marked. */
  lemma ZeroIsEmpty(m: BinMap)
    ensures m == 0 <==> Marks(m) == {}
  {
    if m == 0 {
      assert forall i: nat :: !IsMarked(m, i);
    } else {
      TrailingZerosMarked(m);
      assert TrailingZeros(m) in Marks(m);
    }
  }

  lemma {:induction false} LeastBitIs(x: BinMap)
    requires x != 0
    ensures LeastBit(x) == Idx2Bit(TrailingZeros(x))
  {
    hide LeastBit;
    hide Double;
    if x & 1 == 1 {
      OddLeast(x);
    } else {
      var y := Half(x);
      HalfNotZero(x);
      EvenLeast(x);
      hide Half;
      LeastBitIs(y);
      assert TrailingZeros(x) == 1 + TrailingZeros(y);
    }
  }

  lemma OddLeast(x: BinMap)
    requires x & 1 == 1
    ensures LeastBit(x) == 1
  {
  }

  lemma HalfNotZero(x: BinMap)
    requires x != 0 && x & 1 != 1
    ensures Half(x) != 0
  {
  }

  lemma EvenLeast(x: BinMap)
    requires x & 1 != 1
    ensures LeastBit(x) == Double(LeastBit(Half(x)))
  {
    EvenLeastBit(x);
  }

  lemma EvenLeastBit(x: BinMap)
    requires x & 1 != 1
    ensures x & -x == ((x >> 1) & -(x >> 1)) << 1
  {
  }

  /** Isolating the least bit and counting its zeros gives the least marked bin. */
  lemma LeastMarked(m: BinMap)
    requires m != 0
    ensures LeastBit(m) != 0 && TrailingZeros(LeastBit(m)) == LeastFrom(Marks(m), 0) < NTREEBINS
    ensures LeastFrom(Marks(m), 0) in Marks(m)
  {
    var k := TrailingZeros(m);
    TrailingZerosMarked(m);
    LeastBitIs(m);
    BitsAreBits(k);
    TrailingZerosMarked(Idx2Bit(k));
    MarksOfBit(k, TrailingZeros(Idx2Bit(k)));
    LeastFromIs(Marks(m), 0, k);
  }

  lemma LeastFromIs(marks: set<nat>, i: nat, k: nat)
    requires i <= k <= NTREEBINS && (k < NTREEBINS ==> k in marks) && forall j: nat | i <= j < k :: j !in marks
    ensures LeastFrom(marks, i) == k
    decreases k - i
  {
    if i < k { LeastFromIs(marks, i + 1, k); }
  }

  // ----- The next marked bin -----

  lemma {:induction false} NegatedBit(i: nat, j: nat)
    requires i < 32 && j < 32
    ensures IsMarked(Negative(Idx2Bit(i)), j) <==> j >= i
  {
    hide Has;
    hide IsMarked;
    hide And;
    hide Or;
    hide Not;
    hide Negative;
    hide Double;
    if i > 0 {
      NegatedDouble(Idx2Bit(i - 1));
      MarksDoubled(Negative(Idx2Bit(i - 1)), j);
      if j > 0 { NegatedBit(i - 1, j - 1); }
    } else {
      AllMarked(j);
    }
  }

  lemma NegatedDouble(b: BinMap)
    ensures Negative(Double(b)) == Double(Negative(b))
  {
  }

  lemma AllMarked(i: nat)
    requires i < 32
    ensures IsMarked(Negative(1), i)
  {
    BitsAreBits(i);
  }

  lemma LeftOfBit(i: nat, j: nat)
    requires i < 32 && j < 32
    ensures IsMarked(LeftBits(Idx2Bit(i)), j) <==> j > i
  {
    hide Has;
    hide IsMarked;
    hide And;
    hide Or;
    hide Not;
    hide Negative;
    hide Double;
    if i < 31 {
      LeftIs(i);
      hide Idx2Bit;
      hide LeftBits;
      MarksOf(Idx2Bit(i + 1), Negative(Idx2Bit(i + 1)), j);
      MarksOfBit(i + 1, j);
      NegatedBit(i + 1, j);
    } else {
      LastBinBit();
      LeftOfTop();
      NoneMarked(j);
    }
  }

  lemma LeftIs(i: nat)
    ensures LeftBits(Idx2Bit(i)) == Or(Idx2Bit(i + 1), Negative(Idx2Bit(i + 1)))
  {
  }

  lemma LeftOfTop()
    ensures LeftBits(0x8000_0000) == 0
  {
  }

  lemma NoneMarked(i: nat)
    ensures !IsMarked(0, i)
  {
  }

  /** The marked bins after i, and the least of them, as the search for the next tree bin takes them from the map. */
  lemma NextMarked(m: BinMap, i: nat)
    requires i < NTREEBINS
    ensures var l := And(LeftBits(Idx2Bit(i)), m);
      && Marks(l) == (set j | j in Marks(m) && j > i)
      && (l != 0 <==> LeastFrom(Marks(m), i + 1) < NTREEBINS)
      && (l != 0 ==> LeastBit(l) != 0 && TrailingZeros(LeastBit(l)) == LeastFrom(Marks(m), i + 1))
  {
    hide Idx2Bit;
    hide Has;
    hide IsMarked;
    hide And;
    hide Or;
    hide Not;
    hide Negative;
    hide Double;
    hide LeftBits;
    var l := And(LeftBits(Idx2Bit(i)), m);
    forall j: nat | j < NTREEBINS ensures IsMarked(l, j) <==> IsMarked(m, j) && j > i {
      LeftOfBit(i, j);
      MarksOf(LeftBits(Idx2Bit(i)), m, j);
    }
    ZeroIsEmpty(l);
    if l != 0 { LeastMarked(l); }
    LeastAfter(Marks(m), Marks(l), i);
  }

  lemma LeastAfter(ms: set<nat>, ls: set<nat>, i: nat)
    requires i < NTREEBINS && forall j | j in ms :: j < NTREEBINS
    requires ls == set j | j in ms && j > i
    ensures ls != {} <==> LeastFrom(ms, i + 1) < NTREEBINS
    ensures ls != {} ==> LeastFrom(ls, 0) == LeastFrom(ms, i + 1)
  {
    if ls == {} {
      assert forall j | j in ms :: j in ls || j <= i;
      LeastFromIs(ms, i + 1, NTREEBINS);
    } else {
      var x :| x in ls;
      var k := LeastIn(ls, x);
      assert forall j | j in ms :: j in ls || j <= i;
      LeastFromIs(ls, 0, k);
      LeastFromIs(ms, i + 1, k);
    }
  }

  lemma LeastIn(s: set<nat>, x: nat) returns (k: nat)
    requires x in s
    ensures k in s && forall j | j in s :: k <= j
    decreases x
  {
    if j :| j in s && j < x { k := LeastIn(s, j); } else { k := x; }
  }

  // ----- The map shifted to a bin -----

  lemma {:induction false} MarksShiftedRight(m: BinMap, n: nat, j: nat)
    requires j < 32
    ensures IsMarked(ShiftRight(m, n), j) <==> n + j < 32 && IsMarked(m, n + j)
  {
    if n > 0 {
      MarksHalved(ShiftRight(m, n - 1), j);
      if j < 31 { MarksShiftedRight(m, n - 1, j + 1); }
    }
  }

  lemma {:induction false} MarksShiftedLeft(m: BinMap, n: nat, j: nat)
    requires j < 32
    ensures IsMarked(ShiftLeft(m, n), j) <==> n <= j && IsMarked(m, j - n)
  {
    if n > 0 {
      MarksDoubled(ShiftLeft(m, n - 1), j);
      if j > 0 { MarksShiftedLeft(m, n - 1, j - 1); }
    }
  }

  lemma LowestTwo(s: BinMap)
    ensures And(s, 3) != 0 <==> IsMarked(s, 0) || IsMarked(s, 1)
    ensures And(Not(s), 1) != 0 <==> !IsMarked(s, 0)
  {
    assert Idx2Bit(1) == 2;
  }

  /** What a small request reads off the map shifted to its bin: whether the bin or the next is marked,
      and which of the two to take. */
  lemma SmallMapSays(m: BinMap, i: nat)
    requires i + 1 < NTREEBINS
    ensures var s := ShiftRight(m, i);
      && (And(s, 3) != 0 <==> i in Marks(m) || i + 1 in Marks(m))
      && (And(Not(s), 1) != 0 <==> i !in Marks(m))
  {
    hide IsMarked;
    hide ShiftRight;
    hide And;
    hide Not;
    LowestTwo(ShiftRight(m, i));
    MarksShiftedRight(m, i, 0);
    MarksShiftedRight(m, i, 1);
  }

  /** Shifting the map to a bin and back, and taking the bits left of the bin's, leaves the marked bins after it. */
  lemma MarksAfter(m: BinMap, i: nat)
    requires i < NTREEBINS
    ensures Marks(And(ShiftLeft(ShiftRight(m, i), i), LeftBits(Idx2Bit(i)))) == set j | j in Marks(m) && j > i
  {
    hide Idx2Bit;
    hide Has;
    hide IsMarked;
    hide And;
    hide LeftBits;
    hide ShiftRight;
    hide ShiftLeft;
    var s := ShiftRight(m, i);
    forall j: nat | j < NTREEBINS
      ensures IsMarked(And(ShiftLeft(s, i), LeftBits(Idx2Bit(i))), j) <==> IsMarked(m, j) && j > i
    {
      LeftOfBit(i, j);
      MarksOf(ShiftLeft(s, i), LeftBits(Idx2Bit(i)), j);
      MarksShiftedLeft(s, i, j);
      if j >= i { MarksShiftedRight(m, i, j - i); }
    }
  }

  /** With the bin not marked, the shifted map is zero exactly if no later bin is marked. */
  lemma ShiftedEmpty(m: BinMap, i: nat)
    requires i < NTREEBINS && i !in Marks(m)
    ensures ShiftRight(m, i) != 0 <==> (set j | j in Marks(m) && j > i) != {}
  {
    hide IsMarked;
    hide ShiftRight;
    var s := ShiftRight(m, i);
    ZeroIsEmpty(s);
    MarksBelow(s);
    MarksBelow(m);
    forall t: nat | t < NTREEBINS ensures t in Marks(s) <==> i + t in Marks(m) {
      MarksShiftedRight(m, i, t);
      MarkedIn(s, t);
      if i + t < NTREEBINS { MarkedIn(m, i + t); }
    }
    hide Marks;
    LaterOnes(Marks(m), Marks(s), i);
  }

  lemma LaterOnes(ms: set<nat>, ss: set<nat>, i: nat)
    requires i < NTREEBINS && i !in ms && (forall j | j in ms :: j < NTREEBINS) && forall t | t in ss :: t < NTREEBINS
    requires forall t: nat | t < NTREEBINS :: t in ss <==> i + t in ms
    ensures ss != {} <==> (set j | j in ms && j > i) != {}
  {
    var later := set j | j in ms && j > i;
    assert forall j | j in later :: j - i in ss;
    assert forall t | t in ss :: i + t in later;
  }

  /** With the bin not marked, the least bit of the shifted map left of the bin's is the next marked bin. */
  lemma NextSmallMarked(m: BinMap, i: nat)
    requires i < NTREEBINS && i !in Marks(m)
    ensures var s := ShiftRight(m, i);
      var l := And(ShiftLeft(s, i), LeftBits(Idx2Bit(i)));
      && (s != 0 <==> LeastFrom(Marks(m), i + 1) < NTREEBINS)
      && (s != 0 ==> l != 0 && LeastBit(l) != 0 && TrailingZeros(LeastBit(l)) == LeastFrom(Marks(m), i + 1))
  {
    hide Idx2Bit;
    hide IsMarked;
    hide And;
    hide LeftBits;
    hide LeastBit;
    hide ShiftRight;
    hide ShiftLeft;
    hide TrailingZeros;
    var s := ShiftRight(m, i);
    var l := And(ShiftLeft(s, i), LeftBits(Idx2Bit(i)));
    MarksAfter(m, i);
    MarksBelow(m);
    ShiftedEmpty(m, i);
    hide Marks;
    ZeroIsEmpty(l);
    LeastAfter(Marks(m), Marks(l), i);
    if l != 0 { LeastMarked(l); }
  }

  lemma MarksBelow(m: BinMap)
    ensures forall j | j in Marks(m) :: j < NTREEBINS
  {
  }
}
