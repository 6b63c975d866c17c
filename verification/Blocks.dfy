/** Arithmetic of power-of-two blocks of pages: sizes, alignment, the block of each
    order that contains a page, and buddies. */
module Blocks {
  import opened Arithmetic

  const MAX_ORDER: nat := 17

  /** The number of pages in a block of the given order. */
  function PagesPerBlock(order: nat): (n: nat)
    ensures n > 0
  {
    Pow2(order)
  }

  /** Page p can start a block of the given order: its number's low bits are 0. */
  predicate Aligned(p: nat, order: nat) {
    order == 0 || (p % 2 == 0 && Aligned(p / 2, order - 1))
  }

  /** The first page of the block of the given order that contains page x. */
  function Base(x: nat, order: nat): nat {
    if order == 0 then x else 2 * Base(x / 2, order - 1)
  }

  /** The other half of the enclosing block of the next order. */
  function Buddy(p: nat, order: nat): int {
    if Aligned(p, order + 1) then p + PagesPerBlock(order) else p - PagesPerBlock(order)
  }

  /** Alignment is divisibility by the block size. */
  lemma {:induction false} AlignedIsMultiple(p: nat, order: nat)
    ensures Aligned(p, order) <==> p % PagesPerBlock(order) == 0
  {
    hide PagesPerBlock;
    if order > 0 {
      AlignedIsMultiple(p / 2, order - 1);
      TwiceAsLarge(order);
      HalvesDivide(p, PagesPerBlock(order - 1));
    } else {
      assert PagesPerBlock(0) == 1 by { OnePage(); }
    }
  }

  lemma OnePage()
    ensures PagesPerBlock(0) == 1
  {
  }

  lemma TwiceAsLarge(order: nat)
    requires order > 0
    ensures PagesPerBlock(order) == 2 * PagesPerBlock(order - 1)
  {
  }

  lemma HalvesDivide(p: nat, m: nat)
    requires m > 0
    ensures p % (2 * m) == 0 <==> p % 2 == 0 && p / 2 % m == 0
  {
    var q, r := p / 2 / m, p / 2 % m;
    var t := q * m;
    assert p / 2 == t + r && q * (2 * m) == 2 * t;
    ModUnique(p, 2 * m, q, 2 * r + p % 2);
  }

  /** A block is the set of pages that share its base. */
  lemma {:induction false} BaseBounds(x: nat, k: nat)
    ensures Base(x, k) <= x < Base(x, k) + PagesPerBlock(k)
    ensures Aligned(Base(x, k), k)
  {
    if k > 0 {
      BaseBounds(x / 2, k - 1);
    }
  }

  lemma {:induction false} BaseUnique(x: nat, p: nat, k: nat)
    requires Aligned(p, k) && p <= x < p + PagesPerBlock(k)
    ensures Base(x, k) == p
  {
    if k > 0 {
      BaseUnique(x / 2, p / 2, k - 1);
    }
  }

  /** A block of order k+1 is two blocks of order k. */
  lemma {:induction false} Halves(b: nat, k: nat)
    requires Aligned(b, k + 1)
    ensures Aligned(b, k) && Aligned(b + PagesPerBlock(k), k) && !Aligned(b + PagesPerBlock(k), k + 1)
    ensures Base(b, k + 1) == b == Base(b + PagesPerBlock(k), k + 1)
  {
    if k > 0 {
      Halves(b / 2, k - 1);
      var c := b + PagesPerBlock(k);
      assert c == b + 2 * PagesPerBlock(k - 1);
      assert c % 2 == 0 && c / 2 == b / 2 + PagesPerBlock(k - 1);
    }
  }

  lemma {:induction false} NextAligned(p: nat, k: nat)
    requires Aligned(p, k)
    ensures Aligned(p + PagesPerBlock(k), k)
  {
    if k > 0 {
      NextAligned(p / 2, k - 1);
      var c := p + PagesPerBlock(k);
      assert c == p + 2 * PagesPerBlock(k - 1);
      assert c % 2 == 0 && c / 2 == p / 2 + PagesPerBlock(k - 1);
    }
  }

  lemma BaseStep(x: nat, k: nat)
    ensures Base(x, k + 1) == Base(Base(x, k), k + 1)
    ensures Base(x, k) == Base(x, k + 1) || Base(x, k) == Base(x, k + 1) + PagesPerBlock(k)
    ensures Aligned(Base(x, k + 1), k)
  {
    var m := PagesPerBlock(k);
    var b := Base(x, k + 1);
    BaseBounds(x, k + 1);
    Halves(b, k);
    BaseUnique(x, if x < b + m then b else b + m, k);
  }

  lemma InHalf(x: nat, p: nat, k: nat)
    requires Aligned(p, k + 1)
    ensures Base(x, k + 1) == p <==> Base(x, k) == p || Base(x, k) == p + PagesPerBlock(k)
  {
    BaseStep(x, k);
    Halves(p, k);
  }

  lemma DoubleBase(b: nat, k: nat)
    requires k > 0
    ensures Base(2 * b, k) == 2 * Base(b, k - 1)
    ensures Aligned(2 * b, k) <==> Aligned(b, k - 1)
  {
    assert 2 * b / 2 == b;
  }

  /** Blocks nest: the order-k block of a page is that of any order-j block containing the page. */
  lemma {:induction false} BaseNest(x: nat, j: nat, k: nat)
    requires j <= k
    ensures Base(Base(x, j), k) == Base(x, k)
    ensures Base(x, k) <= Base(x, j)
    ensures Base(x, j) + PagesPerBlock(j) <= Base(x, k) + PagesPerBlock(k)
    ensures Aligned(Base(x, k), j)
  {
    if j == 0 {
      BaseBounds(x, k);
    } else {
      BaseNest(x / 2, j - 1, k - 1);
      DoubleBase(Base(x / 2, j - 1), k);
      DoubleBase(Base(x / 2, k - 1), j);
    }
  }

  lemma BasePage(x: nat)
    ensures Base(x, 0) == x && Aligned(x, 0)
  {
  }

  lemma {:induction false} AlignedBase(p: nat, k: nat)
    ensures Aligned(p, k) <==> Base(p, k) == p
  {
    if k > 0 {
      AlignedBase(p / 2, k - 1);
    }
  }

  lemma AlignedDown(p: nat, j: nat, k: nat)
    requires j <= k && Aligned(p, k)
    ensures Aligned(p, j)
  {
    AlignedBase(p, k);
    BaseNest(p, j, k);
  }

  /** The buddy of a block is exactly the other block with the same enclosing block. */
  lemma BuddyIsSibling(p: nat, k: nat)
    requires Aligned(p, k)
    ensures Buddy(p, k) >= 0 && Buddy(p, k) != p
    ensures Aligned(Buddy(p, k), k)
    ensures Base(Buddy(p, k), k + 1) == Base(p, k + 1)
    ensures Base(p, k + 1) == (if p < Buddy(p, k) then p else Buddy(p, k))
    ensures PagesPerBlock(k) == (if p < Buddy(p, k) then Buddy(p, k) - p else p - Buddy(p, k))
  {
    AlignedBase(p, k);
    AlignedBase(p, k + 1);
    BaseStep(p, k);
    BaseBounds(p, k + 1);
    Halves(Base(p, k + 1), k);
  }

  lemma SiblingIsBuddy(p: nat, q: nat, k: nat)
    requires Aligned(p, k) && Aligned(q, k) && p != q && Base(p, k + 1) == Base(q, k + 1)
    ensures q == Buddy(p, k)
  {
    AlignedBase(p, k);
    AlignedBase(q, k);
    BaseStep(p, k);
    BaseStep(q, k);
    BuddyIsSibling(p, k);
    BaseStep(Buddy(p, k), k);
  }
}
