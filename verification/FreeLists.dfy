/** The buddy allocator's free lists as values: the invariant of a resting state, the set of
    pages they make free, and the theorem that the lists are a canonical form of that set. */
module FreeLists {
  import opened Blocks

  /** The block-start pages listed in each order. A list is kept in ascending order, so the
      set of its members determines it. */
  type Lists = seq<set<nat>>

  /** Page x lies in a listed block of order k. */
  ghost predicate Covers(lists: Lists, x: nat, k: nat) {
    k < |lists| && Base(x, k) in lists[k]
  }

  ghost predicate IsFree(lists: Lists, x: nat) {
    exists k :: Covers(lists, x, k)
  }

  ghost function FreeSet(lists: Lists, n: nat): set<nat> {
    set x: nat | x < n && IsFree(lists, x)
  }

  ghost predicate InBlock(x: nat, p: nat, k: nat) {
    p <= x < p + PagesPerBlock(k)
  }

  ghost function BlockPages(p: nat, k: nat): set<nat> {
    set x: nat | x < p + PagesPerBlock(k) && InBlock(x, p, k)
  }

  lemma SinglePage(x: nat)
    ensures BlockPages(x, 0) == {x}
  {
    assert PagesPerBlock(0) == 1;
  }

  lemma FirstPage(p: nat, k: nat)
    ensures p in BlockPages(p, k) && p + PagesPerBlock(k) - 1 in BlockPages(p, k)
  {
    var last := p + PagesPerBlock(k) - 1;
    assert InBlock(p, p, k) && InBlock(p + PagesPerBlock(k) - 1, p, k);
  }

  lemma {:induction false} IntervalSize(a: nat, b: nat, s: set<nat>)
    requires a <= b && forall x: nat :: x in s <==> a <= x < b
    ensures |s| == b - a
    decreases b - a
  {
    if a < b {
      IntervalSize(a + 1, b, s - {a});
    } else {
      assert s == {};
    }
  }

  lemma BlockSize(p: nat, k: nat)
    ensures |BlockPages(p, k)| == PagesPerBlock(k)
  {
    forall x: nat ensures x in BlockPages(p, k) <==> p <= x < p + PagesPerBlock(k) {
      assert x in BlockPages(p, k) <==> InBlock(x, p, k);
    }
    IntervalSize(p, p + PagesPerBlock(k), BlockPages(p, k));
  }

  lemma InBlockPages(x: nat, p: nat, k: nat)
    ensures x in BlockPages(p, k) <==> p <= x < p + PagesPerBlock(k)
  {
    assert x in BlockPages(p, k) <==> InBlock(x, p, k);
  }

  lemma BlockPagesNest(x: nat, j: nat, k: nat)
    requires j <= k
    ensures BlockPages(Base(x, j), j) <= BlockPages(Base(x, k), k)
  {
    BaseNest(x, j, k);
  }

  /** Lists of aligned, in-range blocks, pairwise disjoint across all orders. */
  ghost predicate Disjoint(lists: Lists, n: nat) {
    && |lists| == MAX_ORDER
    && (forall k, p | 0 <= k < |lists| && p in lists[k] :: Aligned(p, k) && p + PagesPerBlock(k) <= n)
    && (forall x, j, k :: Covers(lists, x, j) && Covers(lists, x, k) ==> j == k)
  }

  ghost predicate NoBuddiesIn(s: set<nat>, k: nat) {
    forall p, q | p in s && q in s && Base(p, k + 1) == Base(q, k + 1) :: p == q
  }

  /** No two buddies are both listed below the top order. */
  ghost predicate NoBuddyPairs(lists: Lists) {
    forall k | 0 <= k < |lists| - 1 :: NoBuddiesIn(lists[k], k)
  }

  /** The invariant that holds between operations. */
  ghost predicate Resting(lists: Lists, n: nat) {
    Disjoint(lists, n) && NoBuddyPairs(lists)
  }

  /** A block of order k belongs in the lists iff it is wholly free and no larger block around it is. */
  ghost predicate Maximal(free: set<nat>, p: nat, k: nat) {
    Aligned(p, k) && BlockPages(p, k) <= free
    && (k == MAX_ORDER - 1 || !(BlockPages(Base(p, k + 1), k + 1) <= free))
  }

  ghost predicate Canonical(lists: Lists, free: set<nat>) {
    && |lists| == MAX_ORDER
    && (forall k, p | 0 <= k < |lists| :: p in lists[k] <==> Maximal(free, p, k))
  }

  lemma CoveredPageInRange(lists: Lists, n: nat, x: nat, k: nat)
    requires Disjoint(lists, n) && Covers(lists, x, k)
    ensures x in FreeSet(lists, n)
    ensures BlockPages(Base(x, k), k) <= FreeSet(lists, n)
  {
    BaseBounds(x, k);
    forall y | y in BlockPages(Base(x, k), k) ensures y in FreeSet(lists, n) {
      BaseUnique(y, Base(x, k), k);
      assert Covers(lists, y, k);
    }
  }

  /** Every wholly free aligned block lies inside one listed block: completeness of the lists. */
  lemma {:induction false} FreeBlockIsCovered(lists: Lists, n: nat, p: nat, k: nat) returns (j: nat)
    requires Resting(lists, n)
    requires k < MAX_ORDER && Aligned(p, k) && BlockPages(p, k) <= FreeSet(lists, n)
    ensures k <= j && Covers(lists, p, j)
    decreases k
  {
    if k == 0 {
      FirstPage(p, 0);
      j :| Covers(lists, p, j);
    } else {
      var q := p + PagesPerBlock(k - 1);
      Halves(p, k - 1);
      assert NoBuddiesIn(lists[k - 1], k - 1);
      HalvesFillBlock(p, k - 1, FreeSet(lists, n));
      var a := FreeBlockIsCovered(lists, n, p, k - 1);
      var b := FreeBlockIsCovered(lists, n, q, k - 1);
      AlignedBase(p, k - 1);
      AlignedBase(q, k - 1);
      if a >= k {
        j := a;
      } else if b >= k {
        BaseNest(q, k, b);
        AlignedBase(p, k);
        j := b;
        assert Base(q, b) == Base(p, b);
      } else {
        assert false;
      }
    }
  }

  /** The resting invariant says exactly that the lists are the canonical form of the free set. */
  lemma RestingIsCanonical(lists: Lists, n: nat)
    requires Resting(lists, n)
    ensures Canonical(lists, FreeSet(lists, n))
  {
    var free := FreeSet(lists, n);
    forall k: nat, p: nat | k < MAX_ORDER ensures p in lists[k] <==> Maximal(free, p, k) {
      if p in lists[k] {
        AlignedBase(p, k);
        CoveredPageInRange(lists, n, p, k);
        if k < MAX_ORDER - 1 && BlockPages(Base(p, k + 1), k + 1) <= free {
          BaseBounds(p, k + 1);
          var j := FreeBlockIsCovered(lists, n, Base(p, k + 1), k + 1);
          BaseNest(p, k + 1, j);
          assert Covers(lists, p, j) && Covers(lists, p, k);
          assert false;
        }
      }
      if Maximal(free, p, k) {
        var j := FreeBlockIsCovered(lists, n, p, k);
        if j > k {
          CoveredPageInRange(lists, n, p, j);
          BlockPagesNest(p, k + 1, j);
          assert false;
        }
        AlignedBase(p, k);
      }
    }
  }

  lemma CanonicalIsDisjoint(lists: Lists, free: set<nat>, n: nat)
    requires Canonical(lists, free)
    requires forall x :: x in free ==> x < n
    ensures Disjoint(lists, n)
  {
    forall k, p | 0 <= k < |lists| && p in lists[k]
      ensures Aligned(p, k) && p + PagesPerBlock(k) <= n
    {
      assert Maximal(free, p, k);
      assert p + PagesPerBlock(k) - 1 in BlockPages(p, k);
    }
    forall x: nat, j: nat, k: nat | Covers(lists, x, j) && Covers(lists, x, k) ensures j == k {
      CoveredOnce(lists, free, x, j, k);
      CoveredOnce(lists, free, x, k, j);
    }
  }

  lemma CoveredOnce(lists: Lists, free: set<nat>, x: nat, j: nat, k: nat)
    requires Canonical(lists, free) && Covers(lists, x, j) && Covers(lists, x, k)
    ensures j >= k
  {
    if j < k {
      assert Maximal(free, Base(x, j), j) && Maximal(free, Base(x, k), k);
      BaseStep(x, j);
      BlockPagesNest(x, j + 1, k);
    }
  }

  lemma CanonicalHasNoBuddyPairs(lists: Lists, free: set<nat>)
    requires Canonical(lists, free)
    ensures NoBuddyPairs(lists)
  {
    forall k | 0 <= k < |lists| - 1 ensures NoBuddiesIn(lists[k], k) {
      forall p, q | p in lists[k] && q in lists[k] && Base(p, k + 1) == Base(q, k + 1) ensures p == q {
        assert Maximal(free, p, k) && Maximal(free, q, k);
        if p != q {
          SiblingsFillParent(p, q, k);
        }
      }
    }
  }

  /** Conversely canonical lists of a set of pages below n are disjoint, without buddy pairs,
      and make exactly that set free. */
  lemma CanonicalIsResting(lists: Lists, free: set<nat>, n: nat)
    requires Canonical(lists, free)
    requires forall x :: x in free ==> x < n
    ensures Resting(lists, n)
    ensures FreeSet(lists, n) == free
  {
    CanonicalIsDisjoint(lists, free, n);
    CanonicalHasNoBuddyPairs(lists, free);
    CanonicalFreePages(lists, free, n);
  }

  lemma CanonicalFreePages(lists: Lists, free: set<nat>, n: nat)
    requires Canonical(lists, free)
    requires forall x :: x in free ==> x < n
    ensures FreeSet(lists, n) == free
  {
    forall x: nat ensures IsFree(lists, x) <==> x in free {
      CanonicalFreePage(lists, free, x);
    }
  }

  lemma CanonicalFreePage(lists: Lists, free: set<nat>, x: nat)
    requires Canonical(lists, free)
    ensures IsFree(lists, x) <==> x in free
  {
    if x in free {
      SinglePage(x);
      BasePage(x);
      FreePageIsCovered(lists, free, x, 0);
    }
    if IsFree(lists, x) {
      var k :| Covers(lists, x, k);
      assert Maximal(free, Base(x, k), k);
      BaseBounds(x, k);
      assert x in BlockPages(Base(x, k), k);
    }
  }

  lemma SiblingsFillParent(p: nat, q: nat, k: nat)
    requires Aligned(p, k) && Aligned(q, k) && p != q && Base(p, k + 1) == Base(q, k + 1)
    ensures BlockPages(Base(p, k + 1), k + 1) == BlockPages(p, k) + BlockPages(q, k)
  {
    SiblingIsBuddy(p, q, k);
    BuddyIsSibling(p, k);
  }

  /** A free page lies in some maximal free block. */
  lemma {:induction false} FreePageIsCovered(lists: Lists, free: set<nat>, x: nat, k: nat)
    requires Canonical(lists, free) && k < MAX_ORDER && BlockPages(Base(x, k), k) <= free
    ensures IsFree(lists, x)
    decreases MAX_ORDER - k
  {
    BaseBounds(x, k);
    BaseStep(x, k);
    if Maximal(free, Base(x, k), k) {
      assert Covers(lists, x, k);
    } else {
      FreePageIsCovered(lists, free, x, k + 1);
    }
  }

  /** The state is a function of the free set: equal free pages mean identical lists. */
  lemma SameFreeSetSameLists(a: Lists, b: Lists, n: nat)
    requires Resting(a, n) && Resting(b, n)
    requires FreeSet(a, n) == FreeSet(b, n)
    ensures a == b
  {
    RestingIsCanonical(a, n);
    RestingIsCanonical(b, n);
    forall k | 0 <= k < MAX_ORDER ensures a[k] == b[k] {
      assert forall p :: p in a[k] <==> p in b[k];
    }
  }

  ghost predicate FreeRun(free: set<nat>, p: nat, k: nat) {
    Aligned(p, k) && BlockPages(p, k) <= free
  }

  // ----- What the operations do to the lists -----

  /** Allocating an order yields a free run, from the smallest order that has a block, whenever
      there is a free run; otherwise -1. */
  ghost predicate Allocates(a: Lists, b: Lists, n: nat, order: nat, r: int) {
    && Resting(b, n)
    && (r == -1 <==> order >= MAX_ORDER || forall p: nat :: !FreeRun(FreeSet(a, n), p, order))
    && (r == -1 ==> b == a)
    && (r != -1 ==> r >= 0 && FreeRun(FreeSet(a, n), r, order) && (exists k :: Lowest(a, order, k, r))
                    && FreeSet(b, n) == FreeSet(a, n) - BlockPages(r, order))
  }

  ghost predicate Freeable(a: Lists, n: nat, p: nat, order: nat) {
    order < MAX_ORDER && Aligned(p, order) && p + PagesPerBlock(order) <= n && BlockPages(p, order) !! FreeSet(a, n)
  }

  ghost predicate Frees(a: Lists, b: Lists, n: nat, p: nat, order: nat) {
    Resting(b, n) && FreeSet(b, n) == FreeSet(a, n) + BlockPages(p, order)
  }

  ghost predicate Reserves(a: Lists, b: Lists, n: nat, page: nat, reserved: bool) {
    && Resting(b, n)
    && (reserved <==> page in FreeSet(a, n))
    && FreeSet(b, n) == FreeSet(a, n) - {page}
    && (!reserved ==> b == a)
  }

  lemma NoAllocation(a: Lists, n: nat, order: nat)
    requires Resting(a, n)
    ensures order >= MAX_ORDER || (forall p: nat :: !FreeRun(FreeSet(a, n), p, order)) ==> Allocates(a, a, n, order, -1)
  {
  }

  lemma Allocation(a: Lists, b: Lists, n: nat, order: nat, k: nat, r: nat)
    requires Resting(b, n) && Lowest(a, order, k, r) && order < MAX_ORDER && FreeRun(FreeSet(a, n), r, order)
    requires FreeSet(b, n) == FreeSet(a, n) - BlockPages(r, order)
    ensures Allocates(a, b, n, order, r)
  {
  }

  lemma Freeing(a: Lists, b: Lists, n: nat, p: nat, order: nat)
    requires Resting(b, n) && FreeSet(b, n) == FreeSet(a, n) + BlockPages(p, order)
    ensures Frees(a, b, n, p, order)
  {
  }

  lemma Reserving(a: Lists, b: Lists, n: nat, page: nat, reserved: bool)
    requires Resting(b, n) && (reserved <==> page in FreeSet(a, n))
    requires if reserved then FreeSet(b, n) == FreeSet(a, n) - {page} else b == a
    ensures Reserves(a, b, n, page, reserved)
  {
  }

  // ----- One-block changes of the lists -----

  ghost function Inserted(lists: Lists, order: nat, p: nat): Lists
    requires order < |lists|
  {
    lists[order := lists[order] + {p}]
  }

  ghost function Removed(lists: Lists, order: nat, p: nat): Lists
    requires order < |lists|
  {
    lists[order := lists[order] - {p}]
  }

  /** Block p of the given order is replaced by its two halves. */
  ghost function Split(lists: Lists, order: nat, p: nat): Lists
    requires 0 < order < |lists|
  {
    Inserted(Inserted(Removed(lists, order, p), order - 1, p), order - 1, p + PagesPerBlock(order - 1))
  }

  /** A page starts at most one listed block. */
  ghost predicate OneBlockPerPage(lists: Lists) {
    forall j, k, p | 0 <= j < |lists| && 0 <= k < |lists| && p in lists[j] && p in lists[k] :: j == k
  }

  lemma HalvesFillBlock(p: nat, k: nat, free: set<nat>)
    ensures BlockPages(p, k + 1) == BlockPages(p, k) + BlockPages(p + PagesPerBlock(k), k)
    ensures BlockPages(p, k) !! BlockPages(p + PagesPerBlock(k), k)
    ensures var rest := free - BlockPages(p, k + 1);
            && BlockPages(p, k) !! rest
            && BlockPages(p + PagesPerBlock(k), k) !! rest + BlockPages(p, k)
            && (BlockPages(p, k + 1) <= free ==>
                  rest + BlockPages(p, k) + BlockPages(p + PagesPerBlock(k), k) == free)
  {
    forall x: nat ensures InBlock(x, p, k + 1) <==> InBlock(x, p, k) || InBlock(x, p + PagesPerBlock(k), k) {
    }
  }

  /** Removing a listed block makes exactly its pages unavailable. */
  lemma RemoveKeeps(a: Lists, b: Lists, n: nat, order: nat, p: nat)
    requires Disjoint(a, n) && order < |a| && p in a[order] && b == Removed(a, order, p)
    ensures Disjoint(b, n)
    ensures BlockPages(p, order) <= FreeSet(a, n)
    ensures FreeSet(b, n) == FreeSet(a, n) - BlockPages(p, order)
  {
    AlignedBase(p, order);
    CoveredPageInRange(a, n, p, order);
    forall x: nat, k: nat ensures Covers(b, x, k) <==> Covers(a, x, k) && !InBlock(x, p, order) {
      BaseBounds(x, order);
      if InBlock(x, p, order) {
        BaseUnique(x, p, order);
        assert Covers(a, x, order);
      }
      assert Covers(b, x, k) ==> Covers(a, x, k);
    }
  }

  /** Inserting an aligned block of pages that are not free makes exactly them free. */
  lemma InsertKeeps(a: Lists, b: Lists, n: nat, order: nat, p: nat)
    requires Disjoint(a, n) && order < |a| && b == Inserted(a, order, p)
    requires Aligned(p, order) && p + PagesPerBlock(order) <= n
    requires BlockPages(p, order) !! FreeSet(a, n)
    ensures Disjoint(b, n)
    ensures FreeSet(b, n) == FreeSet(a, n) + BlockPages(p, order)
  {
    AlignedBase(p, order);
    forall x: nat, k: nat ensures Covers(b, x, k) <==> Covers(a, x, k) || (InBlock(x, p, order) && k == order) {
      BaseBounds(x, order);
      if InBlock(x, p, order) {
        BaseUnique(x, p, order);
      }
    }
    forall x: nat, j: nat, k: nat | Covers(b, x, j) && Covers(b, x, k) ensures j == k {
      if Covers(a, x, j) { CoveredPageInRange(a, n, x, j); BaseBounds(x, j); }
      if Covers(a, x, k) { CoveredPageInRange(a, n, x, k); BaseBounds(x, k); }
    }
    forall x: nat | x < n ensures IsFree(b, x) <==> IsFree(a, x) || InBlock(x, p, order) {
      assert Covers(b, x, order) || !InBlock(x, p, order);
      if IsFree(a, x) {
        var k :| Covers(a, x, k);
        assert Covers(b, x, k);
      }
    }
  }

  /** A page that is not free starts no listed block. */
  lemma NotFreeNotListed(lists: Lists, n: nat, p: nat)
    requires Disjoint(lists, n) && p !in FreeSet(lists, n)
    ensures forall k | 0 <= k < |lists| :: p !in lists[k]
  {
    forall k | 0 <= k < |lists| ensures p !in lists[k] {
      FirstPage(p, k);
      if p in lists[k] {
        ListedBlockIsFree(lists, n, p, k);
      }
    }
  }

  lemma ListedBlockIsFree(lists: Lists, n: nat, p: nat, k: nat)
    requires Disjoint(lists, n) && k < |lists| && p in lists[k]
    ensures BlockPages(p, k) <= FreeSet(lists, n)
  {
    AlignedBase(p, k);
    CoveredPageInRange(lists, n, p, k);
  }

  /** If no order from k up has a block, no aligned run of that order is free. */
  lemma NothingListedNothingFree(lists: Lists, n: nat, k: nat)
    requires Resting(lists, n) && k < MAX_ORDER
    requires forall j | k <= j < MAX_ORDER :: lists[j] == {}
    ensures forall p :: !FreeRun(FreeSet(lists, n), p, k)
  {
    forall p: nat ensures !FreeRun(FreeSet(lists, n), p, k) {
      if FreeRun(FreeSet(lists, n), p, k) {
        var j := FreeBlockIsCovered(lists, n, p, k);
        assert false;
      }
    }
  }

  // ----- Splitting down to a page and merging back up -----

  lemma FewerBlocksNoBuddyPairs(a: Lists, b: Lists)
    requires NoBuddyPairs(a) && |b| == |a| && forall k | 0 <= k < |a| :: b[k] <= a[k]
    ensures NoBuddyPairs(b)
  {
    forall k | 0 <= k < |b| - 1 ensures NoBuddiesIn(b[k], k) {
      assert NoBuddiesIn(a[k], k);
    }
  }

  /** Apart from the block holding page x, splitting that block leaves no buddy pair: the other
      half's buddy is the half that holds x. */
  lemma SplitTowards(a: Lists, n: nat, k: nat, x: nat)
    requires Disjoint(a, n) && 0 < k < MAX_ORDER && Covers(a, x, k)
    requires NoBuddyPairs(Removed(a, k, Base(x, k)))
    ensures Covers(Split(a, k, Base(x, k)), x, k - 1)
    ensures NoBuddyPairs(Removed(Split(a, k, Base(x, k)), k - 1, Base(x, k - 1)))
  {
    var p, h := Base(x, k), Base(x, k - 1);
    var q := p + PagesPerBlock(k - 1);
    var rest := Removed(a, k, p);
    var b := Removed(Split(a, k, p), k - 1, h);
    BaseBounds(x, k);
    InHalf(x, p, k - 1);
    AlignedBase(p, k);
    Halves(p, k - 1);
    forall j | 0 <= j < |b| - 1 ensures NoBuddiesIn(b[j], j) {
      assert NoBuddiesIn(rest[j], j);
      if j == k - 1 {
        var other := if h == p then q else p;
        LoneHalf(a, n, j, x, other);
        assert b[j] == a[j] + {other} - {h};
      }
    }
  }

  lemma LoneHalf(a: Lists, n: nat, j: nat, x: nat, other: nat)
    requires Disjoint(a, n) && j + 1 < MAX_ORDER && Covers(a, x, j + 1) && NoBuddiesIn(a[j], j)
    requires Aligned(other, j) && Base(other, j + 1) == Base(x, j + 1) && other != Base(x, j)
    ensures NoBuddiesIn(a[j] + {other} - {Base(x, j)}, j)
  {
    var s := a[j] + {other} - {Base(x, j)};
    forall p, q | p in s && q in s && Base(p, j + 1) == Base(q, j + 1) ensures p == q {
      if p in a[j] { NoBlockInside(a, n, j, x, p); }
      if q in a[j] { NoBlockInside(a, n, j, x, q); }
    }
  }

  /** No block is listed inside another. */
  lemma NoBlockInside(a: Lists, n: nat, j: nat, x: nat, p: nat)
    requires Disjoint(a, n) && j + 1 < MAX_ORDER && Covers(a, x, j + 1) && p in a[j]
    ensures Base(p, j + 1) != Base(x, j + 1)
  {
    AlignedBase(p, j);
    assert Covers(a, p, j);
    if Base(p, j + 1) == Base(x, j + 1) {
      assert Covers(a, p, j + 1);
    }
  }

  /** The least listed block of the smallest order, from `order` up, that has any. */
  ghost predicate Lowest(lists: Lists, order: nat, k: nat, p: nat) {
    && order <= k < |lists| && p in lists[k] && (forall x | x in lists[k] :: p <= x)
    && forall j | order <= j < k :: lists[j] == {}
  }

  /** Splitting the block an allocation starts from leaves it lowest one order further down. */
  lemma SplitLowest(a: Lists, n: nat, order: nat, k: nat, p: nat)
    requires Disjoint(a, n) && order < k && Lowest(a, order, k, p) && NoBuddyPairs(Removed(a, k, p))
    ensures Lowest(Split(a, k, p), order, k - 1, p)
    ensures NoBuddyPairs(Removed(Split(a, k, p), k - 1, p))
  {
    AlignedBase(p, k);
    AlignedBase(p, k - 1);
    Halves(p, k - 1);
    SplitTowards(a, n, k, p);
  }

  lemma AllocationStarts(lists: Lists, n: nat, order: nat, k: nat, p: nat)
    requires Resting(lists, n) && Lowest(lists, order, k, p)
    ensures NoBuddyPairs(Removed(lists, k, p))
    ensures FreeRun(FreeSet(lists, n), p, order)
  {
    FewerBlocksNoBuddyPairs(lists, Removed(lists, k, p));
    ListedBlockIsFree(lists, n, p, k);
    AlignedBase(p, k);
    AlignedBase(p, order);
    AlignedDown(p, order, k);
    BlockPagesNest(p, order, k);
  }

  /** Two listed buddies become one block of the next order. */
  ghost function Merged(lists: Lists, order: nat, p: nat, q: nat): Lists
    requires order + 1 < |lists|
  {
    Inserted(Removed(Removed(lists, order, p), order, q), order + 1, if p < q then p else q)
  }

  /** A merge leaves no buddy pair apart from the merged block's. */
  lemma MergeKeepsRest(a: Lists, n: nat, order: nat, p: nat, q: nat)
    requires Disjoint(a, n) && order + 1 < MAX_ORDER && p in a[order] && q in a[order] && q == Buddy(p, order)
    requires NoBuddyPairs(Removed(a, order, p))
    ensures var m := if q < p then q else p;
            && m in Merged(a, order, q, p)[order + 1]
            && NoBuddyPairs(Removed(Merged(a, order, q, p), order + 1, m))
  {
    var m := if q < p then q else p;
    FewerBlocksNoBuddyPairs(Removed(a, order, p), Removed(Merged(a, order, q, p), order + 1, m));
  }

  /** With its buddy unlisted, a block can be part of no buddy pair. */
  lemma NoBuddyListed(a: Lists, n: nat, order: nat, p: nat)
    requires Disjoint(a, n) && order < MAX_ORDER && p in a[order] && NoBuddyPairs(Removed(a, order, p))
    requires Buddy(p, order) < 0 || Buddy(p, order) !in a[order]
    ensures NoBuddyPairs(a)
  {
    forall k | 0 <= k < |a| - 1 ensures NoBuddiesIn(a[k], k) {
      var rest := Removed(a, order, p)[k];
      assert NoBuddiesIn(rest, k);
      if k == order {
        forall x, y | x in a[k] && y in a[k] && Base(x, k + 1) == Base(y, k + 1) ensures x == y {
          assert (x == p || x in rest) && (y == p || y in rest);
          if x != y {
            SiblingIsBuddy(x, y, k);
            SiblingIsBuddy(y, x, k);
          }
        }
      }
    }
  }

  /** The two buddies' pages are those of the block they merge into. */
  lemma BuddiesFillParent(p: nat, k: nat)
    requires Aligned(p, k)
    ensures var q := Buddy(p, k);
            && 0 <= q && q != p && Aligned(q, k) && Buddy(q, k) == p
            && var m := (if p < q then p else q);
               Aligned(m, k + 1) && BlockPages(m, k + 1) == BlockPages(p, k) + BlockPages(q, k)
               && BlockPages(p, k) !! BlockPages(q, k)
  {
    var q := Buddy(p, k);
    BuddyIsSibling(p, k);
    SiblingIsBuddy(q, p, k);
    SiblingsFillParent(p, q, k);
    BaseBounds(p, k + 1);
    HalvesFillBlock(if p < q then p else q, k, {});
  }

  /** The block holding page x is the only one in the way of rest once it is taken to order 0. */
  lemma PageStarts(lists: Lists, n: nat, x: nat) returns (k: nat)
    requires Resting(lists, n) && x in FreeSet(lists, n)
    ensures Covers(lists, x, k) && k < MAX_ORDER && NoBuddyPairs(Removed(lists, k, Base(x, k)))
  {
    k :| Covers(lists, x, k);
    FewerBlocksNoBuddyPairs(lists, Removed(lists, k, Base(x, k)));
  }

  // ----- The initial tiling -----

  /** Exactly the pages below offset are free, in blocks of order at least k, at most one in each
      order but the top. */
  ghost predicate Tiled(lists: Lists, n: nat, offset: nat, k: nat) {
    && Disjoint(lists, n) && offset <= n
    && (forall x: nat :: x in FreeSet(lists, n) <==> x < offset)
    && (forall j | 0 <= j < k && j < |lists| :: lists[j] == {})
    && (forall j, p, q | 0 <= j < |lists| - 1 && p in lists[j] && q in lists[j] :: p == q)
  }

  lemma TilingStarts(lists: Lists, n: nat)
    requires |lists| == MAX_ORDER && forall j | 0 <= j < |lists| :: lists[j] == {}
    ensures Tiled(lists, n, 0, MAX_ORDER) && Aligned(0, MAX_ORDER - 1)
  {
    BaseBounds(0, MAX_ORDER - 1);
  }

  /** The next tile of order k fits, and once placed is the only one unless k is the top order. */
  lemma TilePlaced(lists: Lists, n: nat, offset: nat, k: nat)
    requires Tiled(lists, n, offset, k) && k < MAX_ORDER && (k < MAX_ORDER - 1 ==> lists[k] == {})
    requires Aligned(offset, k) && offset + PagesPerBlock(k) <= n
    ensures |lists| == MAX_ORDER && BlockPages(offset, k) !! FreeSet(lists, n)
    ensures Tiled(Inserted(lists, k, offset), n, offset + PagesPerBlock(k), k)
    ensures Inserted(lists, k, offset)[k] != {}
    ensures Aligned(offset + PagesPerBlock(k), k)
  {
    NextAligned(offset, k);
    InsertKeeps(lists, Inserted(lists, k, offset), n, k, offset);
    forall x: nat ensures x < offset + PagesPerBlock(k) <==> x < offset || x in BlockPages(offset, k) {
      assert x in BlockPages(offset, k) <==> InBlock(x, offset, k);
    }
  }

  lemma TilingLowers(lists: Lists, n: nat, offset: nat, k: nat)
    requires Tiled(lists, n, offset, k + 1) && k < MAX_ORDER
    ensures Tiled(lists, n, offset, k) && |lists| == MAX_ORDER && lists[k] == {} && offset <= n
    ensures PagesPerBlock(k + 1) == 2 * PagesPerBlock(k)
  {
  }

  lemma TilingEnds(lists: Lists, n: nat, offset: nat, k: nat)
    requires Tiled(lists, n, offset, k)
    requires offset == n || (k == 0 && n - offset < PagesPerBlock(0))
    ensures offset == n && Resting(lists, n)
    ensures forall x: nat :: x in FreeSet(lists, n) <==> x < n
  {
  }
}
