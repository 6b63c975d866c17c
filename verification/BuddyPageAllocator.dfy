/** The buddy page allocator over descriptors threaded into free lists. A page descriptor is
    its page frame number, so descriptor order is number order; NULL is -1. */
module BuddyPageAllocator {
  import opened Blocks
  import opened FreeLists
  import opened Sequences

  const NULL: int := -1

  /** A pointer to a descriptor pointer: a free area's head, or a descriptor's link. */
  datatype Slot = Area(order: nat) | LinkOf(pfn: nat)

  /** q is the member of s that follows p in ascending order, or NULL if p is past them all. */
  ghost predicate Follows(s: set<nat>, p: int, q: int) {
    if q == NULL then forall x | x in s :: x <= p
    else q >= 0 && q in s && p < q && forall x | x in s :: x <= p || q <= x
  }

  /** The links from head lead through exactly the members of s, ascending, and end in NULL. */
  ghost predicate Threaded(next: seq<int>, head: int, s: set<nat>) {
    && (forall p | p in s :: p < |next|)
    && Follows(s, -1, head)
    && (forall p {:trigger next[p]} | p in s :: Follows(s, p, next[p]))
  }

  ghost predicate ThreadsAll(areas: seq<int>, next: seq<int>, lists: Lists) {
    && |areas| == MAX_ORDER == |lists|
    && OneBlockPerPage(lists)
    && forall k | 0 <= k < |lists| :: Threaded(next, areas[k], lists[k])
  }

  /** The descriptors met following the links from p; a link that does not ascend would end the walk. */
  ghost function Walked(next: seq<int>, p: int): seq<int>
    decreases |next| - p
  {
    if p < 0 || p >= |next| then []
    else if next[p] <= p then [p] else [p] + Walked(next, next[p])
  }

  /** From a member on, the walk meets exactly the members from there on, in ascending order, and ends. */
  lemma {:induction false} WalkFrom(next: seq<int>, head: int, s: set<nat>, p: nat)
    requires Threaded(next, head, s) && p in s
    ensures forall x: int :: x in Walked(next, p) <==> x >= p && x in s
    ensures Ascending(Walked(next, p))
    decreases |next| - p
  {
    hide Ascending;
    var q := next[p];
    assert Follows(s, p, q);
    NoneAscend();
    if q == NULL {
      Prepended(p, []);
      assert Walked(next, p) == [p] + [];
    } else {
      WalkFrom(next, head, s, q);
      hide Threaded;
      Prepended(p, Walked(next, q));
      assert Walked(next, p) == [p] + Walked(next, q);
    }
  }

  /** Every free list is acyclic and strictly ascending, and walking it meets exactly its blocks. */
  lemma WalkIsList(next: seq<int>, head: int, s: set<nat>)
    requires Threaded(next, head, s)
    ensures forall x: int :: x in Walked(next, head) <==> x >= 0 && x in s
    ensures Ascending(Walked(next, head))
  {
    hide Ascending;
    if head != NULL { WalkFrom(next, head, s, head); } else { NoneAscend(); }
  }

  /** The descriptor a slot follows: NULL, below every descriptor, for a list's head. */
  function Before(slot: Slot): int {
    if slot.Area? then -1 else slot.pfn
  }

  /** The slot is one of those that link the list of the given order. */
  ghost predicate SlotOf(lists: Lists, order: nat, slot: Slot)
    requires order < |lists|
  {
    slot == Area(order) || (slot.LinkOf? && slot.pfn in lists[order])
  }

  lemma ThreadedFrame(next: seq<int>, next': seq<int>, head: int, s: set<nat>)
    requires Threaded(next, head, s) && |next'| == |next|
    requires forall p | 0 <= p < |next| && p in s :: next'[p] == next[p]
    ensures Threaded(next', head, s)
  {
  }

  /** The links after p is linked in at a slot of the list s. */
  lemma ThreadedInsert(next: seq<int>, next': seq<int>, head: int, head': int, s: set<nat>, b: int, p: nat)
    requires Threaded(next, head, s) && |next'| == |next| && p < |next| && p !in s
    requires b == -1 || (b >= 0 && b in s)
    requires b < p && Follows(s, b, if b == -1 then head else next[b])
    requires Follows(s, p, if b == -1 then head else next[b])
    requires next'[p] == if b == -1 then head else next[b]
    requires if b == -1 then head' == p else head' == head && next'[b] == p
    requires forall x | 0 <= x < |next| && x in s && x != b :: next'[x] == next[x]
    ensures Threaded(next', head', s + {p})
  {
    var t := s + {p};
    forall x | x in t ensures Follows(t, x, next'[x]) {
    }
  }

  lemma ThreadedDelete(next: seq<int>, next': seq<int>, head: int, head': int, s: set<nat>, b: int, p: nat)
    requires Threaded(next, head, s) && |next'| == |next| && p in s
    requires b == -1 || (b >= 0 && b in s)
    requires p == if b == -1 then head else next[b]
    requires if b == -1 then head' == next[p] else head' == head && next'[b] == next[p]
    requires forall x | 0 <= x < |next| && x in s && x != b && x != p :: next'[x] == next[x]
    ensures Threaded(next', head', s - {p})
  {
    var t := s - {p};
    assert Follows(s, p, next[p]);
    if b >= 0 { assert Follows(s, b, next[b]); }
    forall x | x in t ensures Follows(t, x, next'[x]) {
      assert Follows(s, x, next[x]);
    }
  }

  /** The value a slot holds. */
  ghost function Held(areas: seq<int>, next: seq<int>, slot: Slot): int
    requires if slot.Area? then slot.order < |areas| else slot.pfn < |next|
  {
    if slot.Area? then areas[slot.order] else next[slot.pfn]
  }

  lemma InsertThreads(areas: seq<int>, next: seq<int>, areas': seq<int>, next': seq<int>, lists: Lists,
                      order: nat, slot: Slot, p: nat)
    requires ThreadsAll(areas, next, lists) && order < MAX_ORDER && p < |next| && SlotOf(lists, order, slot)
    requires forall k | 0 <= k < MAX_ORDER :: p !in lists[k]
    requires Before(slot) < p && Follows(lists[order], p, Held(areas, next, slot))
    requires areas' == if slot.Area? then areas[order := p] else areas
    requires next' == if slot.Area? then next[p := areas[order]] else next[p := next[slot.pfn]][slot.pfn := p]
    ensures ThreadsAll(areas', next', Inserted(lists, order, p))
  {
    var b := Inserted(lists, order, p);
    ThreadedInsert(next, next', areas[order], areas'[order], lists[order], Before(slot), p);
    forall k | 0 <= k < MAX_ORDER && k != order ensures Threaded(next', areas'[k], b[k]) {
      ThreadedFrame(next, next', areas[k], lists[k]);
    }
  }

  lemma DeleteThreads(areas: seq<int>, next: seq<int>, areas': seq<int>, next': seq<int>, lists: Lists,
                      order: nat, slot: Slot, p: nat)
    requires ThreadsAll(areas, next, lists) && order < MAX_ORDER && p in lists[order] && SlotOf(lists, order, slot)
    requires p < |next| && Held(areas, next, slot) == p
    requires areas' == if slot.Area? then areas[order := next[p]] else areas
    requires next' == if slot.Area? then next[p := NULL] else next[slot.pfn := next[p]][p := NULL]
    ensures ThreadsAll(areas', next', Removed(lists, order, p))
  {
    var b := Removed(lists, order, p);
    ThreadedDelete(next, next', areas[order], areas'[order], lists[order], Before(slot), p);
    forall k | 0 <= k < MAX_ORDER && k != order ensures Threaded(next', areas'[k], b[k]) {
      ThreadedFrame(next, next', areas[k], lists[k]);
    }
  }

  /** Following the link a slot of a list holds. */
  lemma HeldFollows(areas: seq<int>, next: seq<int>, lists: Lists, order: nat, slot: Slot)
    requires ThreadsAll(areas, next, lists) && order < MAX_ORDER && SlotOf(lists, order, slot)
    ensures |areas| == MAX_ORDER == |lists|
    ensures slot.LinkOf? ==> slot.pfn < |next|
    ensures Follows(lists[order], Before(slot), Held(areas, next, slot))
    ensures Held(areas, next, slot) != NULL ==> 0 <= Held(areas, next, slot) < |next|
  {
  }

  lemma EmptyThreads(areas: seq<int>, next: seq<int>, next': seq<int>, lists: Lists)
    requires ThreadsAll(areas, next, lists) && forall j | 0 <= j < |lists| :: lists[j] == {}
    ensures ThreadsAll(areas, next', lists) && |lists| == MAX_ORDER
  {
  }

  lemma FollowsRemoved(s: set<nat>, b: int, p: nat, q: int)
    requires Follows(s, b, p) && Follows(s - {p}, b, q)
    ensures Follows(s, p, q)
  {
    forall x | x in s && x != p ensures x in s - {p} {
    }
  }

  function LastPage(pgd: nat, order: nat): int {
    pgd + PagesPerBlock(order) - 1
  }

  lemma LastPageIs(pgd: nat, order: nat)
    ensures LastPage(pgd, order) == pgd + PagesPerBlock(order) - 1
  {
  }

  /** The listed block c of order k is one that the scan for overlap catches. */
  ghost predicate Catches(c: nat, k: nat, pgd: nat, order: nat) {
    c < LastPage(pgd, order) && (InBlock(pgd, c, k) || InBlock(LastPage(pgd, order), c, k))
  }

  ghost predicate ScanFires(lists: Lists, pgd: nat, order: nat) {
    exists k, c :: 0 <= k < |lists| && c in lists[k] && Catches(c, k, pgd, order)
  }

  lemma StartIsMissed(lists: Lists, n: nat, p: nat, k: nat)
    requires Disjoint(lists, n) && k < |lists| && p in lists[k]
    ensures p in FreeSet(lists, n) && !ScanFires(lists, p, 0)
  {
    ListedBlockIsFree(lists, n, p, k);
    FirstPage(p, k);
    assert Covers(lists, p, k) by { AlignedBase(p, k); }
    hide FreeSet;
    hide BlockPages;
    forall j, c | 0 <= j < |lists| && c in lists[j] ensures !Catches(c, j, p, 0) {
      OtherNotCaught(lists, n, p, k, c, j);
    }
  }

  /** A block listed beside the one that p starts does not hold p, and that one does not start before p. */
  lemma OtherNotCaught(lists: Lists, n: nat, p: nat, k: nat, c: nat, j: nat)
    requires Disjoint(lists, n) && Covers(lists, p, k) && p in lists[k] && j < |lists| && c in lists[j]
    ensures !Catches(c, j, p, 0)
  {
    assert LastPage(p, 0) == p;
    if InBlock(p, c, j) {
      BaseUnique(p, c, j);
      assert Covers(lists, p, j);
      AlignedBase(p, k);
    }
  }

  lemma MissedIsStart(lists: Lists, n: nat, p: nat) returns (k: nat)
    requires Disjoint(lists, n) && p in FreeSet(lists, n) && !ScanFires(lists, p, 0)
    ensures k < |lists| && p in lists[k]
  {
    k :| Covers(lists, p, k);
    BaseBounds(p, k);
    assert LastPage(p, 0) == p;
    assert !Catches(Base(p, k), k, p, 0);
  }

  /** Of the free pages, the scan misses exactly those that start a listed block: freeing such a page again is not
      noticed, whatever the order of the block. */
  lemma MissedPages(lists: Lists, n: nat, p: nat)
    requires Disjoint(lists, n)
    ensures p in FreeSet(lists, n) && !ScanFires(lists, p, 0) <==> exists k :: 0 <= k < |lists| && p in lists[k]
  {
    hide Disjoint;
    hide FreeSet;
    hide ScanFires;
    if k :| 0 <= k < |lists| && p in lists[k] { StartIsMissed(lists, n, p, k); }
    if p in FreeSet(lists, n) && !ScanFires(lists, p, 0) { var k := MissedIsStart(lists, n, p); }
  }

  class BuddyAllocator {
    const freeAreas: array<int>
    var nextFree: array<int>
    ghost var lists: Lists

    ghost predicate Linked()
      reads this, freeAreas, nextFree
    {
      freeAreas != nextFree && ThreadsAll(freeAreas[..], nextFree[..], lists)
    }

    /** The free pages. */
    ghost function Free(): set<nat>
      reads this`nextFree, this`lists
    {
      FreeSet(lists, nextFree.Length)
    }

    /** The lists' blocks are aligned, in range and disjoint. */
    ghost predicate Partitioned()
      reads this, freeAreas, nextFree
    {
      Linked() && Disjoint(lists, nextFree.Length)
    }

    /** The invariant between operations. */
    ghost predicate Valid()
      reads this, freeAreas, nextFree
    {
      Linked() && Resting(lists, nextFree.Length)
    }

    constructor ()
      ensures Linked() && fresh(freeAreas) && fresh(nextFree)
      ensures lists == seq(MAX_ORDER, _ => {})
    {
      freeAreas := new int[MAX_ORDER](_ => NULL);
      nextFree := new int[0];
      lists := seq(MAX_ORDER, _ => {});
    }

    predicate InBounds(slot: Slot)
      reads this
    {
      if slot.Area? then slot.order < freeAreas.Length else slot.pfn < nextFree.Length
    }

    function Deref(slot: Slot): int
      reads this, freeAreas, nextFree
      requires InBounds(slot)
    {
      if slot.Area? then freeAreas[slot.order] else nextFree[slot.pfn]
    }

    method Store(slot: Slot, v: int)
      requires InBounds(slot) && freeAreas != nextFree
      modifies freeAreas, nextFree
      ensures slot.Area? ==> freeAreas[..] == old(freeAreas[..])[slot.order := v] && nextFree[..] == old(nextFree[..])
      ensures slot.LinkOf? ==> freeAreas[..] == old(freeAreas[..]) && nextFree[..] == old(nextFree[..])[slot.pfn := v]
    {
      match slot
      case Area(k) => freeAreas[k] := v;
      case LinkOf(p) => nextFree[p] := v;
    }

    /** Links a page in before the first descriptor of the list that is not below it. A page that is listed already
        is that descriptor itself: it is linked to itself, and the list never ends. */
    method LinkIn(pgd: nat, order: nat) returns (slot: Slot)
      requires Linked() && order < MAX_ORDER && pgd < nextFree.Length
      modifies freeAreas, nextFree
      ensures old(SlotOf(lists, order, slot) && InBounds(slot)) && InBounds(slot) && Before(slot) < pgd
      ensures var next := old(Deref(slot));
              && Follows(lists[order], Before(slot), next) && (next == NULL || pgd <= next)
              && freeAreas[..] == (if slot.Area? then old(freeAreas[..])[order := pgd] else old(freeAreas[..]))
              && nextFree[..] == (if slot.Area? then old(nextFree[..])[pgd := next]
                   else old(nextFree[..])[pgd := next][slot.pfn := pgd])
      ensures |lists| == MAX_ORDER && (pgd in lists[order] ==> nextFree[pgd] == pgd)
      ensures pgd !in lists[order] ==> Follows(lists[order], pgd, old(Deref(slot)))
    {
      hide ThreadsAll;
      ghost var a, n := freeAreas[..], nextFree[..];
      slot := Area(order);
      HeldFollows(freeAreas[..], nextFree[..], lists, order, slot);
      while Deref(slot) != NULL && pgd > Deref(slot)
        invariant Linked() && SlotOf(lists, order, slot) && InBounds(slot) && Before(slot) < pgd
        invariant Follows(lists[order], Before(slot), Deref(slot))
        decreases pgd - Before(slot)
        modifies {}
      {
        slot := LinkOf(Deref(slot));
        HeldFollows(freeAreas[..], nextFree[..], lists, order, slot);
      }
      nextFree[pgd] := Deref(slot);
      Store(slot, pgd);
    }

    /** Lists a block of pages that are not free, and yields the slot that points at it. */
    method InsertBlock(pgd: nat, order: nat) returns (slot: Slot)
      requires Partitioned() && order < MAX_ORDER
      requires Aligned(pgd, order) && pgd + PagesPerBlock(order) <= nextFree.Length
      requires BlockPages(pgd, order) !! Free()
      modifies this`lists, freeAreas, nextFree
      ensures Partitioned() && lists == Inserted(old(lists), order, pgd)
      ensures Free() == old(Free()) + BlockPages(pgd, order)
      ensures SlotOf(lists, order, slot) && InBounds(slot) && Deref(slot) == pgd
    {
      hide Disjoint;
      hide FreeSet;
      hide BlockPages;
      hide ThreadsAll;
      FirstPage(pgd, order);
      NotFreeNotListed(lists, nextFree.Length, pgd);
      slot := LinkIn(pgd, order);
      InsertThreads(old(freeAreas[..]), old(nextFree[..]), freeAreas[..], nextFree[..], lists, order, slot, pgd);
      lists := Inserted(lists, order, pgd);
      InsertKeeps(old(lists), lists, nextFree.Length, order, pgd);
    }

    /** Unlinks a listed block. The list holds it, so the assert at the loop's exit cannot fire. */
    method RemoveBlock(pgd: nat, order: nat)
      requires Partitioned() && order < MAX_ORDER && pgd in lists[order]
      modifies this`lists, freeAreas, nextFree
      ensures Partitioned() && lists == Removed(old(lists), order, pgd)
      ensures BlockPages(pgd, order) <= old(Free())
      ensures Free() == old(Free()) - BlockPages(pgd, order)
      ensures pgd < nextFree.Length && nextFree[pgd] == NULL
    {
      hide Disjoint;
      hide FreeSet;
      hide BlockPages;
      hide ThreadsAll;
      var slot := Area(order);
      HeldFollows(freeAreas[..], nextFree[..], lists, order, slot);
      while Deref(slot) != NULL && pgd != Deref(slot)
        invariant Linked() && SlotOf(lists, order, slot) && InBounds(slot) && Before(slot) < pgd
        invariant Follows(lists[order], Before(slot), Deref(slot))
        decreases pgd - Before(slot)
        modifies {}
      {
        slot := LinkOf(Deref(slot));
        HeldFollows(freeAreas[..], nextFree[..], lists, order, slot);
      }
      assert Deref(slot) == pgd;
      HeldFollows(freeAreas[..], nextFree[..], lists, order, slot);
      Store(slot, nextFree[pgd]);
      nextFree[pgd] := NULL;
      DeleteThreads(old(freeAreas[..]), old(nextFree[..]), freeAreas[..], nextFree[..], lists, order, slot, pgd);
      lists := Removed(lists, order, pgd);
      RemoveKeeps(old(lists), lists, nextFree.Length, order, pgd);
    }

    /** What replacing listed block p by its halves needs, step by step. */
    lemma SplitSteps(order: nat, p: nat, right: nat)
      requires Partitioned() && 0 < order < MAX_ORDER && p in lists[order]
      requires right == p + PagesPerBlock(order - 1)
      ensures Split(lists, order, p) == Inserted(Inserted(Removed(lists, order, p), order - 1, p), order - 1, right)
      ensures Aligned(p, order - 1) && p + PagesPerBlock(order - 1) <= nextFree.Length
      ensures Aligned(right, order - 1) && right + PagesPerBlock(order - 1) <= nextFree.Length
      ensures var rest := Free() - BlockPages(p, order);
              && BlockPages(p, order - 1) !! rest
              && BlockPages(right, order - 1) !! rest + BlockPages(p, order - 1)
              && rest + BlockPages(p, order - 1) + BlockPages(right, order - 1) == Free()
    {
      Halves(p, order - 1);
      ListedBlockIsFree(lists, nextFree.Length, p, order);
      HalvesFillBlock(p, order - 1, Free());
    }

    method ReplaceByHalves(pageToSplit: nat, sourceOrder: nat)
      requires Partitioned() && 0 < sourceOrder < MAX_ORDER && pageToSplit in lists[sourceOrder]
      modifies this`lists, freeAreas, nextFree
      ensures Partitioned() && lists == Split(old(lists), sourceOrder, pageToSplit)
      ensures Free() == old(Free())
    {
      hide *;
      var right := pageToSplit + PagesPerBlock(sourceOrder - 1);
      SplitSteps(sourceOrder, pageToSplit, right);
      RemoveBlock(pageToSplit, sourceOrder);
      var _ := InsertBlock(pageToSplit, sourceOrder - 1);
      var _ := InsertBlock(right, sourceOrder - 1);
    }

    /** Replaces a listed block by its two halves. Its result is not the left half but what the
        slot points at afterwards: the next block of the source order. */
    method SplitBlock(blockPointer: Slot, sourceOrder: nat) returns (next: int)
      requires Partitioned() && 0 < sourceOrder < MAX_ORDER
      requires SlotOf(lists, sourceOrder, blockPointer) && InBounds(blockPointer) && Deref(blockPointer) != NULL
      modifies this`lists, freeAreas, nextFree
      ensures old(Deref(blockPointer)) >= 0
      ensures Partitioned() && lists == Split(old(lists), sourceOrder, old(Deref(blockPointer)))
      ensures Free() == old(Free())
      ensures Follows(old(lists[sourceOrder]), old(Deref(blockPointer)), next)
    {
      HeldFollows(freeAreas[..], nextFree[..], lists, sourceOrder, blockPointer);
      var pageToSplit: nat := Deref(blockPointer);
      ghost var s := lists[sourceOrder];
      assert pageToSplit in s && Aligned(pageToSplit, sourceOrder);
      ReplaceByHalves(pageToSplit, sourceOrder);
      assert lists[sourceOrder] == s - {pageToSplit};
      next := Deref(blockPointer);
      HeldFollows(freeAreas[..], nextFree[..], lists, sourceOrder, blockPointer);
      FollowsRemoved(s, Before(blockPointer), pageToSplit, next);
    }

    // ----- Allocation -----

    /** What a free area's head says about its list. */
    lemma AreaHead(order: nat, k: nat)
      requires Partitioned() && order <= k < MAX_ORDER
      requires |lists| == MAX_ORDER ==> forall j | order <= j < k :: lists[j] == {}
      ensures freeAreas.Length == MAX_ORDER == |lists|
      ensures freeAreas[k] == NULL <==> lists[k] == {}
      ensures freeAreas[k] != NULL ==> freeAreas[k] >= 0 && Lowest(lists, order, k, freeAreas[k])
    {
      HeldFollows(freeAreas[..], nextFree[..], lists, k, Area(k));
    }

    /** Nothing is listed from an order up, so no run of that order is free. */
    lemma NoRun(order: nat)
      requires Valid() && order < MAX_ORDER && forall j | order <= j < MAX_ORDER :: lists[j] == {}
      ensures forall p: nat :: !FreeRun(Free(), p, order)
    {
      NothingListedNothingFree(lists, nextFree.Length, order);
    }

    lemma AllocationStarts(order: nat, k: nat, p: nat)
      requires Valid() && Lowest(lists, order, k, p)
      ensures Partitioned() && NoBuddyPairs(Removed(lists, k, p))
      ensures FreeRun(Free(), p, order)
    {
      FreeLists.AllocationStarts(lists, nextFree.Length, order, k, p);
    }

    lemma LowestIsArea(order: nat, k: nat, p: nat)
      requires Partitioned() && Lowest(lists, order, k, p)
      ensures k < MAX_ORDER == |lists| && p in lists[k] && Aligned(p, k)
      ensures SlotOf(lists, k, Area(k)) && InBounds(Area(k)) && Deref(Area(k)) == p
      ensures order < k && NoBuddyPairs(Removed(lists, k, p)) ==>
                |Split(lists, k, p)| == MAX_ORDER && Lowest(Split(lists, k, p), order, k - 1, p)
                  && NoBuddyPairs(Removed(Split(lists, k, p), k - 1, p))
    {
      AreaHead(k, k);
      if order < k && NoBuddyPairs(Removed(lists, k, p)) {
        SplitLowest(lists, nextFree.Length, order, k, p);
      }
    }

    lemma FreeIs()
      requires Valid()
      ensures Free() == FreeSet(lists, nextFree.Length) && Resting(lists, nextFree.Length) && NULL == -1
    {
    }

    lemma FreeableMeans(pgd: nat, order: nat)
      requires Freeable(lists, nextFree.Length, pgd, order)
      ensures order < MAX_ORDER && Aligned(pgd, order) && pgd + PagesPerBlock(order) <= nextFree.Length
      ensures BlockPages(pgd, order) !! Free()
    {
    }

    lemma BackToRest()
      requires Partitioned() && NoBuddyPairs(lists)
      ensures Valid()
    {
    }

    lemma AtRest()
      requires Valid()
      ensures Partitioned() && NoBuddyPairs(lists) && |lists| == MAX_ORDER == 17
    {
    }

    /** Allocates a free aligned run of 2^order pages whenever one exists, from the smallest order
        that has a block. */
    method AllocPages(order: nat) returns (r: int)
      requires Valid()
      modifies this`lists, freeAreas, nextFree
      ensures Valid() && Allocates(old(lists), lists, nextFree.Length, order, r) && nextFree == old(nextFree)
    {
      hide *;
      FreeIs();
      NoAllocation(lists, nextFree.Length, order);
      if order >= MAX_ORDER {
        return NULL;
      }
      AtRest();
      var orderDifference := 0;
      AreaHead(order, order);
      while freeAreas[order + orderDifference] == NULL
        invariant order + orderDifference < MAX_ORDER == freeAreas.Length == |lists|
        invariant freeAreas[order + orderDifference] == NULL <==> lists[order + orderDifference] == {}
        invariant var head := freeAreas[order + orderDifference];
          head != NULL ==> head >= 0 && Lowest(lists, order, order + orderDifference, head)
        invariant forall j | order <= j < order + orderDifference :: lists[j] == {}
        decreases MAX_ORDER - orderDifference
        modifies {}
      {
        orderDifference := orderDifference + 1;
        if order + orderDifference >= MAX_ORDER {
          NoRun(order);
          FreeIs();
          NoAllocation(lists, nextFree.Length, order);
          return NULL;
        }
        AreaHead(order, order + orderDifference);
      }
      var pg := Area(order + orderDifference);
      ghost var p: nat := freeAreas[order + orderDifference];
      AllocationStarts(order, order + orderDifference, p);
      ghost var source := order + orderDifference;
      while orderDifference > 0
        invariant 0 <= order + orderDifference < MAX_ORDER && pg == Area(order + orderDifference)
        invariant nextFree == old(nextFree)
        invariant Partitioned() && Free() == old(Free()) && |lists| == MAX_ORDER
        invariant Lowest(lists, order, order + orderDifference, p)
        invariant NoBuddyPairs(Removed(lists, order + orderDifference, p))
      {
        LowestIsArea(order, order + orderDifference, p);
        var _ := SplitBlock(pg, order + orderDifference);
        orderDifference := orderDifference - 1;
        pg := Area(order + orderDifference);
      }
      LowestIsArea(order, order, p);
      r := Deref(pg);
      RemoveBlock(Deref(pg), order);
      BackToRest();
      FreeIs();
      Allocation(old(lists), lists, nextFree.Length, order, source, p);
    }

    // ----- Freeing -----

    function BuddyOf(pgd: nat, order: nat): int
      reads this
    {
      if order >= MAX_ORDER then NULL
      else if !Aligned(pgd, order) then NULL
      else
        var buddyPfn := Buddy(pgd, order);
        if buddyPfn > nextFree.Length then NULL else buddyPfn
    }

    /** What merging listed buddies needs, step by step. */
    lemma MergeSteps(order: nat, p: nat, q: nat)
      requires Partitioned() && order + 1 < MAX_ORDER && p in lists[order] && q in lists[order] && q == Buddy(p, order)
      ensures BuddyOf(p, order) == q && p != q
      ensures Merged(lists, order, p, q)
           == Inserted(Removed(Removed(lists, order, p), order, q), order + 1, if p < q then p else q)
      ensures q in Removed(lists, order, p)[order] && |Removed(lists, order, p)| == MAX_ORDER
      ensures var m := (if p < q then p else q);
              && Aligned(m, order + 1) && m + PagesPerBlock(order + 1) <= nextFree.Length
              && var rest := Free() - BlockPages(p, order) - BlockPages(q, order);
                 BlockPages(m, order + 1) !! rest && rest + BlockPages(m, order + 1) == Free()
    {
      ListedBlockIsFree(lists, nextFree.Length, p, order);
      ListedBlockIsFree(lists, nextFree.Length, q, order);
      BuddiesFillParent(p, order);
    }

    /** Merges the block the slot holds with its buddy; yields the slot of the merged block. */
    method MergeBlock(blockPointer: Slot, sourceOrder: nat) returns (slot: Slot)
      requires Partitioned() && sourceOrder + 1 < MAX_ORDER
      requires InBounds(blockPointer) && Deref(blockPointer) >= 0 && Deref(blockPointer) in lists[sourceOrder]
      requires Buddy(Deref(blockPointer), sourceOrder) >= 0
      requires Buddy(Deref(blockPointer), sourceOrder) in lists[sourceOrder]
      modifies this`lists, freeAreas, nextFree
      ensures Partitioned() && Free() == old(Free())
      ensures old(Deref(blockPointer)) >= 0 && Buddy(old(Deref(blockPointer)), sourceOrder) >= 0
      ensures lists == Merged(old(lists), sourceOrder, old(Deref(blockPointer)),
                Buddy(old(Deref(blockPointer)), sourceOrder))
      ensures SlotOf(lists, sourceOrder + 1, slot) && InBounds(slot)
      ensures var p := old(Deref(blockPointer)); var q := Buddy(p, sourceOrder); Deref(slot) == if p < q then p else q
    {
      hide *;
      var mergingBlock := Deref(blockPointer);
      var bud := BuddyOf(Deref(blockPointer), sourceOrder);
      MergeSteps(sourceOrder, mergingBlock, Buddy(mergingBlock, sourceOrder));
      RemoveBlock(Deref(blockPointer), sourceOrder);
      RemoveBlock(bud, sourceOrder);
      slot := InsertBlock(if mergingBlock < bud then mergingBlock else bud, sourceOrder + 1);
    }

    /** One step along a list of order ord while scanning it for blocks that hold the first or the last page. */
    lemma ScanStep(ord: nat, slot: Slot, pgd: nat, order: nat)
      requires Partitioned() && ord < MAX_ORDER && SlotOf(lists, ord, slot) && InBounds(slot) && Deref(slot) != NULL
      requires Deref(slot) < LastPage(pgd, order) && forall c | c in lists[ord] && c <= Before(slot) ::
                 !Catches(c, ord, pgd, order)
      ensures var c := Deref(slot);
              && Before(slot) < c < nextFree.Length
              && SlotOf(lists, ord, LinkOf(c)) && InBounds(LinkOf(c)) && Before(LinkOf(c)) == c
              && (Catches(c, ord, pgd, order) <==>
                    ((c <= pgd && c + PagesPerBlock(ord) > pgd)
                        || (c <= LastPage(pgd, order) && c + PagesPerBlock(ord) > LastPage(pgd, order))))
              && (Catches(c, ord, pgd, order) ==> ScanFires(lists, pgd, order))
              && (!Catches(c, ord, pgd, order) ==> forall d | d in lists[ord] && d <= c :: !Catches(d, ord, pgd, order))
    {
      HeldFollows(freeAreas[..], nextFree[..], lists, ord, slot);
      var c := Deref(slot);
      assert c in lists[ord];
    }

    /** The scan of a list ends at its end, or at a block that does not start before the last page. */
    lemma ScanEnd(ord: nat, slot: Slot, pgd: nat, order: nat)
      requires Partitioned() && ord < MAX_ORDER && SlotOf(lists, ord, slot) && InBounds(slot)
      requires Deref(slot) == NULL || LastPage(pgd, order) <= Deref(slot)
      requires forall c | c in lists[ord] && c <= Before(slot) :: !Catches(c, ord, pgd, order)
      ensures |lists| == MAX_ORDER && forall c | c in lists[ord] :: !Catches(c, ord, pgd, order)
    {
      HeldFollows(freeAreas[..], nextFree[..], lists, ord, slot);
    }

    lemma NothingCaught(pgd: nat, order: nat)
      requires Partitioned() && |lists| == MAX_ORDER && forall k, c | 0 <= k < |lists| && c in lists[k] ::
                 !Catches(c, k, pgd, order)
      ensures !ScanFires(lists, pgd, order)
    {
    }

    /** Looks for a free block that overlaps the block to be freed; the assert fires exactly if a listed block starts
        before the last page and holds the first or the last page. */
    method ScanForOverlap(pgd: nat, order: nat) returns (fired: bool)
      requires Partitioned()
      ensures fired <==> ScanFires(lists, pgd, order)
    {
      hide *;
      ListCount();
      var ord: int := MAX_ORDER - 1;
      while ord >= 0
        invariant -1 <= ord < MAX_ORDER
        invariant |lists| == MAX_ORDER && forall k, c | ord < k < |lists| && c in lists[k] :: !Catches(c, k, pgd, order)
        decreases ord
      {
        var checkSlot := Area(ord);
        ScanStart(ord);
        LastPageIs(pgd, order);
        while Deref(checkSlot) != NULL && pgd + PagesPerBlock(order) - 1 > Deref(checkSlot)
          invariant SlotOf(lists, ord, checkSlot) && InBounds(checkSlot)
          invariant forall c | c in lists[ord] && c <= Before(checkSlot) :: !Catches(c, ord, pgd, order)
          decreases nextFree.Length - Before(checkSlot)
        {
          var c := Deref(checkSlot);
          ScanStep(ord, checkSlot, pgd, order);
          if (c <= pgd && c + PagesPerBlock(ord) > pgd)
             || (c <= pgd + PagesPerBlock(order) - 1 && c + PagesPerBlock(ord) > pgd + PagesPerBlock(order) - 1) {
            return true;
          }
          checkSlot := LinkOf(c);
        }
        ScanEnd(ord, checkSlot, pgd, order);
        ord := ord - 1;
      }
      NothingCaught(pgd, order);
      return false;
    }

    lemma ListCount()
      requires Partitioned()
      ensures |lists| == MAX_ORDER == 17
    {
    }

    /** No listed block holds a page of a block whose pages are not free. */
    lemma FreeableNotCaught(pgd: nat, order: nat)
      requires Partitioned() && Freeable(lists, nextFree.Length, pgd, order)
      ensures Aligned(pgd, order) && !ScanFires(lists, pgd, order)
    {
      FirstPage(pgd, order);
      forall k, c | 0 <= k < |lists| && c in lists[k] ensures !Catches(c, k, pgd, order) {
        ListedBlockIsFree(lists, nextFree.Length, c, k);
        assert pgd in BlockPages(c, k) <==> InBlock(pgd, c, k);
        assert LastPage(pgd, order) in BlockPages(c, k) <==> InBlock(LastPage(pgd, order), c, k);
      }
    }

    /** Freeing a listed page a second time: the scan stops before the page's own block, and the page is linked to
        itself, so that walking the list never ends. */
    method FreeAgain(pgd: nat)
      requires Valid() && |lists| == MAX_ORDER && pgd in lists[0]
      modifies freeAreas, nextFree
      ensures old(!ScanFires(lists, pgd, 0) && pgd in Free()) && pgd < nextFree.Length && nextFree[pgd] == pgd
    {
      MissedPages(lists, nextFree.Length, pgd);
      var fired := ScanForOverlap(pgd, 0);
      assert !fired;
      var _ := LinkIn(pgd, 0);
    }

    lemma ScanStart(ord: nat)
      requires Partitioned() && ord < MAX_ORDER
      ensures SlotOf(lists, ord, Area(ord)) && InBounds(Area(ord)) && Before(Area(ord)) == -1
    {
    }

    /** One step of looking for the block bud in a list. */
    lemma SearchStep(order: nat, slot: Slot)
      requires Partitioned() && order < MAX_ORDER && SlotOf(lists, order, slot) && InBounds(slot)
      ensures var c := Deref(slot);
              if c == NULL then forall x | x in lists[order] :: x <= Before(slot)
              else && Before(slot) < c < nextFree.Length && c in lists[order]
                   && SlotOf(lists, order, LinkOf(c)) && InBounds(LinkOf(c)) && Before(LinkOf(c)) == c
                   && forall x | x in lists[order] :: x <= Before(slot) || c <= x
    {
      HeldFollows(freeAreas[..], nextFree[..], lists, order, slot);
    }

    /** The freed block's buddy is not listed: the lists are at rest. */
    lemma BuddyNotFound(order: nat, p: nat)
      requires Partitioned() && order < MAX_ORDER && p in lists[order] && NoBuddyPairs(Removed(lists, order, p))
      requires BuddyOf(p, order) == NULL || BuddyOf(p, order) !in lists[order]
      ensures Valid()
    {
      NoBuddyListed(lists, nextFree.Length, order, p);
    }

    lemma BuddyFound(order: nat, p: nat)
      requires Partitioned() && order + 1 < MAX_ORDER && p in lists[order] && NoBuddyPairs(Removed(lists, order, p))
      requires BuddyOf(p, order) != NULL && BuddyOf(p, order) in lists[order]
      ensures var q := BuddyOf(p, order);
              && q >= 0 && q in lists[order] && Buddy(q, order) == p
              && var m := (if q < p then q else p);
                 |Merged(lists, order, q, p)| == MAX_ORDER && m in Merged(lists, order, q, p)[order + 1]
                 && NoBuddyPairs(Removed(Merged(lists, order, q, p), order + 1, m))
    {
      BuddiesFillParent(p, order);
      MergeKeepsRest(lists, nextFree.Length, order, p, BuddyOf(p, order));
    }

    lemma TopOrderRests(p: nat)
      requires Partitioned() && p in lists[MAX_ORDER - 1] && NoBuddyPairs(Removed(lists, MAX_ORDER - 1, p))
      ensures Valid()
    {
      forall k | 0 <= k < |lists| - 1 ensures NoBuddiesIn(lists[k], k) {
        assert NoBuddiesIn(Removed(lists, MAX_ORDER - 1, p)[k], k);
      }
    }

    lemma InsertedRests(before: Lists, order: nat, p: nat)
      requires |before| == MAX_ORDER && order < MAX_ORDER && NoBuddyPairs(before)
      requires lists == Inserted(before, order, p)
      ensures |lists| == MAX_ORDER && p in lists[order] && NoBuddyPairs(Removed(lists, order, p))
    {
      FewerBlocksNoBuddyPairs(before, Removed(lists, order, p));
    }

    /** Frees a block, merging it with free buddies. The asserts fire exactly if the block is not aligned or the
        scan for overlap catches a listed block; they never do for a block none of whose pages is free. What
        a block is freed for that overlaps free pages and is not caught is left open. */
    method FreePages(pgd: nat, freedOrder: nat) returns (fired: bool)
      requires Valid() && freedOrder < MAX_ORDER && pgd + PagesPerBlock(freedOrder) <= nextFree.Length
      requires Freeable(lists, nextFree.Length, pgd, freedOrder) || !Aligned(pgd, freedOrder)
               || ScanFires(lists, pgd, freedOrder)
      modifies this`lists, freeAreas, nextFree
      ensures Valid() && nextFree == old(nextFree)
      ensures fired <==> !Aligned(pgd, freedOrder) || ScanFires(old(lists), pgd, freedOrder)
      ensures Freeable(old(lists), nextFree.Length, pgd, freedOrder) ==> !fired
      ensures if fired then lists == old(lists) else Frees(old(lists), lists, nextFree.Length, pgd, freedOrder)
    {
      hide *;
      FreeIs();
      AtRest();
      if Freeable(lists, nextFree.Length, pgd, freedOrder) { FreeableNotCaught(pgd, freedOrder); }
      if !Aligned(pgd, freedOrder) { return true; }
      fired := ScanForOverlap(pgd, freedOrder);
      if fired { return; }
      FreeableMeans(pgd, freedOrder);
      var order := freedOrder;
      var _ := InsertBlock(pgd, order);
      InsertedRests(old(lists), order, pgd);
      ghost var p := pgd;
      var bud := BuddyOf(pgd, order);
      while order < MAX_ORDER - 1
        invariant order < MAX_ORDER == |lists| && p in lists[order] && bud == BuddyOf(p, order)
        invariant nextFree == old(nextFree)
        invariant Partitioned() && Free() == old(Free()) + BlockPages(pgd, freedOrder)
        invariant NoBuddyPairs(Removed(lists, order, p))
      {
        var slot := Area(order);
        ScanStart(order);
        while Deref(slot) != NULL && bud != Deref(slot)
          invariant SlotOf(lists, order, slot) && InBounds(slot)
          invariant bud == NULL || bud !in lists[order] || bud > Before(slot)
          decreases nextFree.Length - Before(slot)
          modifies {}
        {
          SearchStep(order, slot);
          slot := LinkOf(Deref(slot));
        }
        SearchStep(order, slot);
        if Deref(slot) == NULL {
          BuddyNotFound(order, p);
          FreeIs();
          Freeing(old(lists), lists, nextFree.Length, pgd, freedOrder);
          return;
        }
        BuddyFound(order, p);
        slot := MergeBlock(slot, order);
        p := if bud < p then bud else p;
        order := order + 1;
        bud := BuddyOf(Deref(slot), order);
      }
      TopOrderRests(p);
      FreeIs();
      Freeing(old(lists), lists, nextFree.Length, pgd, freedOrder);
    }

    // ----- Reserving one page -----

    /** The lists hold page x in a block of order k, apart from which there is no buddy pair. */
    ghost predicate Holds(x: nat, k: nat)
      reads this`lists
    {
      Covers(lists, x, k) && NoBuddyPairs(Removed(lists, k, Base(x, k)))
    }

    lemma PageStarts(x: nat) returns (k: nat)
      requires Valid() && x in Free()
      ensures Holds(x, k) && k < MAX_ORDER
    {
      k := FreeLists.PageStarts(lists, nextFree.Length, x);
    }

    /** Page x is in the block its slot points at. */
    lemma PageInBlock(x: nat, order: nat, slot: Slot)
      requires Partitioned() && order < MAX_ORDER && SlotOf(lists, order, slot) && InBounds(slot)
      requires Deref(slot) != NULL && 0 <= Deref(slot) <= x < Deref(slot) + PagesPerBlock(order)
      ensures Deref(slot) in lists[order] && Base(x, order) == Deref(slot) && Covers(lists, x, order)
      ensures x in Free()
    {
      HeldFollows(freeAreas[..], nextFree[..], lists, order, slot);
      BaseUnique(x, Deref(slot), order);
      CoveredPageInRange(lists, nextFree.Length, x, order);
      BaseBounds(x, order);
      assert InBlock(x, Deref(slot), order);
      assert x in BlockPages(Deref(slot), order);
    }

    lemma HoldsLower(before: Lists, x: nat, order: nat)
      requires 0 < order < MAX_ORDER && Disjoint(before, nextFree.Length)
      requires Covers(before, x, order) && NoBuddyPairs(Removed(before, order, Base(x, order)))
      requires lists == Split(before, order, Base(x, order))
      ensures Holds(x, order - 1) && |lists| == MAX_ORDER
    {
      SplitTowards(before, nextFree.Length, order, x);
    }

    /** The scan of an order that stopped at slot has passed every block that could hold x. */
    lemma ScannedPast(x: nat, order: nat, slot: Slot)
      requires Partitioned() && order < MAX_ORDER && SlotOf(lists, order, slot) && InBounds(slot)
      requires Deref(slot) == NULL || x < Deref(slot)
      requires forall b | b in lists[order] && b <= Before(slot) :: !InBlock(x, b, order)
      ensures !Covers(lists, x, order)
    {
      HeldFollows(freeAreas[..], nextFree[..], lists, order, slot);
      BaseBounds(x, order);
      assert InBlock(x, Base(x, order), order);
    }

    lemma SearchStepFrom(order: nat, slot: Slot, x: nat)
      requires Partitioned() && order < MAX_ORDER && SlotOf(lists, order, slot) && InBounds(slot)
      requires Deref(slot) != NULL
      requires forall b | b in lists[order] && b <= Before(slot) :: !InBlock(x, b, order)
      ensures var c := Deref(slot);
              && Before(slot) < c < nextFree.Length
              && SlotOf(lists, order, LinkOf(c)) && InBounds(LinkOf(c)) && Before(LinkOf(c)) == c
              && (!(c <= x < c + PagesPerBlock(order)) ==>
                    forall b | b in lists[order] && b <= c :: !InBlock(x, b, order))
    {
      HeldFollows(freeAreas[..], nextFree[..], lists, order, slot);
    }

    /** Page x is held at the one order that covers it. */
    lemma HoldsHere(x: nat, k: nat, order: nat)
      requires Partitioned() && Holds(x, k) && order < MAX_ORDER
      ensures k == order <==> Covers(lists, x, order)
      ensures Disjoint(lists, nextFree.Length) && NoBuddyPairs(Removed(lists, k, Base(x, k)))
    {
    }

    /** At order 0 a block is one page. */
    lemma OnePage(x: nat)
      requires Partitioned()
      ensures BlockPages(x, 0) == {x} && Base(x, 0) == x
      ensures Holds(x, 0) ==> x in lists[0] && NoBuddyPairs(Removed(lists, 0, x))
      ensures x in lists[0] ==> x in Free()
    {
      SinglePage(x);
      BasePage(x);
      if x in lists[0] { ListedBlockIsFree(lists, nextFree.Length, x, 0); }
    }

    /** Splits down to a free page and unlists exactly it. */
    method ReservePage(pgd: nat) returns (reserved: bool)
      requires Valid()
      modifies this`lists, freeAreas, nextFree
      ensures Valid() && Reserves(old(lists), lists, nextFree.Length, pgd, reserved) && nextFree == old(nextFree)
    {
      hide *;
      FreeIs();
      AtRest();
      ghost var at: nat := 0;
      if pgd in Free() { at := PageStarts(pgd); }
      var order: nat := MAX_ORDER - 1;
      while order > 0
        invariant order < MAX_ORDER && |lists| == MAX_ORDER && nextFree == old(nextFree)
        invariant Partitioned() && Free() == old(Free())
        invariant if pgd in Free() then at <= order && Holds(pgd, at) else lists == old(lists)
      {
        var slot := Area(order);
        ScanStart(order);
        ghost var split := false;
        ghost var entry := lists;
        while Deref(slot) != NULL && pgd >= Deref(slot)
          invariant Partitioned() && lists == entry && Free() == old(Free()) && nextFree == old(nextFree)
          invariant SlotOf(lists, order, slot) && InBounds(slot)
          invariant forall b | b in lists[order] && b <= Before(slot) :: !InBlock(pgd, b, order)
          decreases nextFree.Length - Before(slot)
        {
          var c := Deref(slot);
          SearchStepFrom(order, slot, pgd);
          if c <= pgd && c + PagesPerBlock(order) > pgd {
            PageInBlock(pgd, order, slot);
            HoldsHere(pgd, at, order);
            var _ := SplitBlock(slot, order);
            HoldsLower(entry, pgd, order);
            at := order - 1;
            split := true;
            break;
          }
          slot := LinkOf(c);
        }
        if !split {
          ScannedPast(pgd, order, slot);
          if pgd in Free() { HoldsHere(pgd, at, order); }
        }
        order := order - 1;
      }
      var slot := Area(order);
      ScanStart(order);
      while Deref(slot) != NULL && pgd != Deref(slot)
        invariant SlotOf(lists, order, slot) && InBounds(slot)
        invariant pgd in lists[order] ==> pgd > Before(slot)
        decreases nextFree.Length - Before(slot)
        modifies {}
      {
        SearchStep(order, slot);
        slot := LinkOf(Deref(slot));
      }
      SearchStep(order, slot);
      OnePage(pgd);
      if Deref(slot) != NULL {
        RemoveBlock(pgd, 0);
        BackToRest();
        FreeIs();
        Reserving(old(lists), lists, nextFree.Length, pgd, true);
        return true;
      }
      BackToRest();
      FreeIs();
      Reserving(old(lists), lists, nextFree.Length, pgd, false);
      return false;
    }

    // ----- Initialisation -----

    /** Covers all the pages with the largest aligned blocks that fit. */
    method Init(pageDescriptors: array<int>, nrPageDescriptors: nat) returns (ok: bool)
      requires Linked() && forall j | 0 <= j < |lists| :: lists[j] == {}
      requires pageDescriptors.Length == nrPageDescriptors && pageDescriptors != freeAreas
      modifies this, freeAreas, pageDescriptors
      ensures ok && Valid() && nextFree == pageDescriptors && |lists| == 17
      ensures forall x: nat :: x in Free() <==> x < nrPageDescriptors
    {
      hide Disjoint;
      hide FreeSet;
      hide BlockPages;
      hide Aligned;
      hide Tiled;
      hide ThreadsAll;
      hide Resting;
      nextFree := pageDescriptors;
      EmptyThreads(freeAreas[..], old(nextFree[..]), nextFree[..], lists);
      TilingStarts(lists, nrPageDescriptors);
      var count, offset: nat := 0, 0;
      var currOrder: int := MAX_ORDER - 1;
      StartsPartitioned();
      while currOrder >= 0
        invariant -1 <= currOrder < MAX_ORDER && nextFree == pageDescriptors && Partitioned()
        invariant Tiled(lists, nrPageDescriptors, offset, currOrder + 1)
        invariant currOrder >= 0 ==> Aligned(offset, currOrder)
        invariant currOrder < MAX_ORDER - 1 ==> nrPageDescriptors - offset < PagesPerBlock(currOrder + 1)
      {
        TilingLowers(lists, nrPageDescriptors, offset, currOrder);
        while offset + PagesPerBlock(currOrder) <= nrPageDescriptors
          invariant nextFree == pageDescriptors && Partitioned() && |lists| == MAX_ORDER
          invariant Tiled(lists, nrPageDescriptors, offset, currOrder) && Aligned(offset, currOrder)
          invariant currOrder < MAX_ORDER - 1 ==>
            nrPageDescriptors - offset < if lists[currOrder] == {} then 2 * PagesPerBlock(currOrder)
                else PagesPerBlock(currOrder)
        {
          assert Aligned(offset, currOrder);
          TilePlaced(lists, nrPageDescriptors, offset, currOrder);
          var _ := InsertBlock(offset, currOrder);
          offset := offset + PagesPerBlock(currOrder);
          count := count + 1;
        }
        if offset == nrPageDescriptors {
          TilingEnds(lists, nrPageDescriptors, offset, currOrder);
          break;
        }
        if currOrder > 0 { AlignedDown(offset, currOrder - 1, currOrder); }
        currOrder := currOrder - 1;
      }
      if currOrder < 0 { TilingEnds(lists, nrPageDescriptors, offset, 0); }
      ok := offset == nrPageDescriptors;
      AtRest();
    }

    lemma StartsPartitioned()
      requires Linked() && forall j | 0 <= j < |lists| :: lists[j] == {}
      ensures Partitioned()
    {
    }
  }
}
