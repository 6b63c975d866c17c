/** The page allocator around the buddy algorithm: it marks every descriptor with a type and
    reserves what is not available, and keeps types and free lists in step. */
module PageAllocator {
  import opened Blocks
  import opened BuddyPageAllocator
  import opened FreeLists

  datatype PageType = INVALID | RESERVED | AVAILABLE | ALLOCATED

  datatype MemoryBlock = MemoryBlock(basePfn: nat, nrPages: nat, normal: bool)

  /** The pages the kernel image or stack lies on, by the first and the last of them. */
  datatype Span = Span(first: nat, last: nat)

  const SIZEOF_PAGE_DESCRIPTOR: nat := 16

  ghost predicate In(x: nat, s: Span) {
    s.first <= x <= s.last
  }

  ghost predicate Describes(b: MemoryBlock, x: nat) {
    b.normal && b.basePfn <= x < b.basePfn + b.nrPages
  }

  /** Page x is backed by normal memory described by one of the blocks. */
  ghost predicate Present(blocks: seq<MemoryBlock>, x: nat) {
    exists i | 0 <= i < |blocks| :: Describes(blocks[i], x)
  }

  /** The last page that holds descriptors, of 16 bytes each. */
  function DescriptorsEnd(heapStart: nat, nrPages: nat): nat {
    heapStart + nrPages * SIZEOF_PAGE_DESCRIPTOR / 4096
  }

  /** What a page is at first. Whatever memory there is, the page of address 0, the kernel's image, its
      stack and the descriptors are never given out, even where they lie on the pages of the first
      tables, and those tables are in use. */
  ghost function FirstType(blocks: seq<MemoryBlock>, image: Span, stack: Span, descriptors: Span, x: nat): PageType {
    if x == 0 || In(x, image) || In(x, stack) || In(x, descriptors) then RESERVED
    else if 1 <= x <= 6 then ALLOCATED
    else if Present(blocks, x) then AVAILABLE
    else INVALID
  }

  // ----- Runs of requests, as far as the types of pages tell -----

  datatype Request = Take(order: nat) | Give(pgd: nat, order: nat)

  /** Exactly the pages of the block change, each from one type to the other. */
  ghost predicate Turns(before: seq<PageType>, after: seq<PageType>, pgd: nat, order: nat, from: PageType,
                        to: PageType) {
    && |after| == |before| && Aligned(pgd, order) && pgd + PagesPerBlock(order) <= |before|
    && forall x: nat | x < |before| ::
         if InBlock(x, pgd, order) then before[x] == from && after[x] == to else after[x] == before[x]
  }

  /** What a request that is met does. */
  ghost predicate Step(before: seq<PageType>, r: Request, after: seq<PageType>) {
    match r
    case Take(order) => exists pgd: nat :: Turns(before, after, pgd, order, AVAILABLE, ALLOCATED)
    case Give(pgd, order) => Turns(before, after, pgd, order, ALLOCATED, AVAILABLE)
  }

  ghost predicate Run(trace: seq<seq<PageType>>, requests: seq<Request>) {
    && |trace| == |requests| + 1
    && forall i | 0 <= i < |requests| :: Step(trace[i], requests[i], trace[i + 1])
  }

  /** A page that is neither available nor allocated at first stays what it is. */
  lemma {:induction false} TypeStays(trace: seq<seq<PageType>>, requests: seq<Request>, x: nat, i: nat)
    requires Run(trace, requests) && i < |trace| && x < |trace[0]|
    requires trace[0][x] != AVAILABLE && trace[0][x] != ALLOCATED
    ensures x < |trace[i]| && trace[i][x] == trace[0][x]
  {
    if i > 0 {
      TypeStays(trace, requests, x, i - 1);
      assert Step(trace[i - 1], requests[i - 1], trace[i]);
    }
  }

  /** So over any run from the first types on, no page of the kernel's own is ever handed out or freed. */
  lemma KernelIsNeverFreed(blocks: seq<MemoryBlock>, image: Span, stack: Span, descriptors: Span,
                           trace: seq<seq<PageType>>, requests: seq<Request>, x: nat, i: nat)
    requires Run(trace, requests) && i < |requests| && x < |trace[0]|
    requires trace[0][x] == FirstType(blocks, image, stack, descriptors, x)
    requires x == 0 || In(x, image) || In(x, stack) || In(x, descriptors)
    ensures x < |trace[i]| == |trace[i + 1]| && trace[i][x] == trace[i + 1][x] == RESERVED
    ensures requests[i].Give? ==> !InBlock(x, requests[i].pgd, requests[i].order)
  {
    TypeStays(trace, requests, x, i);
    TypeStays(trace, requests, x, i + 1);
    assert Step(trace[i], requests[i], trace[i + 1]);
  }

  class PageAllocator {
    const nrPages: nat
    const types: array<PageType>
    const algorithm: BuddyAllocator

    constructor (nrPages: nat)
      ensures this.nrPages == nrPages == types.Length && fresh(types)
      ensures fresh(algorithm) && fresh(algorithm.freeAreas) && fresh(algorithm.nextFree)
      ensures algorithm.Linked() && forall j | 0 <= j < |algorithm.lists| :: algorithm.lists[j] == {}
    {
      this.nrPages := nrPages;
      types := new PageType[nrPages](_ => INVALID);
      algorithm := new BuddyAllocator();
    }

    /** A page is AVAILABLE exactly when the algorithm has it free. */
    ghost predicate Valid()
      reads this, types, algorithm, algorithm.freeAreas, algorithm.nextFree
    {
      && types.Length == nrPages == algorithm.nextFree.Length
      && algorithm.Valid()
      && forall x: nat | x < nrPages :: types[x] == AVAILABLE <==> x in algorithm.Free()
    }

    method MarkPageRange(t: PageType, start: nat, nrPages: nat) returns (n: nat)
      requires start + nrPages <= types.Length
      modifies types
      ensures n == nrPages
      ensures forall x: nat | x < types.Length :: types[x] == if start <= x < start + nrPages then t else old(types[x])
    {
      var pfn := start;
      while pfn < start + nrPages
        invariant start <= pfn <= start + nrPages
        invariant forall x: nat | x < types.Length :: types[x] == if start <= x < pfn then t else old(types[x])
      {
        types[pfn] := t;
        pfn := pfn + 1;
      }
      return nrPages;
    }

    /** Marks present memory available and then the kernel's own pages, all ranges in order. */
    method MarkPages(blocks: seq<MemoryBlock>, image: Span, stack: Span, heapStart: nat)
      requires types.Length == nrPages >= 7 && forall x: nat | x < nrPages :: types[x] == INVALID
      requires forall i | 0 <= i < |blocks| :: blocks[i].basePfn + blocks[i].nrPages <= nrPages
      requires image.first <= image.last < nrPages && stack.first <= stack.last < nrPages
      requires DescriptorsEnd(heapStart, nrPages) < nrPages
      modifies types
      ensures forall x: nat | x < nrPages ::
                types[x] == FirstType(blocks, image, stack, Span(heapStart, heapStart + nrPages * 16 / 4096), x)
    {
      var i := 0;
      while i < |blocks|
        invariant 0 <= i <= |blocks|
        invariant forall x: nat | x < nrPages :: types[x] == if Present(blocks[..i], x) then AVAILABLE else INVALID
      {
        ghost var before := types[..];
        if blocks[i].normal {
          var pfn := blocks[i].basePfn;
          while pfn < blocks[i].basePfn + blocks[i].nrPages
            invariant blocks[i].basePfn <= pfn <= blocks[i].basePfn + blocks[i].nrPages
            invariant forall x: nat | x < nrPages ::
                        types[x] == if blocks[i].basePfn <= x < pfn then AVAILABLE else before[x]
          {
            types[pfn] := AVAILABLE;
            pfn := pfn + 1;
          }
        }
        forall x: nat ensures Present(blocks[..i + 1], x) <==> Present(blocks[..i], x) || Describes(blocks[i], x) {
          PresentStep(blocks, i, x);
        }
        i := i + 1;
      }
      assert blocks[..i] == blocks;
      var heap := nrPages * SIZEOF_PAGE_DESCRIPTOR / 4096 + 1;
      var _ := MarkPageRange(RESERVED, 0, 1);
      var _ := MarkPageRange(ALLOCATED, 1, 6);
      var _ := MarkPageRange(RESERVED, image.first, image.last - image.first + 1);
      var _ := MarkPageRange(RESERVED, stack.first, stack.last - stack.first + 1);
      var _ := MarkPageRange(RESERVED, heapStart, nrPages * SIZEOF_PAGE_DESCRIPTOR / 4096 + 1);
    }

    lemma PresentStep(blocks: seq<MemoryBlock>, i: nat, x: nat)
      requires i < |blocks|
      ensures Present(blocks[..i + 1], x) <==> Present(blocks[..i], x) || Describes(blocks[i], x)
    {
      var a, b := blocks[..i], blocks[..i + 1];
      if Present(a, x) {
        var j :| 0 <= j < |a| && Describes(a[j], x);
        assert b[j] == a[j];
      }
      if Present(b, x) {
        var j :| 0 <= j < |b| && Describes(b[j], x);
        assert j < i ==> a[j] == b[j];
      }
      assert b[i] == blocks[i];
    }

    /** Sets up types and free lists. Reserving cannot fail, so neither can initialisation. */
    method Init(blocks: seq<MemoryBlock>, image: Span, stack: Span, heapStart: nat)
      returns (ok: bool)
      requires types.Length == nrPages >= 7 && forall x: nat | x < nrPages :: types[x] == INVALID
      requires algorithm.Linked() && forall j | 0 <= j < |algorithm.lists| :: algorithm.lists[j] == {}
      requires forall i | 0 <= i < |blocks| :: blocks[i].basePfn + blocks[i].nrPages <= nrPages
      requires image.first <= image.last < nrPages && stack.first <= stack.last < nrPages
      requires DescriptorsEnd(heapStart, nrPages) < nrPages
      modifies types, algorithm, algorithm.freeAreas
      ensures ok && Valid() && fresh(algorithm.nextFree)
      ensures forall x: nat | x < nrPages ::
                types[x] == FirstType(blocks, image, stack, Span(heapStart, heapStart + nrPages * 16 / 4096), x)
    {
      hide Disjoint;
      hide NoBuddyPairs;
      hide ThreadsAll;
      hide Present;
      hide FirstType;
      MarkPages(blocks, image, stack, heapStart);
      var descriptors := new int[nrPages];
      ok := algorithm.Init(descriptors, nrPages);
      if !ok {
        return false;
      }
      ghost var marked := types[..];
      var pgd := 0;
      while pgd < nrPages
        invariant 0 <= pgd <= nrPages && ok && types[..] == marked
        invariant algorithm.nextFree == descriptors && algorithm.Valid()
        invariant forall x: nat | x < nrPages :: x in algorithm.Free() <==> x >= pgd || marked[x] == AVAILABLE
      {
        if types[pgd] != AVAILABLE {
          var reserved := algorithm.ReservePage(pgd);
          if !reserved {
            return false;
          }
        }
        pgd := pgd + 1;
      }
    }

    /** Allocates a run of pages where there is one. None of them can fail the type check. */
    method AllocPages(order: nat) returns (pgd: nat)
      requires Valid() && order < MAX_ORDER && exists p: nat :: FreeRun(algorithm.Free(), p, order)
      modifies types, algorithm`lists, algorithm.freeAreas, algorithm.nextFree
      ensures Valid() && algorithm.nextFree == old(algorithm.nextFree)
      ensures FreeRun(old(algorithm.Free()), pgd, order) && pgd + PagesPerBlock(order) <= nrPages
      ensures algorithm.Free() == old(algorithm.Free()) - BlockPages(pgd, order)
      ensures forall x: nat | x < nrPages ::
                types[x] == if InBlock(x, pgd, order) then ALLOCATED else old(types[x])
      ensures Step(old(types[..]), Take(order), types[..])
    {
      hide Resting;
      hide ThreadsAll;
      var run := algorithm.AllocPages(order);
      pgd := run;
      RunInRange(pgd, order, old(algorithm.Free()));
      var i := 0;
      while i < PagesPerBlock(order)
        invariant 0 <= i <= PagesPerBlock(order)
        invariant forall x: nat | x < nrPages :: types[x] == if pgd <= x < pgd + i then ALLOCATED else old(types[x])
        modifies types
      {
        assert types[pgd + i] == AVAILABLE by { assert InBlock(pgd + i, pgd, order); }
        types[pgd + i] := ALLOCATED;
        i := i + 1;
      }
      assert Turns(old(types[..]), types[..], pgd, order, AVAILABLE, ALLOCATED);
    }

    lemma RunInRange(p: nat, order: nat, free: set<nat>)
      requires FreeRun(free, p, order) && forall x | x in free :: x < nrPages
      ensures p + PagesPerBlock(order) <= nrPages
    {
      FirstPage(p, order);
    }

    /** Frees a run of pages; fired if an assert stops the kernel, and that is exactly if the run is not
        aligned or some page of it is not allocated. */
    method FreePages(pgd: nat, order: nat) returns (fired: bool)
      requires Valid() && order < MAX_ORDER && pgd + PagesPerBlock(order) <= nrPages
      requires Freeable(algorithm.lists, nrPages, pgd, order) || !Aligned(pgd, order)
               || ScanFires(algorithm.lists, pgd, order)
               || forall x: nat | x < nrPages && InBlock(x, pgd, order) :: types[x] == ALLOCATED
      modifies types, algorithm`lists, algorithm.freeAreas, algorithm.nextFree
      ensures algorithm.nextFree == old(algorithm.nextFree)
      ensures !fired <==> (&& Aligned(pgd, order)
                           && forall x: nat | x < nrPages && InBlock(x, pgd, order) :: old(types[x]) == ALLOCATED)
      ensures !fired ==> Valid() && algorithm.Free() == old(algorithm.Free()) + BlockPages(pgd, order)
      ensures !fired ==> forall x: nat | x < nrPages ::
                types[x] == if InBlock(x, pgd, order) then AVAILABLE else old(types[x])
      ensures !fired ==> Step(old(types[..]), Give(pgd, order), types[..])
    {
      hide Resting;
      hide ThreadsAll;
      hide ScanFires;
      if forall x: nat | x < nrPages && InBlock(x, pgd, order) :: types[x] == ALLOCATED {
        AllocatedIsFreeable(pgd, order);
      }
      fired := algorithm.FreePages(pgd, order);
      if fired { return; }
      var i := 0;
      while i < PagesPerBlock(order)
        invariant 0 <= i <= PagesPerBlock(order)
        invariant forall x: nat | x < nrPages :: types[x] == if pgd <= x < pgd + i then AVAILABLE else old(types[x])
        invariant forall x: nat | pgd <= x < pgd + i :: old(types[x]) == ALLOCATED
        modifies types
      {
        if types[pgd + i] != ALLOCATED {
          assert InBlock(pgd + i, pgd, order);
          return true;
        }
        types[pgd + i] := AVAILABLE;
        i := i + 1;
      }
    }

    lemma AllocatedIsFreeable(pgd: nat, order: nat)
      requires Valid() && order < MAX_ORDER && pgd + PagesPerBlock(order) <= nrPages
      requires forall x: nat | x < nrPages && InBlock(x, pgd, order) :: types[x] == ALLOCATED
      ensures Aligned(pgd, order) ==> Freeable(algorithm.lists, nrPages, pgd, order)
    {
    }

    /** Steps 1 and 2, and 3 and 4, of the self test: freeing what was just allocated restores
        every free list and every descriptor type. */
    method AllocThenFree(order: nat)
      requires Valid() && order < MAX_ORDER && exists p: nat :: FreeRun(algorithm.Free(), p, order)
      modifies types, algorithm`lists, algorithm.freeAreas, algorithm.nextFree
      ensures Valid() && algorithm.lists == old(algorithm.lists) && types[..] == old(types[..])
    {
      ghost var before := types[..];
      var pgd := AllocPages(order);
      var fired := FreePages(pgd, order);
      SameFreeSetSameLists(old(algorithm.lists), algorithm.lists, nrPages);
      forall x: nat | x < nrPages ensures types[x] == before[x] {
        assert InBlock(x, pgd, order) ==> x in BlockPages(pgd, order);
      }
    }
  }
}
