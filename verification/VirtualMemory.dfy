/** A virtual memory area: page tables written in place in physical memory, in frames taken from
    the page allocator. */
module VirtualMemory {
  import opened Arithmetic
  import opened Blocks
  import opened BuddyPageAllocator
  import opened FreeLists
  import opened Options
  import opened PageAllocator
  import opened PageTables

  /** Physical addresses the kernel can reach through its direct map. */
  const PMEM_VA_SIZE: nat := 0x1_0000_0000

  datatype MappingFlags = MappingFlags(present: bool, user: bool, writable: bool)

  datatype PageAllocation = PageAllocation(descriptorBase: nat, allocationOrder: nat)

  /** The last-level entry that inserting a mapping leaves: the new frame, and flags that are only
      ever added. */
  function Mapped(bits: nat, pa: nat, flags: MappingFlags): nat {
    var a := WithBase(bits, pa);
    var b := if flags.present then WithFlag(a, PRESENT) else a;
    var c := if flags.writable then WithFlag(b, WRITABLE) else b;
    if flags.user then WithFlag(c, ALLOW_USER) else c
  }

  lemma MappedSets(bits: nat, pa: nat, flags: MappingFlags)
    ensures BaseAddress(Mapped(bits, pa, flags)) == BaseAddress(pa)
    ensures HasFlag(Mapped(bits, pa, flags), PRESENT) <==> flags.present || HasFlag(bits, PRESENT)
    ensures HasFlag(Mapped(bits, pa, flags), WRITABLE) <==> flags.writable || HasFlag(bits, WRITABLE)
    ensures HasFlag(Mapped(bits, pa, flags), ALLOW_USER) <==> flags.user || HasFlag(bits, ALLOW_USER)
    ensures forall f: nat | 3 <= f < 12 :: HasFlag(Mapped(bits, pa, flags), f) <==> HasFlag(bits, f)
    ensures pa < 0x1_0000_0000_0000_0000 ==> Mapped(bits, pa, flags) < 0x1_0000_0000_0000_0000
  {
    hide HasFlag;
    hide WithFlag;
    hide WithBase;
    var a := WithBase(bits, pa);
    var b := if flags.present then WithFlag(a, PRESENT) else a;
    var c := if flags.writable then WithFlag(b, WRITABLE) else b;
    forall f: nat | f < 12 ensures HasFlag(a, f) <==> HasFlag(bits, f) { WithBaseSets(bits, pa, f); }
    forall f: nat | f < 12
      ensures HasFlag(WithFlag(a, PRESENT), f) <==> f == PRESENT || HasFlag(a, f)
    {
      WithFlagSets(a, PRESENT, f);
    }
    forall f: nat | f < 12
      ensures HasFlag(WithFlag(b, WRITABLE), f) <==> f == WRITABLE || HasFlag(b, f)
    {
      WithFlagSets(b, WRITABLE, f);
    }
    forall f: nat | f < 12
      ensures HasFlag(WithFlag(c, ALLOW_USER), f) <==> f == ALLOW_USER || HasFlag(c, f)
    {
      WithFlagSets(c, ALLOW_USER, f);
    }
    WithBaseSets(bits, pa, PRESENT);
    WithFlagSets(a, PRESENT, PRESENT);
    WithFlagSets(b, WRITABLE, PRESENT);
    WithFlagSets(c, ALLOW_USER, PRESENT);
  }

  /** The physical address a last-level entry gives an address of its page. */
  function Translation(entry: nat, va: nat): Option<nat> {
    if HasFlag(entry, PRESENT) then Some(BaseAddress(entry) + va % PAGE_SIZE) else None
  }

  lemma MappedTranslates(bits: nat, pa: nat, flags: MappingFlags, va: nat)
    requires flags.present
    ensures Translation(Mapped(bits, pa, flags), va) == Some(pa / PAGE_SIZE * PAGE_SIZE + va % PAGE_SIZE)
  {
    MappedSets(bits, pa, flags);
  }

  /** The order that covers n pages. */
  function Log2Ceil(n: nat): nat {
    if n == PagesPerBlock(HighBit(n)) then HighBit(n) else HighBit(n) + 1
  }

  /** It is the least order whose block holds n pages. */
  lemma Log2CeilIsLeast(n: nat)
    requires n > 0
    ensures n <= PagesPerBlock(Log2Ceil(n))
    ensures Log2Ceil(n) > 0 ==> PagesPerBlock(Log2Ceil(n) - 1) < n
  {
    HighBitBounds(n);
  }

  /** The tables on the way to count pages from an address on. */
  function TablesOf(va: nat, count: nat): set<Path> {
    if count == 0 then {} else TablesOf(va, count - 1) + PathTables(va + (count - 1) * PAGE_SIZE)
  }

  lemma {:induction false} TablesOfHas(va: nat, count: nat, i: nat)
    requires i < count
    ensures PathTables(va + i * PAGE_SIZE) <= TablesOf(va, count)
  {
    if i < count - 1 { TablesOfHas(va, count - 1, i); }
  }

  /** What hanging some of the needed tables leaves to hang. */
  lemma StillMissing(need: set<Path>, some: set<Path>, keys: set<Path>)
    requires some <= need
    ensures Missing(some, keys) <= Missing(need, keys)
    ensures Missing(need, keys + some) == Missing(need, keys) - Missing(some, keys)
  {
    var x, y := some - keys, need - (keys + some);
    assert x + y == need - keys;
    assert x !! y;
  }

  /** The entry that points at a new table. */
  function TableEntry(bits: nat, address: nat): nat {
    WithFlag(WithFlag(WithFlag(WithBase(bits, address), PRESENT), WRITABLE), ALLOW_USER)
  }

  lemma TableEntrySets(bits: nat, address: nat)
    ensures BaseAddress(TableEntry(bits, address)) == BaseAddress(address) && TableEntry(bits, address) % 8 == 7
  {
    FlagBits(TableEntry(bits, address));
    assert TableEntry(bits, address) == Mapped(bits, address, MappingFlags(true, true, true));
    MappedSets(bits, address, MappingFlags(true, true, true));
  }

  /** A free page is a free run of order 0. */
  lemma OneFrame(free: set<nat>, x: nat)
    ensures FreeRun(free, x, 0) <==> x in free
    ensures BlockPages(x, 0) == {x} && PagesPerBlock(0) == 1
  {
    SinglePage(x);
    BasePage(x);
  }

  /** The mapping of va's page is rewritten to pa's frame; every other page's is as before. */
  ghost predicate Rewritten(mem: seq<nat>, tables: Tables, mem': seq<nat>, tables': Tables, va: nat, pa: nat,
                            flags: MappingFlags) {
    forall x: nat | x < USER_HALF :: Entry(mem', tables', x) ==
      if x / PAGE_SIZE == va / PAGE_SIZE then Mapped(Entry(mem, tables, va), pa, flags) else Entry(mem, tables, x)
  }

  /** So after inserting a present mapping, every address of va's page translates to pa's frame with
      its own offset, and every other address translates as before. */
  lemma InsertedTranslates(mem: seq<nat>, tables: Tables, mem': seq<nat>, tables': Tables, va: nat, pa: nat,
                           flags: MappingFlags, x: nat)
    requires Rewritten(mem, tables, mem', tables', va, pa, flags) && flags.present && x < USER_HALF
    ensures Translation(Entry(mem', tables', x), x) ==
              if x / PAGE_SIZE == va / PAGE_SIZE then Some(pa / PAGE_SIZE * PAGE_SIZE + x % PAGE_SIZE)
              else Translation(Entry(mem, tables, x), x)
  {
    MappedTranslates(Entry(mem, tables, va), pa, flags, x);
  }

  /** The first i pages from va on translate to consecutive frames from pfn on, for user reads and
      writes; every other page's mapping is as before. */
  ghost predicate RangeMapped(before: seq<nat>, tables0: Tables, mem: seq<nat>, tables: Tables, va: nat, pfn: nat,
                              i: nat) {
    forall x: nat | x < USER_HALF :: PageMapped(Entry(before, tables0, x), Entry(mem, tables, x), x, va, pfn, i)
  }

  /** e is the last-level entry of address x when the first i pages from va on are mapped. */
  ghost predicate PageMapped(before: nat, e: nat, x: nat, va: nat, pfn: nat, i: nat) {
    var k := x / PAGE_SIZE - va / PAGE_SIZE;
    if 0 <= k < i
    then Translation(e, x) == Some((pfn + k) * PAGE_SIZE + x % PAGE_SIZE) && HasFlag(e, WRITABLE)
      && HasFlag(e, ALLOW_USER)
    else e == before
  }

  lemma OneMorePage(before: nat, e: nat, bits: nat, x: nat, va: nat, pfn: nat, i: nat)
    requires PageMapped(before, e, x, va, pfn, i)
    ensures var here, pa := va + i * PAGE_SIZE, (pfn + i) * PAGE_SIZE;
            var e' := if x / PAGE_SIZE == here / PAGE_SIZE then Mapped(bits, pa, MappingFlags(true, true, true)) else e;
            PageMapped(before, e', x, va, pfn, i + 1)
  {
    var here, pa := va + i * PAGE_SIZE, (pfn + i) * PAGE_SIZE;
    assert here / PAGE_SIZE == va / PAGE_SIZE + i;
    MappedSets(bits, pa, MappingFlags(true, true, true));
    MappedTranslates(bits, pa, MappingFlags(true, true, true), x);
  }

  lemma NothingMappedYet(before: seq<nat>, tables: Tables, mem: seq<nat>, va: nat, pfn: nat)
    requires forall x: nat :: Entry(mem, tables, x) == Entry(before, tables, x)
    ensures RangeMapped(before, tables, mem, tables, va, pfn, 0)
  {
  }

  lemma OneMoreMapped(before: seq<nat>, tables0: Tables, mem: seq<nat>, tables: Tables, mem': seq<nat>, tables': Tables,
                      va: nat, pfn: nat, i: nat, here: nat, pa: nat)
    requires RangeMapped(before, tables0, mem, tables, va, pfn, i)
    requires here == va + i * PAGE_SIZE && pa == (pfn + i) * PAGE_SIZE
    requires Rewritten(mem, tables, mem', tables', here, pa, MappingFlags(true, true, true))
    ensures RangeMapped(before, tables0, mem', tables', va, pfn, i + 1)
  {
    hide PageMapped;
    hide Entry;
    hide Mapped;
    forall x: nat | x < USER_HALF
      ensures PageMapped(Entry(before, tables0, x), Entry(mem', tables', x), x, va, pfn, i + 1)
    {
      OneMorePage(Entry(before, tables0, x), Entry(mem, tables, x), Entry(mem, tables, here), x, va, pfn, i);
    }
  }

  /** What the processor finds after a mapping was inserted: three words that let the user through, and
      the frame with the bits asked for. */
  lemma InsertedWords(mem: seq<nat>, tables: Tables, n: nat, va: nat, bits: nat, pa: nat, flags: MappingFlags)
    requires TreeOk(mem, tables, n) && va < USER_HALF && LeafPath(va) in tables
    requires Entry(mem, tables, va) == Mapped(bits, pa, flags)
    ensures var w := WordsOf(mem, tables[Root], va);
            && w.0 % 8 == 7 && w.1 % 8 == 7 && w.2 % 8 == 7 && w.3 / 4096 == pa / 4096
            && (flags.present ==> w.3 % 2 == 1) && (flags.writable ==> w.3 / 2 % 2 == 1)
            && (flags.user ==> w.3 / 4 % 2 == 1)
    ensures flags == MappingFlags(true, true, true) ==> UserWrites(mem, tables[Root], va)
  {
    hide TreeOk;
    hide Entry;
    hide Mapped;
    hide HasFlag;
    hide WordsOf;
    hide LeafPath;
    LastWordDecides(mem, tables, n, va);
    MappedSets(bits, pa, flags);
    FlagBits(Mapped(bits, pa, flags));
  }

  /** So the user can write to every address of a mapped run, each in its own frame. */
  lemma RunIsWritable(before: seq<nat>, tables0: Tables, mem: seq<nat>, tables: Tables, n: nat, va: nat, pfn: nat,
                      count: nat, x: nat)
    requires TreeOk(mem, tables, n) && RangeMapped(before, tables0, mem, tables, va, pfn, count) && x < USER_HALF
    requires 0 <= x / PAGE_SIZE - va / PAGE_SIZE < count
    ensures UserWrites(mem, tables[Root], x)
    ensures WordsOf(mem, tables[Root], x).3 / 4096 == pfn + x / PAGE_SIZE - va / PAGE_SIZE
  {
    hide TreeOk;
    hide Entry;
    hide HasFlag;
    hide WordsOf;
    hide LeafPath;
    var e := Entry(mem, tables, x);
    assert PageMapped(Entry(before, tables0, x), e, x, va, pfn, count);
    FlagBits(e);
    LastWordDecides(mem, tables, n, x);
    LeafEntry(mem, tables, n, x);
  }

  class VMA {
    const pageAllocator: PageAllocator
    const memory: array<nat>
    var pgtPhysBase: nat
    var pageAllocations: seq<PageAllocation>
    ghost var tables: Tables

    constructor (pageAllocator: PageAllocator, memory: array<nat>)
      requires pageAllocator.Valid() && 0 !in pageAllocator.algorithm.Free() && pageAllocator.algorithm.Free() != {}
      requires memory.Length == pageAllocator.nrPages * 512 && pageAllocator.nrPages * 4096 <= PMEM_VA_SIZE
      requires memory as object != pageAllocator.algorithm.freeAreas
               && memory as object != pageAllocator.algorithm.nextFree
      requires memory as object != pageAllocator.types
      modifies memory, pageAllocator.types, pageAllocator.algorithm`lists,
               pageAllocator.algorithm.freeAreas, pageAllocator.algorithm.nextFree
      ensures Valid() && this.pageAllocator == pageAllocator && this.memory == memory
      ensures forall va: nat :: Translate(va) == None
    {
      hide Resting;
      hide ThreadsAll;
      hide FreeSet;
      hide FreeRun;
      hide BlockPages;
      this.pageAllocator := pageAllocator;
      this.memory := memory;
      pgtPhysBase := 0;
      pageAllocations := [];
      tables := map[];
      new;
      ghost var x: nat :| x in Free();
      OneFrame(Free(), x);
      ghost var free := Free();
      var pgd := AllocatePhys(0);
      OneFrame(free, pgd);
      pgtPhysBase := pgd * 4096;
      tables := map[Root := pgd];
    }

    ghost predicate Apart()
      reads this, pageAllocator.algorithm
    {
      && memory as object != pageAllocator.algorithm.freeAreas && memory as object != pageAllocator.algorithm.nextFree
      && memory as object != pageAllocator.types
    }

    /** The page allocator is sound, never hands out frame 0, and reaches all of memory. */
    ghost predicate Ready()
      reads this, pageAllocator, pageAllocator.types, pageAllocator.algorithm,
            pageAllocator.algorithm.freeAreas, pageAllocator.algorithm.nextFree
    {
      && Apart() && pageAllocator.Valid() && 0 !in Free()
      && memory.Length == pageAllocator.nrPages * 512 && pageAllocator.nrPages * 4096 <= PMEM_VA_SIZE
    }

    ghost function Free(): set<nat>
      reads pageAllocator.algorithm
    {
      pageAllocator.algorithm.Free()
    }

    /** Every table has a frame of its own that is not free, and the tree is sound. */
    ghost predicate Valid()
      reads this, memory, pageAllocator, pageAllocator.types, pageAllocator.algorithm,
            pageAllocator.algorithm.freeAreas, pageAllocator.algorithm.nextFree
    {
      && Ready()
      && TreeOk(memory[..], tables, pageAllocator.nrPages)
      && pgtPhysBase == tables[Root] * 4096
      && forall p | p in tables :: tables[p] !in Free()
    }

    method AllocatePhys(order: nat) returns (pfn: nat)
      requires Ready() && order < MAX_ORDER && exists p: nat :: FreeRun(Free(), p, order)
      modifies this`pageAllocations, memory, pageAllocator.types, pageAllocator.algorithm`lists,
               pageAllocator.algorithm.freeAreas, pageAllocator.algorithm.nextFree
      ensures Ready() && pageAllocator.algorithm.nextFree == old(pageAllocator.algorithm.nextFree)
      ensures FreeRun(old(Free()), pfn, order) && Free() == old(Free()) - BlockPages(pfn, order)
      ensures 0 < pfn && pfn + PagesPerBlock(order) <= pageAllocator.nrPages
      ensures pageAllocations == old(pageAllocations) + [PageAllocation(pfn, order)]
      ensures forall w: nat | w < memory.Length ::
                memory[w] == if pfn * 512 <= w < (pfn + PagesPerBlock(order)) * 512 then 0 else old(memory[w])
    {
      hide FreeSet;
      pfn := pageAllocator.AllocPages(order);
      pageAllocations := pageAllocations + [PageAllocation(pfn, order)];
      PnZero(pfn, PagesPerBlock(order));
      FirstPage(pfn, order);
    }

    /** Zeroes the given number of pages from a frame on. */
    method PnZero(pfn: nat, count: nat)
      requires (pfn + count) * 512 <= memory.Length
      modifies memory
      ensures forall w: nat | w < memory.Length ::
                memory[w] == if pfn * 512 <= w < (pfn + count) * 512 then 0 else old(memory[w])
    {
      var w := pfn * 512;
      while w < (pfn + count) * 512
        invariant pfn * 512 <= w <= (pfn + count) * 512
        invariant forall v: nat | v < memory.Length :: memory[v] == if pfn * 512 <= v < w then 0 else old(memory[v])
      {
        memory[w] := 0;
        w := w + 1;
      }
    }

    /** Hangs a zeroed table in a frame of its own below an empty inner entry. */
    method HangTable(frame: nat, idx: nat, ghost p: Path)
      requires Valid() && p in tables && tables[p] == frame && Depth(p) < 3 && idx < ENTRIES && !KernelSlot(p, idx)
      requires Child(p, idx) !in tables && Free() != {}
      modifies this`pageAllocations, this`tables, memory, pageAllocator.types, pageAllocator.algorithm`lists,
               pageAllocator.algorithm.freeAreas, pageAllocator.algorithm.nextFree
      ensures Valid() && pageAllocator.algorithm.nextFree == old(pageAllocator.algorithm.nextFree)
      ensures tables.Keys == old(tables.Keys) + {Child(p, idx)}
      ensures forall q | q in old(tables) :: tables[q] == old(tables)[q]
      ensures Free() <= old(Free()) && |Free()| == |old(Free())| - 1
      ensures pageAllocations == old(pageAllocations) + [PageAllocation(tables[Child(p, idx)], 0)]
      ensures forall va: nat :: Entry(memory[..], tables, va) == Entry(old(memory[..]), old(tables), va)
    {
      hide Resting;
      hide ThreadsAll;
      hide FreeSet;
      hide FreeRun;
      hide BlockPages;
      hide Entry;
      hide HasFlag;
      hide TreeOk;
      InnerEntry(memory[..], tables, pageAllocator.nrPages, p, idx);
      ghost var x: nat :| x in Free();
      OneFrame(Free(), x);
      var pgd := AllocatePhys(0);
      OneFrame(old(Free()), pgd);
      memory[Word(frame, idx)] := TableEntry(memory[Word(frame, idx)], pgd * 4096);
      TableEntrySets(0, pgd * 4096);
      TableAdded(old(memory[..]), memory[..], tables, pageAllocator.nrPages, p, idx, pgd, memory[Word(frame, idx)]);
      tables := tables[Child(p, idx) := pgd];
    }

    /** Follows an inner entry, first hanging a table below it if there is none. */
    method TableBelow(frame: nat, idx: nat, ghost p: Path) returns (next: nat)
      requires Valid() && p in tables && tables[p] == frame && Depth(p) < 3 && idx < ENTRIES && !KernelSlot(p, idx)
      requires Child(p, idx) !in tables ==> Free() != {}
      modifies this`pageAllocations, this`tables, memory, pageAllocator.types, pageAllocator.algorithm`lists,
               pageAllocator.algorithm.freeAreas, pageAllocator.algorithm.nextFree
      ensures Valid() && pageAllocator.algorithm.nextFree == old(pageAllocator.algorithm.nextFree)
      ensures Child(p, idx) in tables && tables[Child(p, idx)] == next
      ensures tables.Keys == old(tables.Keys) + {Child(p, idx)}
      ensures Free() <= old(Free()) && |Free()| == |old(Free())| - if Child(p, idx) in old(tables.Keys) then 0 else 1
      ensures pageAllocations == old(pageAllocations)
                + if Child(p, idx) in old(tables.Keys) then [] else [PageAllocation(next, 0)]
      ensures forall va: nat :: Entry(memory[..], tables, va) == Entry(old(memory[..]), old(tables), va)
    {
      hide Ready;
      hide Entry;
      hide HasFlag;
      hide TreeOk;
      hide Free;
      InnerEntry(memory[..], tables, pageAllocator.nrPages, p, idx);
      if BaseAddress(memory[Word(frame, idx)]) == 0 {
        HangTable(frame, idx, p);
        InnerEntry(memory[..], tables, pageAllocator.nrPages, p, idx);
      }
      next := BaseAddress(memory[Word(frame, idx)]) / 4096;
      Reachable(next);
    }

    lemma Reachable(frame: nat)
      requires Valid() && frame < pageAllocator.nrPages
      ensures frame * 4096 < PMEM_VA_SIZE
    {
    }

    /** Walks to the last-level table of an address, hanging the missing ones. */
    method TablesFor(va: nat) returns (pt: nat)
      requires Valid() && va < USER_HALF && Missing(PathTables(va), tables.Keys) <= |Free()|
      modifies this`pageAllocations, this`tables, memory, pageAllocator.types, pageAllocator.algorithm`lists,
               pageAllocator.algorithm.freeAreas, pageAllocator.algorithm.nextFree
      ensures Valid() && pageAllocator.algorithm.nextFree == old(pageAllocator.algorithm.nextFree)
      ensures LeafPath(va) in tables && tables[LeafPath(va)] == pt
      ensures tables.Keys == old(tables.Keys) + PathTables(va)
      ensures Free() <= old(Free()) && |Free()| == |old(Free())| - Missing(PathTables(va), old(tables.Keys))
      ensures old(pageAllocations) <= pageAllocations
              && |pageAllocations| == |old(pageAllocations)| + Missing(PathTables(va), old(tables.Keys))
      ensures forall va: nat :: Entry(memory[..], tables, va) == Entry(old(memory[..]), old(tables), va)
    {
      hide *;
      RootTable();
      ghost var a := Child(Root, Pml4Index(va));
      ghost var b := Child(a, PdpIndex(va));
      ghost var c := Child(b, PdIndex(va));
      Walk(va, a, b, c, tables.Keys);
      var pdp := TableBelow(pgtPhysBase / 4096, Pml4Index(va), Root);
      var pd := TableBelow(pdp, PdpIndex(va), a);
      pt := TableBelow(pd, PdIndex(va), b);
    }

    lemma IsApart()
      requires Valid()
      ensures Apart()
    {
    }

    lemma RootTable()
      requires Valid()
      ensures Root in tables && tables[Root] == pgtPhysBase / 4096
    {
    }

    /** What an address translates to. */
    ghost function Translate(va: nat): Option<nat>
      reads this, memory
    {
      Translation(Entry(memory[..], tables, va), va)
    }

    /** Maps va's page to pa's frame, adding tables on the way. Needs a free frame per missing table. */
    method InsertMapping(va: nat, pa: nat, flags: MappingFlags)
      requires Valid() && va < USER_HALF && Missing(PathTables(va), tables.Keys) <= |Free()|
      modifies this`pageAllocations, this`tables, memory, pageAllocator.types, pageAllocator.algorithm`lists,
               pageAllocator.algorithm.freeAreas, pageAllocator.algorithm.nextFree
      ensures Valid() && pageAllocator.algorithm.nextFree == old(pageAllocator.algorithm.nextFree)
      ensures tables.Keys == old(tables.Keys) + PathTables(va)
      ensures Free() <= old(Free()) && |Free()| == |old(Free())| - Missing(PathTables(va), old(tables.Keys))
      ensures old(pageAllocations) <= pageAllocations
              && |pageAllocations| == |old(pageAllocations)| + Missing(PathTables(va), old(tables.Keys))
      ensures Rewritten(old(memory[..]), old(tables), memory[..], tables, va, pa, flags)
      ensures var w := WordsOf(memory[..], pgtPhysBase / 4096, va);
              && w.0 % 8 == 7 && w.1 % 8 == 7 && w.2 % 8 == 7 && w.3 / 4096 == pa / 4096
              && (flags.present ==> w.3 % 2 == 1) && (flags.writable ==> w.3 / 2 % 2 == 1)
              && (flags.user ==> w.3 / 4 % 2 == 1)
      ensures flags == MappingFlags(true, true, true) ==> UserWrites(memory[..], pgtPhysBase / 4096, va)
    {
      hide Ready;
      hide TreeOk;
      hide Entry;
      hide HasFlag;
      hide LeafPath;
      hide PathTables;
      hide Pml4Index;
      hide Missing;
      hide WordsOf;
      hide UserWrites;
      var pt := TablesFor(va);
      IsApart();
      ghost var mem := memory[..];
      LeafEntry(mem, tables, pageAllocator.nrPages, va);
      var entry := WithBase(memory[Word(pt, PtIndex(va))], pa);
      if flags.present { entry := WithFlag(entry, PRESENT); }
      if flags.writable { entry := WithFlag(entry, WRITABLE); }
      if flags.user { entry := WithFlag(entry, ALLOW_USER); }
      memory[Word(pt, PtIndex(va))] := entry;
      EntryWritten(mem, memory[..], tables, pageAllocator.nrPages, va, entry);
      RootTable();
      InsertedWords(memory[..], tables, pageAllocator.nrPages, va, Entry(mem, tables, va), pa, flags);
    }

    /** Looks an address up; yields exactly what it translates to. */
    method GetMapping(va: nat) returns (found: bool, pa: nat)
      requires Valid() && va < USER_HALF
      ensures found <==> Translate(va).Some?
      ensures found ==> Translate(va) == Some(pa)
    {
      hide Ready;
      hide Apart;
      hide HasFlag;
      hide TreeOk;
      hide PathTables;
      hide Free;
      hide Depth;
      hide LeafPath;
      hide Pml4Index;
      hide PdpIndex;
      hide PdIndex;
      hide PtIndex;
      hide Entry;
      pa := 0;
      RootTable();
      ghost var n := pageAllocator.nrPages;
      ghost var a := Child(Root, Pml4Index(va));
      ghost var b := Child(a, PdpIndex(va));
      ghost var c := Child(b, PdIndex(va));
      Walk(va, a, b, c, {});
      Parents(memory[..], tables, n, a, b, c);
      LeafEntry(memory[..], tables, n, va);
      InnerZero();
      InnerEntry(memory[..], tables, n, Root, Pml4Index(va));
      var pml4 := memory[Word(pgtPhysBase / 4096, Pml4Index(va))];
      if !HasFlag(pml4, PRESENT) {
        return false, pa;
      }
      InnerEntry(memory[..], tables, n, a, PdpIndex(va));
      var pdp := memory[Word(BaseAddress(pml4) / 4096, PdpIndex(va))];
      if !HasFlag(pdp, PRESENT) {
        return false, pa;
      }
      InnerEntry(memory[..], tables, n, b, PdIndex(va));
      var pd := memory[Word(BaseAddress(pdp) / 4096, PdIndex(va))];
      if !HasFlag(pd, PRESENT) {
        return false, pa;
      }
      var pt := memory[Word(BaseAddress(pd) / 4096, PtIndex(va))];
      if !HasFlag(pt, PRESENT) {
        return false, pa;
      }
      pa := BaseAddress(pt) + va % PAGE_SIZE;
      found := true;
    }

    lemma InnerZero()
      ensures !HasFlag(0, PRESENT)
    {
    }

    /** Allocates zeroed pages without disturbing the tables. */
    method AllocateRun(order: nat) returns (pfn: nat)
      requires Valid() && order < MAX_ORDER && exists p: nat :: FreeRun(Free(), p, order)
      modifies this`pageAllocations, memory, pageAllocator.types, pageAllocator.algorithm`lists,
               pageAllocator.algorithm.freeAreas, pageAllocator.algorithm.nextFree
      ensures Valid() && pageAllocator.algorithm.nextFree == old(pageAllocator.algorithm.nextFree)
      ensures FreeRun(old(Free()), pfn, order) && |Free()| == |old(Free())| - PagesPerBlock(order)
      ensures pageAllocations == old(pageAllocations) + [PageAllocation(pfn, order)]
      ensures forall va: nat :: Entry(memory[..], tables, va) == Entry(old(memory[..]), old(tables), va)
    {
      hide Resting;
      hide ThreadsAll;
      hide FreeSet;
      hide TreeOk;
      hide Entry;
      pfn := AllocatePhys(order);
      BlockSize(pfn, order);
      ghost var free, run := old(Free()), BlockPages(pfn, order);
      assert |free| == |free - run| + |run|;
      forall p | p in tables ensures !(pfn <= tables[p] < pfn + PagesPerBlock(order)) {
        InBlockPages(tables[p], pfn, order);
      }
      OtherFramesZeroed(old(memory[..]), memory[..], tables, pageAllocator.nrPages, pfn, PagesPerBlock(order));
    }

    /** Maps count pages from va on to consecutive frames from pfn on. */
    method MapRun(va: nat, pfn: nat, count: nat, ghost before: seq<nat>, ghost tables0: Tables)
      requires Valid() && va + count * PAGE_SIZE <= USER_HALF
      requires Missing(TablesOf(va, count), tables.Keys) <= |Free()|
      requires RangeMapped(before, tables0, memory[..], tables, va, pfn, 0)
      modifies this`pageAllocations, this`tables, memory, pageAllocator.types, pageAllocator.algorithm`lists,
               pageAllocator.algorithm.freeAreas, pageAllocator.algorithm.nextFree
      ensures Valid() && RangeMapped(before, tables0, memory[..], tables, va, pfn, count)
      ensures old(pageAllocations) <= pageAllocations
    {
      hide Valid;
      hide Entry;
      hide PathTables;
      hide RangeMapped;
      hide Rewritten;
      hide Free;
      hide TablesOf;
      hide Missing;
      var vbase, pbase := va, pfn * PAGE_SIZE;
      ghost var need := TablesOf(va, count);
      var i := 0;
      while i < count
        invariant 0 <= i <= count && vbase == va + i * PAGE_SIZE && pbase == (pfn + i) * PAGE_SIZE
        invariant Valid() && pageAllocator.algorithm.nextFree == old(pageAllocator.algorithm.nextFree)
                  && old(pageAllocations) <= pageAllocations
        invariant Missing(need, tables.Keys) <= |Free()|
        invariant RangeMapped(before, tables0, memory[..], tables, va, pfn, i)
      {
        TablesOfHas(va, count, i);
        StillMissing(need, PathTables(vbase), tables.Keys);
        ghost var mem, ts := memory[..], tables;
        InsertMapping(vbase, pbase, MappingFlags(true, true, true));
        OneMoreMapped(before, tables0, mem, ts, memory[..], tables, va, pfn, i, vbase, pbase);
        vbase := vbase + PAGE_SIZE;
        pbase := pbase + PAGE_SIZE;
        i := i + 1;
      }
    }

    /** Allocates 2^ceil(log2(nrPages)) zeroed pages and maps them from va on, page by page. */
    method AllocateVirt(va: nat, nrPages: nat) returns (ok: bool, ghost pfn: nat)
      requires Valid()
      requires nrPages > 0 ==>
        var order := Log2Ceil(nrPages);
        && order < MAX_ORDER && va + PagesPerBlock(order) * PAGE_SIZE <= USER_HALF
        && (exists p: nat :: FreeRun(Free(), p, order))
        && Missing(TablesOf(va, PagesPerBlock(order)), tables.Keys) + PagesPerBlock(order) <= |Free()|
      modifies this`pageAllocations, this`tables, memory, pageAllocator.types, pageAllocator.algorithm`lists,
               pageAllocator.algorithm.freeAreas, pageAllocator.algorithm.nextFree
      ensures Valid() && (ok <==> nrPages > 0)
      ensures !ok ==> tables == old(tables) && unchanged(memory) && unchanged(this`pageAllocations)
      ensures ok ==> FreeRun(old(Free()), pfn, Log2Ceil(nrPages))
      ensures ok ==> old(pageAllocations) + [PageAllocation(pfn, Log2Ceil(nrPages))] <= pageAllocations
      ensures ok ==> RangeMapped(old(memory[..]), old(tables), memory[..],
                tables, va, pfn, PagesPerBlock(Log2Ceil(nrPages)))
      ensures ok ==> forall x: nat | x < USER_HALF
                && 0 <= x / PAGE_SIZE - va / PAGE_SIZE < PagesPerBlock(Log2Ceil(nrPages)) ::
                UserWrites(memory[..], pgtPhysBase / 4096, x)
                && WordsOf(memory[..], pgtPhysBase / 4096, x).3 / 4096 == pfn + x / PAGE_SIZE - va / PAGE_SIZE
    {
      hide Valid;
      hide Entry;
      hide RangeMapped;
      hide Free;
      hide TablesOf;
      hide Missing;
      hide FreeRun;
      hide Log2Ceil;
      pfn := 0;
      if nrPages == 0 {
        return false, pfn;
      }
      var order := Log2Ceil(nrPages);
      var run := AllocateRun(order);
      pfn := run;
      NothingMappedYet(old(memory[..]), old(tables), memory[..], va, pfn);
      MapRun(va, run, PagesPerBlock(order), old(memory[..]), old(tables));
      ok := true;
      UserCanWrite(old(memory[..]), old(tables), va, pfn, PagesPerBlock(order));
    }

    lemma UserCanWrite(before: seq<nat>, tables0: Tables, va: nat, pfn: nat, count: nat)
      requires Valid() && RangeMapped(before, tables0, memory[..], tables, va, pfn, count)
      ensures forall x: nat | x < USER_HALF && 0 <= x / PAGE_SIZE - va / PAGE_SIZE < count ::
                UserWrites(memory[..], pgtPhysBase / 4096, x)
                && WordsOf(memory[..], pgtPhysBase / 4096, x).3 / 4096 == pfn + x / PAGE_SIZE - va / PAGE_SIZE
    {
      hide WordsOf;
      hide UserWrites;
      hide RangeMapped;
      RootTable();
      forall x: nat | x < USER_HALF && 0 <= x / PAGE_SIZE - va / PAGE_SIZE < count
        ensures UserWrites(memory[..], pgtPhysBase / 4096, x)
                && WordsOf(memory[..], pgtPhysBase / 4096, x).3 / 4096 == pfn + x / PAGE_SIZE - va / PAGE_SIZE
      {
        RunIsWritable(before, tables0, memory[..], tables, pageAllocator.nrPages, va, pfn, count, x);
      }
    }
  }
}
