/** Four-level page tables in physical memory as values: entries, index extraction, the tree of
    table frames, and the mapping it stands for. */
module PageTables {
  import opened Arithmetic

  const PAGE_SIZE: nat := 4096
  const ENTRIES: nat := 512
  const USER_HALF: nat := 0x8000_0000_0000

  // ----- Entries: 64-bit words with a frame address above 12 flag bits -----

  const PRESENT: nat := 0
  const WRITABLE: nat := 1
  const ALLOW_USER: nat := 2

  /** The flag bits of an entry are the low twelve. */
  predicate HasFlag(bits: nat, flag: nat) {
    if flag == 0 then bits % 2 == 1 else HasFlag(bits / 2, flag - 1)
  }

  function WithFlag(bits: nat, flag: nat): nat {
    if HasFlag(bits, flag) then bits else bits + Pow2(flag)
  }

  function BaseAddress(bits: nat): nat {
    bits / 4096 * 4096
  }

  function WithBase(bits: nat, address: nat): nat {
    bits % 4096 + address / 4096 * 4096
  }

  /** The three flags are the lowest three bits of the word. */
  lemma FlagBits(bits: nat)
    ensures HasFlag(bits, PRESENT) <==> bits % 2 == 1
    ensures HasFlag(bits, WRITABLE) <==> bits / 2 % 2 == 1
    ensures HasFlag(bits, ALLOW_USER) <==> bits / 4 % 2 == 1
    ensures bits % 8 == 7 <==> HasFlag(bits, PRESENT) && HasFlag(bits, WRITABLE) && HasFlag(bits, ALLOW_USER)
  {
    var half := bits / 2;
    assert HasFlag(bits, WRITABLE) == HasFlag(half, 0);
    assert HasFlag(bits, ALLOW_USER) == HasFlag(half, 1) == HasFlag(half / 2, 0);
    hide HasFlag;
    LowThree(bits, half, half / 2, half / 2 / 2);
  }

  lemma LowThree(bits: nat, a: nat, b: nat, c: nat)
    requires a == bits / 2 && b == a / 2 && c == b / 2
    ensures b == bits / 4 && (bits % 8 == 7 <==> bits % 2 == 1 && a % 2 == 1 && b % 2 == 1)
  {
    ModUnique(bits, 4, b, 2 * (a % 2) + bits % 2);
    ModUnique(bits, 8, c, 4 * (b % 2) + 2 * (a % 2) + bits % 2);
  }

  /** A word without its lowest k bits. */
  function Above(bits: nat, k: nat): nat {
    if k == 0 then bits else Above(bits / 2, k - 1)
  }

  lemma AboveFour(bits: nat, k: nat)
    requires k >= 4
    ensures Above(bits, k) == Above(bits / 16, k - 4)
  {
    var a := bits / 2;
    var b := a / 2;
    var c := b / 2;
    assert Above(bits, k) == Above(a, k - 1) == Above(b, k - 2) == Above(c, k - 3) == Above(c / 2, k - 4);
  }

  lemma AboveFlags(bits: nat)
    ensures Above(bits, 12) == bits / 4096
  {
    AboveFour(bits, 12);
    AboveFour(bits / 16, 8);
    AboveFour(bits / 16 / 16, 4);
  }

  /** Setting a bit sets just it, and changes nothing above it. */
  lemma {:induction false} OneFlagSet(bits: nat, flag: nat, other: nat, k: nat)
    requires flag < k
    ensures HasFlag(WithFlag(bits, flag), other) <==> other == flag || HasFlag(bits, other)
    ensures Above(WithFlag(bits, flag), k) == Above(bits, k)
    decreases flag
  {
    if flag > 0 {
      assert Pow2(flag) == 2 * Pow2(flag - 1);
      assert WithFlag(bits, flag) / 2 == WithFlag(bits / 2, flag - 1) && WithFlag(bits, flag) % 2 == bits % 2;
      OneFlagSet(bits / 2, flag - 1, if other > 0 then other - 1 else 0, k - 1);
    } else {
      assert WithFlag(bits, 0) / 2 == bits / 2;
    }
  }

  /** Setting one of the twelve flags sets just it: every other bit of the 64-bit word stays as it was. */
  lemma WithFlagSets(bits: nat, flag: nat, other: nat)
    requires flag < 12
    ensures HasFlag(WithFlag(bits, flag), other) <==> other == flag || HasFlag(bits, other)
    ensures BaseAddress(WithFlag(bits, flag)) == BaseAddress(bits)
    ensures bits < 0x1_0000_0000_0000_0000 ==> WithFlag(bits, flag) < 0x1_0000_0000_0000_0000
  {
    OneFlagSet(bits, flag, other, 12);
    AboveFlags(bits);
    AboveFlags(WithFlag(bits, flag));
  }

  /** Words with the same remainder by a power of two have the same bits below it. */
  lemma {:induction false} SameLowBits(a: nat, b: nat, flag: nat, k: nat)
    requires flag < k && a % Pow2(k) == b % Pow2(k)
    ensures HasFlag(a, flag) <==> HasFlag(b, flag)
    decreases k
  {
    LowBitsOf(a, k);
    LowBitsOf(b, k);
    if flag > 0 { SameLowBits(a / 2, b / 2, flag - 1, k - 1); }
  }

  lemma LowBitsOf(a: nat, k: nat)
    requires k > 0
    ensures Pow2(k) > 0 && a % 2 == a % Pow2(k) % 2 && Pow2(k - 1) > 0 && a / 2 % Pow2(k - 1) == a % Pow2(k) / 2
  {
    hide Pow2;
    HalvePow2(k);
    var m, q, r := Pow2(k - 1), a / Pow2(k), a % Pow2(k);
    assert a == 2 * m * q + r;
    var t := m * q;
    assert a == 2 * t + r;
    ModUnique(a, 2, t + r / 2, r % 2);
    assert a / 2 == t + r / 2;
    ModUnique(a / 2, m, q, r / 2);
  }

  /** Setting the base address sets just it, and keeps all twelve flags. */
  lemma WithBaseSets(bits: nat, address: nat, flag: nat)
    ensures BaseAddress(WithBase(bits, address)) == BaseAddress(address)
    ensures flag < 12 ==> (HasFlag(WithBase(bits, address), flag) <==> HasFlag(bits, flag))
    ensures address < 0x1_0000_0000_0000_0000 ==> WithBase(bits, address) < 0x1_0000_0000_0000_0000
  {
    ModUnique(WithBase(bits, address), 4096, address / 4096, bits % 4096);
    if flag < 12 {
      assert Pow2(12) == 4096 by { Pow2Sum(6, 6); }
      SameLowBits(WithBase(bits, address), bits, flag, 12);
    }
  }

  // ----- Indices of a virtual address -----

  function Pml4Index(va: nat): nat { va / 0x80_0000_0000 % 512 }

  function PdpIndex(va: nat): nat { va / 0x4000_0000 % 512 }

  function PdIndex(va: nat): nat { va / 0x20_0000 % 512 }

  function PtIndex(va: nat): nat { va / 0x1000 % 512 }

  /** The four indices together are the page number within 48 bits. */
  lemma IndicesAreThePage(va: nat)
    requires va < 0x1_0000_0000_0000
    ensures va / PAGE_SIZE == ((Pml4Index(va) * 512 + PdpIndex(va)) * 512 + PdIndex(va)) * 512 + PtIndex(va)
    ensures va < USER_HALF ==> Pml4Index(va) < 256
  {
    var p := va / 4096;
    assert va / 0x20_0000 == p / 512;
    assert va / 0x4000_0000 == p / 512 / 512;
    assert va / 0x80_0000_0000 == p / 512 / 512 / 512;
  }

  // ----- The tree of table frames -----

  /** Where a table hangs in the tree: the root, or an entry of another table. */
  datatype Path = Root | Child(parent: Path, index: nat)

  /** The frame that holds each existing table. */
  type Tables = map<Path, nat>

  function Depth(p: Path): nat {
    match p case Root => 0 case Child(q, _) => 1 + Depth(q)
  }

  /** Entries of the root that are shared with the kernel's template. */
  predicate KernelSlot(p: Path, i: nat) {
    p == Root && (i == 0x100 || i == 0x1ff)
  }

  ghost predicate WellFormed(tables: Tables, n: nat) {
    && Root in tables
    && (forall p | p in tables :: 0 < tables[p] < n && Depth(p) <= 3)
    && (forall p, i: nat | Child(p, i) in tables :: p in tables && i < ENTRIES && !KernelSlot(p, i))
    && (forall p, q | p in tables && q in tables && tables[p] == tables[q] :: p == q)
  }

  /** Word i of frame f. */
  function Word(f: nat, i: nat): nat {
    f * 512 + i
  }

  /** An inner entry is present, writable and open to the user and points at the table below it if
      there is one, and is 0 otherwise. */
  ghost predicate EntryOk(mem: seq<nat>, tables: Tables, p: Path, i: nat)
    requires p in tables && Word(tables[p], i) < |mem|
  {
    var e := mem[Word(tables[p], i)];
    if Child(p, i) in tables then BaseAddress(e) == tables[Child(p, i)] * 4096 && e % 8 == 7
    else KernelSlot(p, i) || e == 0
  }

  ghost predicate TreeOk(mem: seq<nat>, tables: Tables, n: nat) {
    && |mem| == n * 512
    && WellFormed(tables, n)
    && forall p, i: nat | p in tables && Depth(p) < 3 && i < ENTRIES :: EntryOk(mem, tables, p, i)
  }

  /** "Base address 0" is how the code tells that there is no table below. */
  lemma InnerEntry(mem: seq<nat>, tables: Tables, n: nat, p: Path, i: nat)
    requires TreeOk(mem, tables, n) && p in tables && Depth(p) < 3 && i < ENTRIES && !KernelSlot(p, i)
    ensures 0 < tables[p] < n && Word(tables[p], i) < |mem| == n * 512
    ensures var e := mem[Word(tables[p], i)];
            if Child(p, i) in tables
            then && BaseAddress(e) == tables[Child(p, i)] * 4096 && HasFlag(e, PRESENT) && e % 8 == 7
                 && 0 < tables[Child(p, i)] < n
            else e == 0 && !HasFlag(e, PRESENT)
  {
    assert EntryOk(mem, tables, p, i);
    FlagBits(mem[Word(tables[p], i)]);
  }

  function LeafPath(va: nat): Path {
    Child(Child(Child(Root, Pml4Index(va)), PdpIndex(va)), PdIndex(va))
  }

  /** The last-level entry of an address; 0 where there is no table. */
  ghost function Entry(mem: seq<nat>, tables: Tables, va: nat): nat {
    if LeafPath(va) in tables && Word(tables[LeafPath(va)], PtIndex(va)) < |mem|
    then mem[Word(tables[LeafPath(va)], PtIndex(va))] else 0
  }

  /** Frame f is zeroed and word i of the table at p becomes e; the rest of memory stays. */
  ghost predicate Entered(mem: seq<nat>, mem': seq<nat>, tables: Tables, n: nat, p: Path, i: nat, f: nat, e: nat) {
    && TreeOk(mem, tables, n) && |mem'| == |mem|
    && p in tables && Depth(p) < 3 && i < ENTRIES && !KernelSlot(p, i) && Child(p, i) !in tables
    && 0 < f < n && (forall q | q in tables :: tables[q] != f)
    && BaseAddress(e) == f * 4096 && e % 8 == 7
    && forall w: nat | w < |mem| :: mem'[w] ==
         if w == Word(tables[p], i) then e else if f * 512 <= w < f * 512 + 512 then 0 else mem[w]
  }

  lemma EnteredWord(mem: seq<nat>, mem': seq<nat>, tables: Tables, n: nat, p: Path, i: nat, f: nat, e: nat, q: Path,
                    j: nat)
    requires Entered(mem, mem', tables, n, p, i, f, e) && j < ENTRIES
    ensures q in tables ==>
              && Word(tables[q], j) < |mem|
              && mem'[Word(tables[q], j)] == if q == p && j == i then e else mem[Word(tables[q], j)]
    ensures Word(f, j) < |mem| && mem'[Word(f, j)] == 0
  {
  }

  lemma EnteredEntryOk(mem: seq<nat>, mem': seq<nat>, tables: Tables, n: nat, p: Path, i: nat, f: nat, e: nat, q: Path,
                       j: nat)
    requires Entered(mem, mem', tables, n, p, i, f, e) && j < ENTRIES
    requires var t := tables[Child(p, i) := f]; q in t && Depth(q) < 3
    ensures var t := tables[Child(p, i) := f]; Word(t[q], j) < |mem'| && EntryOk(mem', t, q, j)
  {
    EnteredWord(mem, mem', tables, n, p, i, f, e, q, j);
    if q in tables {
      assert EntryOk(mem, tables, q, j);
    }
  }

  /** Entering a fresh zeroed frame below an empty inner entry keeps the tree and every mapping. */
  lemma TableAdded(mem: seq<nat>, mem': seq<nat>, tables: Tables, n: nat, p: Path, i: nat, f: nat, e: nat)
    requires Entered(mem, mem', tables, n, p, i, f, e)
    ensures TreeOk(mem', tables[Child(p, i) := f], n)
    ensures forall va: nat :: Entry(mem', tables[Child(p, i) := f], va) == Entry(mem, tables, va)
  {
    var t := tables[Child(p, i) := f];
    forall q, j: nat | q in t && Depth(q) < 3 && j < ENTRIES ensures Word(t[q], j) < |mem'| && EntryOk(mem', t, q, j) {
      EnteredEntryOk(mem, mem', tables, n, p, i, f, e, q, j);
    }
    forall va: nat ensures Entry(mem', t, va) == Entry(mem, tables, va) {
      EnteredWord(mem, mem', tables, n, p, i, f, e, LeafPath(va), PtIndex(va));
    }
  }

  /** Two addresses share a last-level entry exactly when they are on the same page. */
  lemma SameEntrySamePage(va: nat, other: nat)
    requires va < USER_HALF && other < USER_HALF
    ensures LeafPath(va) == LeafPath(other) && PtIndex(va) == PtIndex(other) <==> va / PAGE_SIZE == other / PAGE_SIZE
    ensures !KernelSlot(Root, Pml4Index(va))
  {
    IndicesAreThePage(va);
    IndicesAreThePage(other);
    SamePageSameIndices(va, other);
  }

  lemma SamePageSameIndices(va: nat, other: nat)
    ensures va / PAGE_SIZE == other / PAGE_SIZE ==> LeafPath(va) == LeafPath(other) && PtIndex(va) == PtIndex(other)
  {
    var p, q := va / 4096, other / 4096;
    assert va / 0x20_0000 == p / 512 && other / 0x20_0000 == q / 512;
    assert va / 0x4000_0000 == p / 512 / 512 && other / 0x4000_0000 == q / 512 / 512;
    assert va / 0x80_0000_0000 == p / 512 / 512 / 512 && other / 0x80_0000_0000 == q / 512 / 512 / 512;
  }

  lemma SameWord(tables: Tables, n: nat, p: Path, i: nat, q: Path, j: nat)
    requires WellFormed(tables, n) && p in tables && q in tables && i < ENTRIES && j < ENTRIES
    ensures Word(tables[p], i) == Word(tables[q], j) <==> p == q && i == j
  {
  }

  /** Writing a last-level entry changes the mapping of that one page. */
  lemma EntryWritten(mem: seq<nat>, mem': seq<nat>, tables: Tables, n: nat, va: nat, e: nat)
    requires TreeOk(mem, tables, n) && LeafPath(va) in tables && va < USER_HALF
    requires Word(tables[LeafPath(va)], PtIndex(va)) < |mem|
    requires mem' == mem[Word(tables[LeafPath(va)], PtIndex(va)) := e]
    ensures TreeOk(mem', tables, n)
    ensures forall other: nat | other < USER_HALF ::
              Entry(mem', tables, other) == if other / PAGE_SIZE == va / PAGE_SIZE then e else Entry(mem, tables, other)
  {
    forall q, j: nat | q in tables && Depth(q) < 3 && j < ENTRIES ensures EntryOk(mem', tables, q, j) {
      assert EntryOk(mem, tables, q, j);
      SameWord(tables, n, q, j, LeafPath(va), PtIndex(va));
    }
    forall other: nat | other < USER_HALF
      ensures Entry(mem', tables, other) == if other / PAGE_SIZE == va / PAGE_SIZE then e else Entry(mem, tables, other)
    {
      SameEntrySamePage(va, other);
      if LeafPath(other) in tables {
        SameWord(tables, n, LeafPath(other), PtIndex(other), LeafPath(va), PtIndex(va));
      }
    }
  }

  /** Where the last-level entry of an address is. */
  lemma LeafEntry(mem: seq<nat>, tables: Tables, n: nat, va: nat)
    requires TreeOk(mem, tables, n)
    ensures LeafPath(va) !in tables ==> Entry(mem, tables, va) == 0
    ensures LeafPath(va) in tables ==>
              0 < tables[LeafPath(va)] < n && Word(tables[LeafPath(va)], PtIndex(va)) < |mem| == n * 512
    ensures LeafPath(va) in tables ==> Entry(mem, tables, va) == mem[Word(tables[LeafPath(va)], PtIndex(va))]
  {
  }

  // ----- What the processor makes of the words -----

  /** Word i of frame f, as far as there is memory. */
  function WordAt(mem: seq<nat>, f: nat, i: nat): nat {
    if Word(f, i) < |mem| then mem[Word(f, i)] else 0
  }

  /** The four words the processor reads on its way to an address from the root table in frame f. */
  function WordsOf(mem: seq<nat>, f: nat, va: nat): (nat, nat, nat, nat) {
    var a := WordAt(mem, f, Pml4Index(va));
    var b := WordAt(mem, a / 4096, PdpIndex(va));
    var c := WordAt(mem, b / 4096, PdIndex(va));
    (a, b, c, WordAt(mem, c / 4096, PtIndex(va)))
  }

  /** A program in user mode can write to an address: all four words have their lowest three bits set. */
  predicate UserWrites(mem: seq<nat>, f: nat, va: nat) {
    var w := WordsOf(mem, f, va);
    w.0 % 8 == 7 && w.1 % 8 == 7 && w.2 % 8 == 7 && w.3 % 8 == 7
  }

  /** In a sound tree the words on the way to a table never stand in the way: the last-level entry alone
      decides whether the user can write, and it is the word the processor ends at. */
  lemma LastWordDecides(mem: seq<nat>, tables: Tables, n: nat, va: nat)
    requires TreeOk(mem, tables, n) && va < USER_HALF
    ensures UserWrites(mem, tables[Root], va) <==> Entry(mem, tables, va) % 8 == 7
    ensures LeafPath(va) in tables ==>
              var w := WordsOf(mem, tables[Root], va);
              w.0 % 8 == 7 && w.1 % 8 == 7 && w.2 % 8 == 7 && w.3 == Entry(mem, tables, va)
  {
    hide TreeOk;
    hide LeafPath;
    hide Entry;
    hide HasFlag;
    hide Pml4Index;
    hide PdpIndex;
    hide PdIndex;
    hide PtIndex;
    var a := Child(Root, Pml4Index(va));
    var b := Child(a, PdpIndex(va));
    var c := Child(b, PdIndex(va));
    Walk(va, a, b, c, {});
    RootIsThere(mem, tables, n);
    Parents(mem, tables, n, a, b, c);
    LeafEntry(mem, tables, n, va);
    InnerEntry(mem, tables, n, Root, Pml4Index(va));
    if a in tables {
      InnerEntry(mem, tables, n, a, PdpIndex(va));
    }
    if b in tables {
      InnerEntry(mem, tables, n, b, PdIndex(va));
    }
  }

  lemma RootIsThere(mem: seq<nat>, tables: Tables, n: nat)
    requires TreeOk(mem, tables, n)
    ensures Root in tables && 0 < tables[Root] < n
  {
  }

  /** The tables on the way to an address. */
  function PathTables(va: nat): set<Path> {
    var a := Child(Root, Pml4Index(va));
    var b := Child(a, PdpIndex(va));
    {a, b, Child(b, PdIndex(va))}
  }

  /** How many of the needed tables do not exist yet. */
  ghost function Missing(need: set<Path>, keys: set<Path>): nat {
    |need - keys|
  }

  /** The three steps of a walk, and how many of their tables are missing. */
  lemma Walk(va: nat, a: Path, b: Path, c: Path, keys: set<Path>)
    requires va < USER_HALF
    requires a == Child(Root, Pml4Index(va)) && b == Child(a, PdpIndex(va)) && c == Child(b, PdIndex(va))
    ensures c == LeafPath(va) && PathTables(va) == {a} + {b} + {c}
    ensures Depth(Root) == 0 && Depth(a) == 1 && Depth(b) == 2 && a != b && b != c && a != c
    ensures !KernelSlot(Root, Pml4Index(va)) && !KernelSlot(a, PdpIndex(va)) && !KernelSlot(b, PdIndex(va))
    ensures Pml4Index(va) < ENTRIES && PdpIndex(va) < ENTRIES && PdIndex(va) < ENTRIES && PtIndex(va) < ENTRIES
    ensures Missing(PathTables(va), keys) ==
            (if a in keys then 0 else 1) + (if b in keys then 0 else 1) + (if c in keys then 0 else 1)
  {
    assert Depth(a) == 1 && Depth(b) == 2 && Depth(c) == 3;
    SameEntrySamePage(va, va);
    ThreeMissing(a, b, c, keys);
    assert PathTables(va) == {a} + {b} + {c};
  }

  lemma ThreeMissing(a: Path, b: Path, c: Path, keys: set<Path>)
    requires a != b && b != c && a != c
    ensures Missing({a} + {b} + {c}, keys) ==
            (if a in keys then 0 else 1) + (if b in keys then 0 else 1) + (if c in keys then 0 else 1)
  {
    hide Missing;
    OneMore({}, a, keys);
    OneMore({a}, b, keys);
    OneMore({a} + {b}, c, keys);
    assert {a} == {} + {a};
  }

  lemma OneMore(s: set<Path>, c: Path, keys: set<Path>)
    requires c !in s
    ensures Missing(s + {c}, keys) == Missing(s, keys) + if c in keys then 0 else 1
    ensures Missing({}, keys) == 0
  {
    assert {} - keys == {};
    if c in keys {
      assert (s + {c}) - keys == s - keys;
    } else {
      assert (s + {c}) - keys == (s - keys) + {c};
    }
  }

  lemma Parents(mem: seq<nat>, tables: Tables, n: nat, a: Path, b: Path, c: Path)
    requires TreeOk(mem, tables, n) && b.Child? && c.Child? && b.parent == a && c.parent == b
    ensures (c in tables ==> b in tables) && (b in tables ==> a in tables)
  {
    assert Child(a, b.index) == b && Child(b, c.index) == c;
  }

  /** Zeroing frames that hold no table keeps the tree and every mapping. */
  lemma OtherFramesZeroed(mem: seq<nat>, mem': seq<nat>, tables: Tables, n: nat, f: nat, count: nat)
    requires TreeOk(mem, tables, n) && |mem'| == |mem|
    requires forall p | p in tables :: !(f <= tables[p] < f + count)
    requires forall w: nat | w < |mem| :: mem'[w] == if f * 512 <= w < (f + count) * 512 then 0 else mem[w]
    ensures TreeOk(mem', tables, n)
    ensures forall va: nat :: Entry(mem', tables, va) == Entry(mem, tables, va)
  {
    forall p, i: nat | p in tables && Depth(p) < 3 && i < ENTRIES ensures EntryOk(mem', tables, p, i) {
      assert EntryOk(mem, tables, p, i);
    }
  }
}
