/** Archives as block devices, the tree of nodes built from one, and that it is the tree of what was
    written. */
module TarArchive {
  import opened TarFormat

  type Device = seq<Text>

  /** What the tree keeps for a path: a size, and for anything but a directory the block of its header. */
  datatype Node = Node(size: nat, isFile: bool, block: nat)

  /** The nodes by path; a node's children are those one component longer. */
  type Tree = map<Path, Node>

  const BARE: Node := Node(0, false, 0)

  const EMPTY: Tree := map[[] := BARE]

  /** The fields of a header block: a name, a size, and the type that marks directories. */
  function NameIn(b: Text): Text {
    if |b| == BLOCK_SIZE then CString(b[0..100]) else []
  }

  function EntrySize(b: Text): nat {
    if |b| == BLOCK_SIZE then Number(CString(b[124..136])) else 0
  }

  predicate DirectoryIn(b: Text) {
    |b| == BLOCK_SIZE && b[156] == DIRECTORY
  }

  predicate ZeroBlock(b: Text) {
    forall i | 0 <= i < |b| :: b[i] == 0
  }

  /** The blocks a file of some size occupies after its header. */
  function Blocks(size: nat): (n: nat)
    ensures size <= 512 * n < size + 512
  {
    if size % BLOCK_SIZE != 0 then size / BLOCK_SIZE + 1 else size / BLOCK_SIZE
  }

  /** The tree with nodes for all components of a path below a node. */
  function Grown(tree: Tree, at: Path, path: Path): Tree
    decreases |path|
  {
    if path == [] then tree
    else
      var next := at + [path[0]];
      Grown(if next in tree then tree else tree[next := BARE], next, path[1..])
  }

  /** The tree after the entry of one header was put in. */
  function Placed(tree: Tree, path: Path, size: nat, directory: bool, offset: nat): Tree {
    var t := Grown(tree, [], path);
    var n := if path in t then t[path] else BARE;
    t[path := if directory then n.(size := size) else Node(size, true, offset)]
  }

  /** A header whose fields end in NUL and whose name has a component. */
  predicate Readable(b: Text) {
    |b| == BLOCK_SIZE && OctalField(CString(b[124..136])) && Components(NameIn(b)) != []
  }

  /** Reading can go on to the end from a block on: every header met is readable. */
  predicate Sound(device: Device, offset: nat, zeroSeen: bool)
    decreases |device| - offset
  {
    if offset >= |device| then true
    else if ZeroBlock(device[offset]) then zeroSeen || Sound(device, offset + 1, true)
    else Readable(device[offset]) && Sound(device, offset + 1 + Blocks(EntrySize(device[offset])), false)
  }

  /** The tree the blocks from offset on add up to. Two zero blocks in a row end the archive. */
  function Parsed(device: Device, offset: nat, zeroSeen: bool, tree: Tree): Tree
    decreases |device| - offset
  {
    if offset >= |device| then tree
    else
      var b := device[offset];
      if ZeroBlock(b) then (if zeroSeen then tree else Parsed(device, offset + 1, true, tree))
      else Parsed(device, offset + 1 + Blocks(EntrySize(b)),
          false, Placed(tree, Components(NameIn(b)), EntrySize(b), DirectoryIn(b), offset))
  }

  // ----- Writing -----

  /** An entry may have a single zero block in front of its header. */
  datatype Entry = Entry(path: Path, trailing: bool, directory: bool, content: Text, gap: bool)

  /** The block after the first k entries. */
  function End(es: seq<Entry>, k: nat): nat
    requires k <= |es|
    decreases k, 0
  {
    if k == 0 then 0 else Start(es, k - 1) + 1 + Blocks(|es[k - 1].content|)
  }

  /** The block of the k-th entry's header. */
  function Start(es: seq<Entry>, k: nat): nat
    requires k < |es|
    decreases k, 1
  {
    End(es, k) + if es[k].gap then 1 else 0
  }

  predicate Writable(e: Entry) {
    && e.path != [] && (forall c | c in e.path :: Normal(c)) && |Name(e.path, e.trailing)| < 100
    && |e.content| < 0x4000_0000
  }

  /** Block b is a ustar header for the entry: name, size and type are where the format has them. The type of a
      directory is '5', which is 53. */
  predicate IsHeader(b: Text, e: Entry) {
    && |b| == 512 && CString(b[0..100]) == Name(e.path, e.trailing)
    && CString(b[124..136]) == OctalDigits(|e.content|, 11) && (b[156] == 53 <==> e.directory)
  }

  /** Byte i of what follows the header at a block. */
  predicate ByteIs(device: Device, start: nat, i: nat, b: Byte) {
    start + 1 + i / 512 < |device| && |device[start + 1 + i / 512]| == 512
    && device[start + 1 + i / 512][i % 512] == b
  }

  /** The entries' headers and contents follow each other from the first block on, some after a single zero block. Then
      the device ends, at once or after a zero block, or there are two zero blocks. */
  predicate Written(device: Device, es: seq<Entry>) {
    && (forall k: nat | k < |es| :: Writable(es[k]) && Start(es, k) < |device| && IsHeader(device[Start(es, k)], es[k]))
    && (forall k: nat | k < |es| && es[k].gap :: ZeroBlock(device[Start(es, k) - 1]))
    && (forall k: nat, i: nat | k < |es| && i < |es[k].content| :: ByteIs(device, Start(es, k), i, es[k].content[i]))
    && End(es, |es|) <= |device|
    && (End(es, |es|) < |device| ==> ZeroBlock(device[End(es, |es|)]))
    && (End(es, |es|) + 1 < |device| ==> ZeroBlock(device[End(es, |es|) + 1]))
  }

  /** The tree of the first k entries, put in one after another. */
  function TreeOf(es: seq<Entry>, k: nat): Tree
    requires k <= |es|
  {
    if k == 0 then EMPTY
    else Placed(TreeOf(es, k - 1), es[k - 1].path, |es[k - 1].content|, es[k - 1].directory, Start(es, k - 1))
  }

  /** A header's fields are read back as written. */
  lemma HeaderReadsBack(b: Text, e: Entry)
    requires Writable(e) && IsHeader(b, e)
    ensures |b| == BLOCK_SIZE && Readable(b) && !ZeroBlock(b) && Components(NameIn(b)) == e.path
            && EntrySize(b) == |e.content|
  {
    hide Components;
    hide Number;
    hide OctalDigits;
    ComponentsOfName(e.path, e.trailing);
    NumberReadsBack(|e.content|);
    OctalDigitsFit(|e.content|, 11);
    if ZeroBlock(b) {
      assert b[0..100][0] == b[0];
      NoName(b[0..100]);
    }
  }

  lemma NoName(field: Text)
    requires field != [] && field[0] == 0
    ensures Components(CString(field)) == []
  {
  }

  /** From an entry on, reading adds up to the tree of all entries. */
  lemma {:induction false} ReadsEntries(device: Device, es: seq<Entry>, k: nat)
    requires Written(device, es) && k <= |es|
    ensures Sound(device, End(es, k), false) && Parsed(device, End(es, k), false, TreeOf(es, k)) == TreeOf(es, |es|)
    decreases |es| - k
  {
    hide Readable;
    hide Placed;
    hide Written;
    hide ZeroBlock;
    hide Components;
    hide NameIn;
    hide EntrySize;
    hide Writable;
    hide IsHeader;
    if k < |es| {
      EntryAt(device, es, k);
      HeaderReadsBack(device[Start(es, k)], es[k]);
      ReadsEntries(device, es, k + 1);
      ReadsHeader(device, Start(es, k), es[k].gap, TreeOf(es, k));
    } else {
      EndAt(device, es);
    }
  }

  /** A header is read in the same way after a zero block. */
  lemma ReadsHeader(device: Device, offset: nat, zeroSeen: bool, tree: Tree)
    requires offset < |device| && !ZeroBlock(device[offset]) && Readable(device[offset])
    ensures var b := device[offset];
            var next := offset + 1 + Blocks(EntrySize(b));
            && Parsed(device, offset, zeroSeen, tree) ==
               Parsed(device, next, false, Placed(tree, Components(NameIn(b)), EntrySize(b), DirectoryIn(b), offset))
            && Sound(device, offset, zeroSeen) == Sound(device, next, false)
  {
  }

  lemma EntryAt(device: Device, es: seq<Entry>, k: nat)
    requires Written(device, es) && k < |es|
    ensures Writable(es[k]) && Start(es, k) < |device| && |device[Start(es, k)]| == BLOCK_SIZE
            && IsHeader(device[Start(es, k)], es[k])
    ensures DirectoryIn(device[Start(es, k)]) == es[k].directory
    ensures es[k].gap ==> ZeroBlock(device[Start(es, k) - 1])
  {
  }

  lemma EndAt(device: Device, es: seq<Entry>)
    requires Written(device, es)
    ensures End(es, |es|) <= |device|
    ensures End(es, |es|) < |device| ==> ZeroBlock(device[End(es, |es|)])
    ensures End(es, |es|) + 1 < |device| ==> ZeroBlock(device[End(es, |es|) + 1])
  {
  }

  // ----- What the tree holds -----

  function NodeAt(t: Tree, p: Path): Node {
    if p in t then t[p] else BARE
  }

  predicate LeadsTo(p: Path, q: Path) {
    p <= q
  }

  /** Growing adds just the missing nodes along a path, and changes none. */
  lemma {:induction false} GrownNodes(tree: Tree, at: Path, path: Path)
    requires at in tree
    ensures var t := Grown(tree, at, path);
            && at + path in t && (forall p | p in tree :: p in t && t[p] == tree[p])
            && (forall p :: p in t ==> p in tree || (at <= p <= at + path && t[p] == BARE))
            && (forall q | LeadsTo(at, q) && LeadsTo(q, at + path) :: q in t)
    decreases |path|
  {
    if path == [] {
      assert at + path == at;
      assert forall q | LeadsTo(at, q) && LeadsTo(q, at + path) :: q == at;
    } else {
      var next, rest := at + [path[0]], path[1..];
      var grown := if next in tree then tree else tree[next := BARE];
      GrownNodes(grown, next, rest);
      assert next + rest == at + path;
      forall q | LeadsTo(at, q) && LeadsTo(q, at + path) ensures q in Grown(tree, at, path) {
        if q != at { assert LeadsTo(next, q); }
      }
      assert at <= next;
    }
  }

  /** Path p is one of the first k entries' or leads to one. */
  ghost predicate Leads(es: seq<Entry>, k: nat, p: Path) {
    exists j: nat :: j < k && j < |es| && LeadsTo(p, es[j].path)
  }

  /** Entry j is the last of the first k with path p, or the last of those that is not a directory. */
  ghost predicate IsLast(es: seq<Entry>, k: nat, p: Path, j: nat) {
    j < k <= |es| && es[j].path == p && forall i: nat | j < i < k :: es[i].path != p
  }

  ghost predicate IsLastFile(es: seq<Entry>, k: nat, p: Path, j: nat) {
    && j < k <= |es| && es[j].path == p && !es[j].directory
    && forall i: nat | j < i < k && es[i].path == p :: es[i].directory
  }

  /** What the node of a path says after the first k entries: the size is that of the last entry with the path, and the
      file is the last entry with the path that is not a directory. A path with no entry, or with directories only, has
      no file. */
  ghost predicate NodeSays(es: seq<Entry>, k: nat, p: Path, n: Node) {
    && (forall j: nat | IsLast(es, k, p, j) :: n.size == |es[j].content|)
    && (forall j: nat | IsLastFile(es, k, p, j) :: n.isFile && n.block == Start(es, j))
    && ((forall j: nat | j < k && j < |es| && es[j].path == p :: es[j].directory) ==> !n.isFile && n.block == 0)
    && ((forall j: nat | j < k && j < |es| :: es[j].path != p) ==> n.size == 0)
  }

  /** The tree has nodes for the paths of the first k entries and the paths that lead to them, and no others. */
  ghost predicate Holds(es: seq<Entry>, k: nat, t: Tree) {
    && (forall p: Path :: p in t <==> p == [] || Leads(es, k, p))
    && (forall p: Path :: NodeSays(es, k, p, NodeAt(t, p)))
  }

  lemma {:induction false} TreeHolds(es: seq<Entry>, k: nat)
    requires k <= |es| && forall j: nat | j < |es| :: es[j].path != []
    ensures Holds(es, k, TreeOf(es, k))
  {
    hide Holds;
    if k == 0 {
      EmptyHolds(es);
    } else {
      TreeHolds(es, k - 1);
      HoldsMore(es, k - 1, k, TreeOf(es, k - 1), TreeOf(es, k));
    }
  }

  lemma EmptyHolds(es: seq<Entry>)
    ensures Holds(es, 0, EMPTY)
  {
  }

  /** What putting in an entry changes. */
  lemma PlacedNodes(was: Tree, e: Entry, start: nat)
    requires [] in was
    ensures var t := Placed(was, e.path, |e.content|, e.directory, start);
            && (forall p: Path :: p in t <==> p in was || LeadsTo(p, e.path))
            && (forall p: Path | p != e.path :: NodeAt(t, p) == NodeAt(was, p))
            && NodeAt(t, e.path) == if e.directory then NodeAt(was, e.path).(size := |e.content|)
                 else Node(|e.content|, true, start)
  {
    GrownNodes(was, [], e.path);
    assert [] + e.path == e.path;
    assert forall q: Path | LeadsTo(q, e.path) :: LeadsTo([], q);
  }

  lemma HoldsMore(es: seq<Entry>, m: nat, k: nat, was: Tree, t: Tree)
    requires m + 1 == k <= |es| && Holds(es, m, was)
    requires t == Placed(was, es[m].path, |es[m].content|, es[m].directory, Start(es, m))
    ensures Holds(es, k, t)
  {
    hide Placed;
    hide NodeSays;
    hide Leads;
    hide Start;
    PlacedNodes(was, es[m], Start(es, m));
    forall p: Path ensures p in t <==> p == [] || Leads(es, k, p) {
      MoreLead(es, m, k, p);
    }
    forall p: Path ensures NodeSays(es, k, p, NodeAt(t, p)) {
      if p != es[m].path {
        SaysElsewhere(es, m, k, p, NodeAt(was, p));
      } else if es[m].directory {
        DirectorySays(es, m, k, NodeAt(was, p));
      } else {
        FileSays(es, m, k);
      }
    }
  }

  lemma SaysElsewhere(es: seq<Entry>, m: nat, k: nat, p: Path, n: Node)
    requires m + 1 == k <= |es| && p != es[m].path && NodeSays(es, m, p, n)
    ensures NodeSays(es, k, p, n)
  {
    hide Start;
    hide IsLast;
    hide IsLastFile;
    forall j: nat
      ensures IsLast(es, k, p, j) ==> IsLast(es, m, p, j)
      ensures IsLastFile(es, k, p, j) ==> IsLastFile(es, m, p, j)
    {
      LastElsewhere(es, m, k, p, j);
    }
  }

  lemma LastElsewhere(es: seq<Entry>, m: nat, k: nat, p: Path, j: nat)
    requires m + 1 == k <= |es| && p != es[m].path
    ensures IsLast(es, k, p, j) ==> IsLast(es, m, p, j)
    ensures IsLastFile(es, k, p, j) ==> IsLastFile(es, m, p, j)
  {
  }

  lemma DirectorySays(es: seq<Entry>, m: nat, k: nat, n: Node)
    requires m + 1 == k <= |es| && NodeSays(es, m, es[m].path, n) && es[m].directory
    ensures NodeSays(es, k, es[m].path, n.(size := |es[m].content|))
  {
    hide Start;
    hide IsLast;
    hide IsLastFile;
    forall j: nat
      ensures IsLast(es, k, es[m].path, j) ==> j == m
      ensures IsLastFile(es, k, es[m].path, j) ==> IsLastFile(es, m, es[m].path, j)
    {
      LastHere(es, m, k, j);
    }
    assert m < k;
  }

  lemma FileSays(es: seq<Entry>, m: nat, k: nat)
    requires m + 1 == k <= |es| && !es[m].directory
    ensures NodeSays(es, k, es[m].path, Node(|es[m].content|, true, Start(es, m)))
  {
    hide Start;
    hide IsLast;
    hide IsLastFile;
    forall j: nat ensures IsLast(es, k, es[m].path, j) || IsLastFile(es, k, es[m].path, j) ==> j == m {
      LastHere(es, m, k, j);
    }
    assert m < k;
  }

  /** Which entry is the last, once one more with the path was put in. */
  lemma LastHere(es: seq<Entry>, m: nat, k: nat, j: nat)
    requires m + 1 == k <= |es|
    ensures IsLast(es, k, es[m].path, j) ==> j == m
    ensures IsLastFile(es, k, es[m].path, j) ==>
              if es[m].directory then IsLastFile(es, m, es[m].path, j) else j == m
  {
    if j < m { assert j < m < k; }
  }

  lemma MoreLead(es: seq<Entry>, m: nat, k: nat, p: Path)
    requires m + 1 == k <= |es|
    ensures Leads(es, k, p) <==> Leads(es, m, p) || LeadsTo(p, es[m].path)
  {
    if Leads(es, m, p) {
      var j: nat :| j < m && j < |es| && LeadsTo(p, es[j].path);
      assert j < k;
    }
    if LeadsTo(p, es[m].path) { assert m < k; }
  }

  /** Whatever the order of the entries and however often a path occurs, reading what was written gives a node to each
      entry's path and each directory on the way to one, with the size and the file written last. */
  lemma ArchiveRoundTrip(device: Device, es: seq<Entry>)
    requires Written(device, es)
    ensures Sound(device, 0, false) && Holds(es, |es|, Parsed(device, 0, false, EMPTY))
  {
    ReadsEntries(device, es, 0);
    TreeHolds(es, |es|);
  }

  /** What is a file goes by byte 156 of the last header with the path: '0' and NUL make a file at that block, and '5'
      makes none. */
  lemma TypeDecides(device: Device, es: seq<Entry>, k: nat)
    requires Written(device, es) && k < |es| && IsLast(es, |es|, es[k].path, k)
    ensures Start(es, k) < |device| && |device[Start(es, k)]| == 512 && es[k].path in Parsed(device, 0, false, EMPTY)
    ensures var n, b := Parsed(device, 0, false, EMPTY)[es[k].path], device[Start(es, k)];
            && (b[156] == 48 || b[156] == 0 ==> n.isFile && n.block == Start(es, k))
            && (b[156] == 53 && (forall j: nat | j < k :: es[j].path != es[k].path) ==> !n.isFile && n.block == 0)
  {
    hide *;
    ArchiveRoundTrip(device, es);
    TypeField(device, es, k);
    HoldsAt(es, k, Parsed(device, 0, false, EMPTY));
  }

  lemma TypeField(device: Device, es: seq<Entry>, k: nat)
    requires Written(device, es) && k < |es| && IsLast(es, |es|, es[k].path, k)
    ensures k < |es| && Start(es, k) < |device| && |device[Start(es, k)]| == 512
    ensures device[Start(es, k)][156] == 53 <==> es[k].directory
  {
  }

  /** What the tree says of the last entry of a path. */
  lemma HoldsAt(es: seq<Entry>, k: nat, t: Tree)
    requires Holds(es, |es|, t) && k < |es| && IsLast(es, |es|, es[k].path, k)
    ensures es[k].path in t && t[es[k].path].size == |es[k].content|
    ensures var n := t[es[k].path];
            && (!es[k].directory ==> n.isFile && n.block == Start(es, k))
            && (es[k].directory && (forall j: nat | j < k :: es[j].path != es[k].path) ==> !n.isFile && n.block == 0)
  {
    hide Start;
    assert LeadsTo(es[k].path, es[k].path);
    assert NodeSays(es, |es|, es[k].path, NodeAt(t, es[k].path));
    assert !es[k].directory ==> IsLastFile(es, |es|, es[k].path, k);
  }
}
