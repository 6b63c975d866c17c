/** The tar file system: building the tree of nodes from a device, and reading files. */
module TarFileSystem {
  import opened Arithmetic
  import opened TarArchive
  import opened TarFormat

  /** The value an unsigned int keeps of a number. */
  function Wrapped(v: int): nat {
    v % 0x1_0000_0000
  }

  lemma WrapAdd(v: int, a: int)
    ensures Wrapped(Wrapped(v) + a) == Wrapped(v + a)
  {
  }

  lemma NoDigits()
    ensures OctalValue([]) == 0 && Pow8(0) == 1 && Wrapped(0) == 0
  {
  }

  lemma Pow8Step(n: nat)
    requires n > 0
    ensures Pow8(n) == 8 * Pow8(n - 1)
  {
  }

  lemma ValueStep(data: Text, k: nat)
    requires k < |data|
    ensures OctalValue(data[k..]) == (data[k] - ZERO) * Pow8(|data| - k - 1) + OctalValue(data[k + 1..])
  {
    assert data[k..] == [data[k]] + data[k + 1..];
    OctalFront(data[k], data[k + 1..]);
  }

  /** One digit more, from the back. */
  lemma DigitStep(data: Text, k: nat, value: nat, factor: nat)
    requires k < |data| && value == Wrapped(OctalValue(data[k + 1..])) && factor == Pow8(|data| - k - 1)
    ensures Wrapped(value + factor * (data[k] - ZERO)) == Wrapped(OctalValue(data[k..]))
  {
    hide Wrapped;
    hide OctalValue;
    ValueStep(data, k);
    var d := data[k] - ZERO;
    assert factor * d == d * factor;
    WrapAdd(OctalValue(data[k + 1..]), factor * d);
  }

  lemma NumberIs(data: Text, value: nat)
    requires if data == [] then value == 0 else value == Wrapped(OctalValue(data[1..]))
    ensures value == Number(data)
  {
  }

  lemma FirstStep(path: Text, component: Text, rest: Text)
    requires rest != [] && rest[0] != SLASH && path == component + rest && First(path) == component + First(rest)
    ensures path == component + [rest[0]] + rest[1..] && First(path) == component + [rest[0]] + First(rest[1..])
  {
    FirstOf(rest);
    hide First;
    MoveOver(component, rest[0], rest[1..]);
    MoveOver(component, rest[0], First(rest[1..]));
    assert rest == [rest[0]] + rest[1..];
  }

  lemma FirstOf(rest: Text)
    requires rest != [] && rest[0] != SLASH
    ensures First(rest) == [rest[0]] + First(rest[1..])
  {
  }

  lemma MoveOver(a: Text, b: Byte, c: Text)
    ensures a + ([b] + c) == a + [b] + c
  {
  }

  lemma FirstDone(path: Text, component: Text, rest: Text)
    requires path == component + rest && First(path) == component + First(rest) && (rest == [] || rest[0] == SLASH)
    ensures component == First(path) && AfterFirst(path) == if rest == [] then [] else rest[1..]
  {
    assert First(rest) == [];
  }

  lemma GrownStep(tree: Tree, at: Path, todo: Path)
    requires todo != []
    ensures var next := at + [todo[0]];
            Grown(tree, at, todo) == Grown(if next in tree then tree
                else tree[next := BARE], next, todo[1..])
  {
  }

  lemma GrownEnds(tree: Tree, at: Path)
    ensures Grown(tree, at, []) == tree
  {
  }

  lemma ComponentsStep(name: Text)
    ensures Components(name) == if First(name) == [] then [] else [First(name)] + Components(AfterFirst(name))
  {
  }

  /** Reads an octal number from its last digit up to its second. */
  method Octal2ui(data: Text) returns (value: nat)
    requires OctalField(data)
    ensures value == Number(data)
  {
    hide OctalValue;
    hide Pow8;
    hide Wrapped;
    hide OctalField;
    hide Number;
    NoDigits();
    value := 0;
    var len := |data|;
    assert data[len..] == [];
    var i, factor := 1, 1;
    while i < len
      invariant 1 <= i && (len > 0 ==> i <= len) && factor == Pow8(i - 1)
      invariant if len == 0 then value == 0 else value == Wrapped(OctalValue(data[len - i + 1..]))
    {
      var ch := data[len - i];
      DigitStep(data, len - i, value, factor);
      value := Wrapped(value + factor * (ch - ZERO));
      Pow8Step(i);
      factor := factor * 8;
      i := i + 1;
    }
    NumberIs(data, value);
  }

  /** Takes the next component off the front of a name. */
  method NextComponent(path: Text) returns (component: Text, rest: Text)
    ensures component == First(path) && rest == AfterFirst(path)
  {
    hide First;
    hide AfterFirst;
    component := [];
    rest := path;
    while rest != [] && rest[0] != SLASH
      invariant path == component + rest && First(path) == component + First(rest)
    {
      FirstStep(path, component, rest);
      component, rest := component + [rest[0]], rest[1..];
    }
    FirstDone(path, component, rest);
    if rest != [] {
      rest := rest[1..];
    }
  }

  class TarFS {
    const device: Device
    var tree: Tree

    constructor (device: Device)
      ensures this.device == device && tree == EMPTY
    {
      this.device, tree := device, EMPTY;
    }

    /** Goes down the components of a name, adding the nodes that are missing; gives the last. */
    method Descend(name: Text) returns (at: Path)
      requires [] in tree
      modifies this`tree
      ensures at == Components(name) && tree == Grown(old(tree), [], at) && at in tree && [] in tree
    {
      hide Grown;
      hide Components;
      hide First;
      hide AfterFirst;
      GrownNodes(tree, [], Components(name));
      assert [] + Components(name) == Components(name);
      at := [];
      var path := name;
      var component;
      ghost var todo := Components(name);
      ComponentsStep(path);
      component, path := NextComponent(path);
      while component != []
        invariant at + todo == Components(name)
                  && todo == (if component == [] then [] else [component] + Components(path))
        invariant Grown(tree, at, todo) == Grown(old(tree), [], Components(name))
        decreases |todo|
      {
        var next := at + [component];
        GrownStep(tree, at, todo);
        assert at + todo == next + todo[1..];
        if next !in tree {
          tree := tree[next := BARE];
        }
        at := next;
        todo := todo[1..];
        ComponentsStep(path);
        component, path := NextComponent(path);
      }
      assert at + todo == at;
      GrownEnds(tree, at);
    }

    /** Builds the tree, one header after another, up to two zero blocks or the end of the device. */
    method BuildTree()
      requires Sound(device, 0, false) && tree == EMPTY
      modifies this`tree
      ensures tree == Parsed(device, 0, false, EMPTY)
    {
      hide Grown;
      hide Components;
      hide Number;
      hide CString;
      hide OctalField;
      hide ZeroBlock;
      var offset: nat := 0;
      var zeroSeen := false;
      while offset < |device|
        invariant [] in tree && Sound(device, offset, zeroSeen)
                  && Parsed(device, offset, zeroSeen, tree) == Parsed(device, 0, false, EMPTY)
        decreases |device| - offset
      {
        var head := device[offset];
        if ZeroBlock(head) {
          if zeroSeen {
            break;
          }
          zeroSeen := true;
          offset := offset + 1;
          continue;
        }
        zeroSeen := false;
        var size := Octal2ui(CString(head[124..136]));
        var fileBlocks := if size % BLOCK_SIZE != 0 then size / BLOCK_SIZE + 1 else size / BLOCK_SIZE;
        ghost var was := tree;
        var last := Descend(NameIn(head));
        tree := tree[last := tree[last].(size := size)];
        if head[156] != DIRECTORY {
          tree := tree[last := tree[last].(isFile := true, block := offset)];
        }
        assert tree == Placed(was, last, size, DirectoryIn(head), offset);
        offset := offset + 1 + fileBlocks;
      }
    }
  }

  // ----- Reading files -----

  /** The bytes of some blocks, one after another. */
  function Flat(blocks: seq<Text>): Text {
    if blocks == [] then [] else blocks[0] + Flat(blocks[1..])
  }

  lemma {:induction false} FlatAt(blocks: seq<Text>)
    requires forall i | 0 <= i < |blocks| :: |blocks[i]| == BLOCK_SIZE
    ensures |Flat(blocks)| == BLOCK_SIZE * |blocks|
    ensures forall j: nat | j < BLOCK_SIZE * |blocks| :: Flat(blocks)[j] == blocks[j / BLOCK_SIZE][j % BLOCK_SIZE]
  {
    if blocks != [] {
      FlatAt(blocks[1..]);
      forall j: nat | j < BLOCK_SIZE * |blocks| ensures Flat(blocks)[j] == blocks[j / BLOCK_SIZE][j % BLOCK_SIZE] {
        if j >= BLOCK_SIZE {
          var k: nat := j - BLOCK_SIZE;
          assert k / BLOCK_SIZE == j / BLOCK_SIZE - 1 && k % BLOCK_SIZE == j % BLOCK_SIZE;
          assert Flat(blocks)[j] == Flat(blocks[1..])[k];
        }
      }
    }
  }

  /** The device holds the content after the header block. */
  ghost predicate Stored(device: Device, start: nat, content: Text) {
    && start + 1 + Blocks(|content|) <= |device| && (forall i | 0 <= i < |device| :: |device[i]| == BLOCK_SIZE)
    && EntrySize(device[start]) == |content| && OctalField(CString(device[start][124..136]))
    && forall i: nat | i < |content| :: ByteIs(device, start, i, content[i])
  }

  /** The file's last block is not the device's last, or not all of it is the file's. */
  predicate Roomy(device: Device, start: nat, size: nat) {
    start + 1 + Blocks(size) < |device| || size % BLOCK_SIZE != 0
  }

  /** Reading n bytes from an offset does not go on past the device's last block. */
  predicate EndsInside(device: Device, start: nat, off: nat, n: nat) {
    n == 0 || (off + n) % BLOCK_SIZE != 0 || start + 1 + (off + n) / BLOCK_SIZE < |device|
  }

  lemma {:induction false} EndsAscend(es: seq<Entry>, j: nat, k: nat)
    requires j <= k <= |es|
    ensures End(es, j) <= End(es, k)
  {
    if j < k { EndsAscend(es, j, k - 1); }
  }

  /** Every entry of an archive can be opened at the header block its node has, and read to its end unless its last
      block is full and the device's last. */
  lemma EntriesAreStored(device: Device, es: seq<Entry>, k: nat)
    requires Written(device, es) && k < |es| && forall i | 0 <= i < |device| :: |device[i]| == BLOCK_SIZE
    ensures Stored(device, Start(es, k), es[k].content)
    ensures k + 1 < |es| || End(es, |es|) < |device| ==> Roomy(device, Start(es, k), |es[k].content|)
  {
    hide Components;
    hide Number;
    hide ZeroBlock;
    hide CString;
    hide OctalField;
    hide Writable;
    hide IsHeader;
    hide Readable;
    hide EntrySize;
    hide Written;
    hide ByteIs;
    hide Stored;
    hide Start;
    hide End;
    var start := Start(es, k);
    EntryAt(device, es, k);
    HeaderReadsBack(device[start], es[k]);
    SizeField(device[start]);
    RoomAfter(device, es, k);
    ContentAt(device, es, k);
    MakeStored(device, start, es[k].content);
  }

  lemma RoomAfter(device: Device, es: seq<Entry>, k: nat)
    requires Written(device, es) && k < |es|
    ensures Start(es, k) + 1 + Blocks(|es[k].content|) <= |device|
    ensures k + 1 < |es| || End(es, |es|) < |device| ==> Start(es, k) + 1 + Blocks(|es[k].content|) < |device|
  {
    hide Written;
    EndsAscend(es, k + 1, |es|);
    EndAt(device, es);
    if k + 1 < |es| { EndsAscend(es, k + 2, |es|); }
  }

  lemma MakeStored(device: Device, start: nat, content: Text)
    requires start + 1 + Blocks(|content|) <= |device| && forall i | 0 <= i < |device| :: |device[i]| == BLOCK_SIZE
    requires EntrySize(device[start]) == |content| && OctalField(CString(device[start][124..136]))
    requires forall i: nat | i < |content| :: ByteIs(device, start, i, content[i])
    ensures Stored(device, start, content)
  {
  }

  lemma SizeField(b: Text)
    requires |b| == BLOCK_SIZE && Readable(b)
    ensures OctalField(CString(b[124..136]))
  {
  }

  lemma ContentAt(device: Device, es: seq<Entry>, k: nat)
    requires Written(device, es) && k < |es|
    ensures forall i: nat | i < |es[k].content| :: ByteIs(device, Start(es, k), i, es[k].content[i])
  {
  }

  /** What a read gives: the bytes from an offset on, no more than asked for and no more than there are. */
  function Part(content: Text, off: nat, size: nat): Text {
    if off >= |content| then [] else if off + size > |content| then content[off..] else content[off..off + size]
  }

  lemma SizeBound(device: Device, start: nat, content: Text)
    requires Stored(device, start, content)
    ensures |content| < 0x4000_0000
  {
    hide CString;
    hide OctalField;
    hide Number;
    NumberBound(CString(device[start][124..136]));
  }

  /** A read that ends on a block boundary reads one block more than its bytes lie in; others read
      just those. */
  lemma OneBlockMore(off: nat, n: nat)
    ensures Blocks(n + 1 + off % BLOCK_SIZE) == Blocks(n + off % BLOCK_SIZE) + if (off + n) % BLOCK_SIZE == 0 then 1
              else 0
  {
    SameByte(off, n);
    var a := n + off % BLOCK_SIZE;
    var q, r := a / BLOCK_SIZE, a % BLOCK_SIZE;
    if r + 1 < BLOCK_SIZE { ModUnique(a + 1, BLOCK_SIZE, q, r + 1); } else { ModUnique(a + 1, BLOCK_SIZE, q + 1, 0); }
  }

  lemma BlocksFrom(off: nat, n: nat)
    ensures off / BLOCK_SIZE + Blocks(n + off % BLOCK_SIZE) == Blocks(off + n)
  {
    SameByte(off, n);
  }

  /** The blocks that a read of bytes on the device reads are all on it exactly if the read does not end on a block
      boundary that is the device's end. */
  lemma WithinWhen(device: Device, start: nat, off: nat, n: nat)
    requires n > 0 && start + 1 + Blocks(off + n) <= |device|
    ensures start + 1 + off / BLOCK_SIZE + Blocks(n + 1 + off % BLOCK_SIZE) <= |device| <==>
              EndsInside(device, start, off, n)
  {
    OneBlockMore(off, n);
    BlocksFrom(off, n);
  }

  /** All reads of a file stay on the device exactly if its last block is not the device's last, or is not full. */
  lemma AllWithinWhen(device: Device, start: nat, size: nat)
    requires start + 1 + Blocks(size) <= |device| && size > 0
    ensures Roomy(device, start, size) <==>
              forall off: nat, n: nat | off + n <= size :: EndsInside(device, start, off, n)
  {
    if !Roomy(device, start, size) { assert !EndsInside(device, start, 0, size); }
    forall off: nat, n: nat | off + n <= size && Roomy(device, start, size) ensures EndsInside(device, start, off, n) {
      RoomyEnds(device, start, size, off, n);
    }
  }

  /** A file of one full block, the device's last: reading all of it reads block 2 of a device of two blocks. */
  lemma FullLastBlock(device: Device)
    requires |device| == 2
    ensures !EndsInside(device, 0, 0, BLOCK_SIZE)
            && 0 + 1 + 0 / BLOCK_SIZE + Blocks(BLOCK_SIZE + 1 + 0 % BLOCK_SIZE) > |device|
  {
    WithinWhen(device, 0, 0, BLOCK_SIZE);
  }

  lemma RoomyEnds(device: Device, start: nat, size: nat, off: nat, n: nat)
    requires Roomy(device, start, size) && start + 1 + Blocks(size) <= |device| && off + n <= size
    ensures EndsInside(device, start, off, n)
  {
    if n > 0 && (off + n) % BLOCK_SIZE == 0 && off + n < size {
      var q := (off + n) / BLOCK_SIZE;
      assert off + n == BLOCK_SIZE * q && BLOCK_SIZE * Blocks(size) >= size;
    }
  }

  /** Beyond a word, from offset 1 of a file of ten bytes all 2^64 - 1 bytes asked for are to be read. */
  lemma ClippedTooLate()
    ensures Clipped(0xFFFF_FFFF_FFFF_FFFF, 1, 10) == 0xFFFF_FFFF_FFFF_FFFF
  {
    ClippedRightWhen(0xFFFF_FFFF_FFFF_FFFF, 1, 10);
  }

  /** What to read, by the number of bytes computed. */
  lemma PartIs(content: Text, off: nat, size: nat)
    requires off + size < 0x1_0000_0000_0000_0000
    ensures var n := Clipped(size, off, |content|);
            if off >= |content| || n == 0 then Part(content, off, size) == []
            else 0 < n && off + n <= |content| && Part(content, off, size) == content[off..off + n]
    ensures off <= |content| ==> |Part(content, off, size)| == AtMost(size, |content| - off)
  {
    assert (off + size) % 0x1_0000_0000_0000_0000 == off + size;
  }

  /** The blocks read around n bytes from an offset hold them. */
  lemma InDevice(device: Device, start: nat, content: Text, off: nat, n: nat, count: nat)
    requires Stored(device, start, content) && 0 < n && off + n <= |content| && EndsInside(device, start, off, n)
    requires count == Blocks(n + 1 + off % BLOCK_SIZE)
    ensures start + 1 + off / BLOCK_SIZE + count <= |device| && off % BLOCK_SIZE + n <= BLOCK_SIZE * count
  {
    hide EndsInside;
    hide Blocks;
    BlocksMonotone(off + n, |content|);
    WithinWhen(device, start, off, n);
    BlocksHold(n + 1 + off % BLOCK_SIZE);
  }

  lemma BlocksMonotone(a: nat, b: nat)
    requires a <= b
    ensures Blocks(a) <= Blocks(b)
  {
  }

  lemma BlocksHold(a: nat)
    ensures a <= BLOCK_SIZE * Blocks(a)
  {
  }

  /** The number of bytes to read, as it is computed from what is asked for with the wrap-around of a 64-bit word. */
  function Clipped(size: nat, off: nat, fileSize: nat): int {
    var end := (off + size) % 0x1_0000_0000_0000_0000;
    if end > fileSize then size - (end - fileSize) else size
  }

  /** For an offset in the file, the number is right exactly if offset and size together fit a word. */
  lemma ClippedRightWhen(size: nat, off: nat, fileSize: nat)
    requires off < fileSize < 0x1_0000_0000 && size < 0x1_0000_0000_0000_0000
    ensures Clipped(size, off, fileSize) == (if off + size > fileSize then fileSize - off else size) <==>
              off + size < 0x1_0000_0000_0000_0000
  {
  }

  /** The wanted bytes of those blocks are the wanted bytes of the file. */
  lemma BytesRead(device: Device, start: nat, content: Text, off: nat, n: nat, count: nat)
    requires Stored(device, start, content) && off + n <= |content|
    requires start + 1 + off / BLOCK_SIZE + count <= |device| && off % BLOCK_SIZE + n <= BLOCK_SIZE * count
    ensures var from := start + 1 + off / BLOCK_SIZE; var buffer := Flat(device[from..from + count]);
            off % BLOCK_SIZE + n <= |buffer| && buffer[off % BLOCK_SIZE..off % BLOCK_SIZE + n] == content[off..off + n]
  {
    hide Flat;
    hide Stored;
    var first, skip := off / BLOCK_SIZE, off % BLOCK_SIZE;
    var blocks := device[start + 1 + first..start + 1 + first + count];
    BlockSizes(device, start, content, start + 1 + first, count, blocks);
    FlatSize(blocks);
    var buffer := Flat(blocks);
    forall k: nat | skip <= k < skip + n ensures buffer[k] == content[k - skip + off] {
      ByteRead(device, start, content, off, n, count, k);
      FlatByte(blocks, k, k / BLOCK_SIZE, k % BLOCK_SIZE);
    }
    SameSlices(buffer, skip, content, off, n);
  }

  lemma FlatSize(blocks: seq<Text>)
    requires forall i | 0 <= i < |blocks| :: |blocks[i]| == BLOCK_SIZE
    ensures |Flat(blocks)| == BLOCK_SIZE * |blocks|
  {
    FlatAt(blocks);
  }

  lemma FlatByte(blocks: seq<Text>, k: nat, q: nat, r: nat)
    requires forall i | 0 <= i < |blocks| :: |blocks[i]| == BLOCK_SIZE
    requires q == k / BLOCK_SIZE < |blocks| && r == k % BLOCK_SIZE
    ensures k < |Flat(blocks)| && Flat(blocks)[k] == blocks[q][r]
  {
    FlatAt(blocks);
  }

  lemma BlockSizes(device: Device, start: nat, content: Text, from: nat, count: nat, blocks: seq<Text>)
    requires Stored(device, start, content) && from + count <= |device| && blocks == device[from..from + count]
    ensures forall i | 0 <= i < |blocks| :: |blocks[i]| == BLOCK_SIZE
  {
  }

  lemma ByteRead(device: Device, start: nat, content: Text, off: nat, n: nat, count: nat, k: nat)
    requires Stored(device, start, content) && off + n <= |content|
    requires start + 1 + off / BLOCK_SIZE + count <= |device|
    requires off % BLOCK_SIZE <= k < off % BLOCK_SIZE + n <= BLOCK_SIZE * count
    ensures var from := start + 1 + off / BLOCK_SIZE; var blocks := device[from..from + count];
            && k / BLOCK_SIZE < count && k % BLOCK_SIZE < |blocks[k / BLOCK_SIZE]|
            && blocks[k / BLOCK_SIZE][k % BLOCK_SIZE] == content[k - off % BLOCK_SIZE + off]
  {
    var t: nat := k - off % BLOCK_SIZE;
    SameByte(off, t);
    assert ByteIs(device, start, off + t, content[off + t]);
  }

  lemma SameSlices(a: Text, i: nat, b: Text, j: nat, n: nat)
    requires i + n <= |a| && j + n <= |b| && forall k: nat | i <= k < i + n :: a[k] == b[k - i + j]
    ensures a[i..i + n] == b[j..j + n]
  {
  }

  lemma SameByte(off: nat, t: nat)
    ensures (off + t) / BLOCK_SIZE == off / BLOCK_SIZE + (off % BLOCK_SIZE + t) / BLOCK_SIZE
    ensures (off + t) % BLOCK_SIZE == (off % BLOCK_SIZE + t) % BLOCK_SIZE
  {
    var a := off % BLOCK_SIZE + t;
    ModUnique(off + t, BLOCK_SIZE, off / BLOCK_SIZE + a / BLOCK_SIZE, a % BLOCK_SIZE);
  }

  class TarFSFile {
    const device: Device
    const header: Text
    const startBlock: nat
    var pos: nat
    ghost const content: Text

    ghost predicate Valid()
      reads this
    {
      startBlock > 0 && Stored(device, startBlock - 1, content) && header == device[startBlock - 1] && pos <= |content|
    }

    constructor (device: Device, headerBlock: nat, ghost content: Text)
      requires Stored(device, headerBlock, content)
      ensures Valid() && pos == 0 && this.content == content && this.device == device && startBlock == headerBlock + 1
    {
      this.device, header, startBlock, pos := device, device[headerBlock], headerBlock + 1, 0;
      this.content := content;
    }

    method Size() returns (size: nat)
      requires Valid()
      ensures size == |content|
    {
      hide CString;
      hide Number;
      hide OctalField;
      size := Octal2ui(CString(header[124..136]));
    }

    /** Reads from an offset: whole blocks around the bytes asked for, then just those bytes. */
    method PRead(size: nat, off: nat) returns (data: Text)
      requires Valid() && off + size < 0x1_0000_0000_0000_0000
      requires EndsInside(device, startBlock - 1, off, |Part(content, off, size)|)
      ensures data == Part(content, off, size)
    {
      hide Stored;
      hide Blocks;
      hide Flat;
      hide EndsInside;
      hide Part;
      hide Clipped;
      var fileSize := Size();
      var n := Clipped(size, off, fileSize);
      PartIs(content, off, size);
      if off >= fileSize || n == 0 {
        return [];
      }
      var first, skip := off / BLOCK_SIZE, off % BLOCK_SIZE;
      var span := n + 1 + skip;
      var count := Blocks(span);
      InDevice(device, startBlock - 1, content, off, n, count);
      var buffer := Flat(device[startBlock + first..startBlock + first + count]);
      BytesRead(device, startBlock - 1, content, off, n, count);
      data := buffer[skip..skip + n];
    }

    /** Reads on from the current position. */
    method Read(size: nat) returns (data: Text)
      requires Valid() && pos + size < 0x1_0000_0000_0000_0000
      requires EndsInside(device, startBlock - 1, pos, |Part(content, pos, size)|)
      modifies this`pos
      ensures Valid() && pos == old(pos) + |data| && data == content[old(pos)..pos]
      ensures |data| == AtMost(size, |content| - old(pos)) && |data| < 0x4000_0000
    {
      hide Stored;
      hide EndsInside;
      SizeBound(device, startBlock - 1, content);
      PartIs(content, pos, size);
      data := PRead(size, pos);
      pos := pos + |data|;
    }

    /** Reads one after another, of any sizes, give the content from where they started on: as many bytes as asked for
        together, or all there are; one that gives nothing though asked for something came at the end. */
    method ReadAll(sizes: seq<nat>) returns (data: Text, ended: bool)
      requires Valid() && Roomy(device, startBlock - 1, |content|)
      requires forall size | size in sizes :: size + |content| < 0x1_0000_0000_0000_0000
      modifies this`pos
      ensures Valid() && old(pos) <= pos && data == content[old(pos)..pos] && (ended ==> pos == |content|)
      ensures |data| == AtMost(Total(sizes), |content| - old(pos))
    {
      hide *;
      data, ended := [], false;
      Placed();
      NothingRead(content, pos);
      for i := 0 to |sizes|
        invariant Valid() && old(pos) <= pos <= |content| && data == content[old(pos)..pos]
                  && (ended ==> pos == |content|)
        invariant |data| == AtMost(Total(sizes[..i]), |content| - old(pos))
      {
        ghost var pos0 := pos;
        assert sizes[i] in sizes;
        PartIs(content, pos, sizes[i]);
        AtMostIs(sizes[i], |content| - pos);
        RoomyEnds(device, startBlock - 1, |content|, pos, |Part(content, pos, sizes[i])|);
        var part := Read(sizes[i]);
        NextRead(content, old(pos), pos0, pos, sizes, i);
        data := data + part;
        if sizes[i] > 0 && part == [] { ended := true; }
        Placed();
      }
      assert sizes[..|sizes|] == sizes;
    }

    lemma Placed()
      requires Valid()
      ensures startBlock > 0 && pos <= |content| && startBlock + Blocks(|content|) <= |device|
    {
    }
  }

  lemma NothingRead(content: Text, pos: nat)
    requires pos <= |content|
    ensures content[pos..pos] == [] && AtMost(Total([]), |content| - pos) == 0
  {
  }

  /** One read more, from pos0 to pos1, of those that started at from. */
  lemma NextRead(content: Text, from: nat, pos0: nat, pos1: nat, sizes: seq<nat>, i: nat)
    requires from <= pos0 <= pos1 <= |content| && i < |sizes|
    requires pos0 - from == AtMost(Total(sizes[..i]), |content| - from)
             && pos1 - pos0 == AtMost(sizes[i], |content| - pos0)
    ensures content[from..pos0] + content[pos0..pos1] == content[from..pos1]
    ensures pos1 - from == AtMost(Total(sizes[..i + 1]), |content| - from)
    ensures sizes[i] > 0 && pos1 == pos0 ==> pos1 == |content|
  {
    assert sizes[..i + 1][..i] == sizes[..i];
  }

  function AtMost(a: int, b: int): int {
    if a <= b then a else b
  }

  function Total(sizes: seq<nat>): nat {
    if sizes == [] then 0 else Total(sizes[..|sizes| - 1]) + sizes[|sizes| - 1]
  }

  /** Writing, mounting, opening and reading: whatever the order of the entries, opening the path of a file and reading
      it gives the bytes that were written there last, as many as asked for, and all of them once a read gives
      nothing. */
  method ReadBack(device: Device, ghost es: seq<Entry>, ghost k: nat, path: Path, sizes: seq<nat>)
      returns (data: Text, ended: bool)
    requires Written(device, es) && forall i | 0 <= i < |device| :: |device[i]| == BLOCK_SIZE
    requires IsLastFile(es, |es|, path, k)
    requires k + 1 < |es| || End(es, |es|) < |device| || |es[k].content| % BLOCK_SIZE != 0
    requires forall size | size in sizes :: size < 0xFFFF_FFFF_0000_0000
    ensures data <= es[k].content && |data| == AtMost(Total(sizes), |es[k].content|)
    ensures ended ==> data == es[k].content
  {
    hide *;
    FileIndex(es, path, k);
    ArchiveRoundTrip(device, es);
    EntryNode(es, k, Parsed(device, 0, false, EMPTY));
    EntriesAreStored(device, es, k);
    RoomyWhen(device, Start(es, k), |es[k].content|);
    SizeBound(device, Start(es, k), es[k].content);
    var fs := new TarFS(device);
    fs.BuildTree();
    var node := fs.tree[path];
    assert node.isFile;
    var file := new TarFSFile(device, node.block, es[k].content);
    data, ended := file.ReadAll(sizes);
    AtMostIs(Total(sizes), |es[k].content|);
  }

  lemma RoomyWhen(device: Device, start: nat, size: nat)
    ensures size % BLOCK_SIZE != 0 ==> Roomy(device, start, size)
  {
  }

  lemma FileIndex(es: seq<Entry>, path: Path, k: nat)
    requires IsLastFile(es, |es|, path, k)
    ensures k < |es| && es[k].path == path && !es[k].directory
  {
  }

  lemma AtMostIs(a: int, b: int)
    ensures AtMost(a, b) <= b && AtMost(a, b) <= a
  {
  }

  lemma EntryNode(es: seq<Entry>, k: nat, t: Tree)
    requires Holds(es, |es|, t) && k < |es| && IsLastFile(es, |es|, es[k].path, k)
    ensures es[k].path in t && t[es[k].path].isFile && t[es[k].path].block == Start(es, k)
  {
    hide Start;
    assert LeadsTo(es[k].path, es[k].path);
    assert NodeSays(es, |es|, es[k].path, NodeAt(t, es[k].path));
  }
}
