/** dlmalloc's small bins: one circular list per small size, through a header in the state itself. */
module SmallBins {
  import opened BinIndex
  import opened Sequences
  import opened TreeBins

  const NSMALLBINS: nat := 32

  /** The address that stands for a bin's header; never a chunk's. */
  function SmallBin(i: nat): int {
    -100 - i
  }

  /** The chunks of each bin, oldest first. */
  type Smalls = seq<seq<int>>

  ghost predicate InSmall(smalls: Smalls, x: int) {
    exists i: nat :: i < |smalls| && x in smalls[i]
  }

  ghost predicate Circle(h: Heap, c: seq<int>) {
    |c| > 0 && Once(c) && RingLinks(h, c)
  }

  /** A bin is marked when it is not empty; then its header and chunks are linked in a circle. */
  ghost predicate SmallOk(h: Heap, marks: set<nat>, smalls: Smalls, i: nat)
    requires i < |smalls|
  {
    && (i in marks <==> smalls[i] != []) && (smalls[i] != [] ==> Circle(h, [SmallBin(i)] + smalls[i]))
    && forall x | x in smalls[i] :: x > 0 && Size(h, x) == 8 * i
  }

  ghost predicate SmallsOk(h: Heap, marks: set<nat>, smalls: Smalls) {
    && |smalls| == NSMALLBINS && (forall b | b in marks :: b < NSMALLBINS)
    && forall i: nat {:trigger SmallOk(h, marks, smalls, i)} | i < NSMALLBINS :: SmallOk(h, marks, smalls, i)
  }

  lemma SmallFacts(h: Heap, marks: set<nat>, smalls: Smalls, i: nat)
    requires SmallsOk(h, marks, smalls) && i < NSMALLBINS
    ensures |smalls| == NSMALLBINS && SmallOk(h, marks, smalls, i)
  {
  }

  lemma CircleFrame(h: Heap, h': Heap, c: seq<int>)
    requires Circle(h, c) && forall x | x in c :: At(h'.fd, x) == At(h.fd, x) && At(h'.bk, x) == At(h.bk, x)
    ensures Circle(h', c)
  {
    assert forall j | 0 <= j < |c| :: c[j] in c;
  }

  /** A chunk of a small bin is in no other. */
  lemma OneBin(h: Heap, marks: set<nat>, smalls: Smalls, i: nat, j: nat, x: int)
    requires SmallsOk(h, marks, smalls) && i < NSMALLBINS && j < NSMALLBINS && x in smalls[i] && x in smalls[j]
    ensures i == j
  {
    SmallFacts(h, marks, smalls, i);
    SmallFacts(h, marks, smalls, j);
  }

  // ----- Changes to one bin -----

  /** Links change only at header and chunks of bin i, and at x, which is in no bin. */
  ghost predicate LinksChange(h: Heap, h': Heap, smalls: Smalls, i: nat, x: int)
    requires i < |smalls|
  {
    && h' == h.(fd := h'.fd, bk := h'.bk)
    && forall y ::
         y != x && y != SmallBin(i) && y !in smalls[i] ==> At(h'.fd, y) == At(h.fd, y) && At(h'.bk, y) == At(h.bk, y)
  }

  lemma OthersStay(h: Heap, h': Heap, marks: set<nat>, marks': set<nat>, smalls: Smalls, c: seq<int>, i: nat, x: int,
                   j: nat)
    requires SmallsOk(h, marks, smalls) && i < NSMALLBINS && j < NSMALLBINS && i != j
    requires LinksChange(h, h', smalls, i, x) && x > 0
             && (forall k: nat :: k != i ==> x !in (if k < |smalls| then smalls[k] else []))
    requires marks' == marks + {i} || marks' == marks - {i} || marks' == marks
    ensures SmallOk(h', marks', smalls[i := c], j)
  {
    SmallFacts(h, marks, smalls, j);
    SmallFacts(h, marks, smalls, i);
    forall y | y in smalls[j] ensures y !in smalls[i] && y != x {
      if y in smalls[i] { OneBin(h, marks, smalls, i, j, y); }
    }
    if smalls[j] != [] { CircleFrame(h, h', [SmallBin(j)] + smalls[j]); }
  }

  /** What putting x in front of bin i writes. */
  function FrontAt(h: Heap, b: int, f: int, x: int): Heap {
    h.(fd := h.fd[b := x][x := f], bk := h.bk[f := x][x := b])
  }

  lemma FrontSplices(h: Heap, c: seq<int>, b: int, x: int)
    requires |c| > 0 && b == c[0] && x !in c
    ensures Spliced(h, FrontAt(h, b, c[|c| - 1], x), c, x)
  {
    assert c[0] in c && c[|c| - 1] in c;
  }

  lemma CircleGrows(h: Heap, h': Heap, c: seq<int>, x: int)
    requires |c| > 0 && Once(c) && x !in c && (|c| == 1 || RingLinks(h, c)) && Spliced(h, h', c, x)
    ensures Circle(h', c + [x])
  {
    var d := c + [x];
    if |c| > 1 {
      hide Spliced;
      forall j | 0 <= j < |d| ensures At(h'.bk, d[j]) == Younger(d, j) && At(h'.fd, d[j]) == Older(d, j) {
        GrownLinks(h, h', c, x, j);
      }
    } else {
      assert d == [c[0], x];
    }
  }

  /** Putting a chunk in front of its bin keeps all bins sound. */
  lemma PutInFront(h: Heap, marks: set<nat>, smalls: Smalls, i: nat, x: int, f: int)
    requires SmallsOk(h, marks, smalls) && i < NSMALLBINS && x > 0 && !InSmall(smalls, x) && Size(h, x) == 8 * i
    requires f == if i in marks then At(h.fd, SmallBin(i)) else SmallBin(i)
    ensures SmallsOk(FrontAt(h, SmallBin(i), f, x), marks + {i}, smalls[i := smalls[i] + [x]])
    ensures LinksChange(h, FrontAt(h, SmallBin(i), f, x), smalls, i, x)
  {
    hide SmallOk;
    hide Circle;
    hide RingLinks;
    var b, h', marks', smalls' := SmallBin(i), FrontAt(h, SmallBin(i), f, x), marks + {i}, smalls[i := smalls[i] + [x]];
    FrontOfBin(h, marks, smalls, i, x, f);
    forall j: nat | j < NSMALLBINS ensures SmallOk(h', marks', smalls', j) {
      if j != i { OthersStay(h, h', marks, marks', smalls, smalls[i] + [x], i, x, j); }
    }
  }

  lemma FrontOfBin(h: Heap, marks: set<nat>, smalls: Smalls, i: nat, x: int, f: int)
    requires SmallsOk(h, marks, smalls) && i < NSMALLBINS && x > 0 && !InSmall(smalls, x) && Size(h, x) == 8 * i
    requires f == if i in marks then At(h.fd, SmallBin(i)) else SmallBin(i)
    ensures SmallOk(FrontAt(h, SmallBin(i), f, x), marks + {i}, smalls[i := smalls[i] + [x]], i)
    ensures LinksChange(h, FrontAt(h, SmallBin(i), f, x), smalls, i, x)
  {
    hide SmallsOk;
    SmallFacts(h, marks, smalls, i);
    var c := [SmallBin(i)] + smalls[i];
    assert x !in c;
    if i in marks { assert At(h.fd, c[0]) == Older(c, 0); }
    assert f == c[|c| - 1];
    FrontSplices(h, c, SmallBin(i), x);
    CircleGrows(h, FrontAt(h, SmallBin(i), f, x), c, x);
    assert c + [x] == [SmallBin(i)] + (smalls[i] + [x]);
  }

  // ----- Taking a chunk out -----

  lemma CircleShrinks(h: Heap, h': Heap, c: seq<int>, j: nat)
    requires Circle(h, c) && j < |c| && |c| > 1 && RingUnlinked(h, h', c, j)
    ensures Circle(h', Drop(c, j))
  {
    hide RingUnlinked;
    hide RingLinks;
    var d := Drop(c, j);
    forall i | 0 <= i < |d| ensures At(h'.bk, d[i]) == Younger(d, i) && At(h'.fd, d[i]) == Older(d, i) {
      ShrunkLinks(h, h', c, j, i);
    }
    LinksAre(h', d);
  }

  lemma LinksAre(h: Heap, c: seq<int>)
    requires forall i {:trigger c[i]} | 0 <= i < |c| :: At(h.bk, c[i]) == Younger(c, i) && At(h.fd, c[i]) == Older(c, i)
    ensures RingLinks(h, c)
  {
  }

  /** The links of a chunk of a small bin: both lead to the header exactly if it is alone. */
  lemma SmallNeighbours(h: Heap, marks: set<nat>, smalls: Smalls, i: nat, k: nat)
    requires SmallsOk(h, marks, smalls) && i < NSMALLBINS && k < |smalls[i]|
    ensures var x, c := smalls[i][k], [SmallBin(i)] + smalls[i];
            && c[k + 1] == x && Circle(h, c) && x > 0 && Size(h, x) == 8 * i && i in marks
            && At(h.fd, x) == Older(c, k + 1) && At(h.bk, x) == Younger(c, k + 1)
            && (At(h.fd, x) == At(h.bk, x) <==> |smalls[i]| == 1)
            && At(h.fd, SmallBin(i)) == smalls[i][|smalls[i]| - 1]
  {
    hide SmallsOk;
    SmallFacts(h, marks, smalls, i);
    var c := [SmallBin(i)] + smalls[i];
    assert At(h.fd, c[k + 1]) == Older(c, k + 1) && At(h.bk, c[k + 1]) == Younger(c, k + 1);
    assert At(h.fd, c[0]) == Older(c, 0);
    assert smalls[i][k] in smalls[i];
  }

  /** Taking a chunk out of its bin keeps all bins sound; the last one only unmarks the bin. */
  lemma TakenOut(h: Heap, h': Heap, marks: set<nat>, smalls: Smalls, i: nat, k: nat)
    requires SmallsOk(h, marks, smalls) && i < NSMALLBINS && k < |smalls[i]|
    requires h' == if |smalls[i]| == 1 then h else RingUnlinkAt(h, At(h.fd, smalls[i][k]), At(h.bk, smalls[i][k]))
    ensures SmallsOk(h', if |smalls[i]| == 1 then marks - {i} else marks, smalls[i := Drop(smalls[i], k)])
    ensures LinksChange(h, h', smalls, i, smalls[i][k])
  {
    hide SmallOk;
    hide Circle;
    hide RingUnlinked;
    var c, x, marks' := [SmallBin(i)] + smalls[i], smalls[i][k], if |smalls[i]| == 1 then marks - {i} else marks;
    var smalls' := smalls[i := Drop(smalls[i], k)];
    SmallNeighbours(h, marks, smalls, i, k);
    OutOfBin(h, h', marks, smalls, i, k);
    forall j: nat | j < NSMALLBINS ensures SmallOk(h', marks', smalls', j) {
      if j != i {
        forall m: nat | m != i ensures x !in (if m < |smalls| then smalls[m] else []) {
          if m < |smalls| && x in smalls[m] { OneBin(h, marks, smalls, i, m, x); }
        }
        OthersStay(h, h', marks, marks', smalls, Drop(smalls[i], k), i, x, j);
      }
    }
  }

  lemma OutOfBin(h: Heap, h': Heap, marks: set<nat>, smalls: Smalls, i: nat, k: nat)
    requires SmallsOk(h, marks, smalls) && i < NSMALLBINS && k < |smalls[i]|
    requires h' == if |smalls[i]| == 1 then h else RingUnlinkAt(h, At(h.fd, smalls[i][k]), At(h.bk, smalls[i][k]))
    ensures SmallOk(h', if |smalls[i]| == 1 then marks - {i} else marks, smalls[i := Drop(smalls[i], k)], i)
    ensures LinksChange(h, h', smalls, i, smalls[i][k])
  {
    hide SmallsOk;
    hide Circle;
    SmallNeighbours(h, marks, smalls, i, k);
    SmallFacts(h, marks, smalls, i);
    if |smalls[i]| > 1 { OutOfMany(h, h', smalls[i], i, k); }
  }

  lemma OutOfMany(h: Heap, h': Heap, d: seq<int>, i: nat, k: nat)
    requires Circle(h, [SmallBin(i)] + d) && |d| > 1 && k < |d| && h' == RingUnlinkAt(h, At(h.fd, d[k]), At(h.bk, d[k]))
    requires At(h.fd, d[k]) == Older([SmallBin(i)] + d, k + 1) && At(h.bk, d[k]) == Younger([SmallBin(i)] + d, k + 1)
    ensures Circle(h', [SmallBin(i)] + Drop(d, k)) && h' == h.(fd := h'.fd, bk := h'.bk)
    ensures forall y :: y != SmallBin(i) && y !in d ==> At(h'.fd, y) == At(h.fd, y) && At(h'.bk, y) == At(h.bk, y)
    ensures forall y | y in Drop(d, k) :: y in d
  {
    hide Circle;
    hide RingUnlinked;
    var c := [SmallBin(i)] + d;
    RingUnlinkWrites(h, c, k + 1);
    CircleShrinks(h, h', c, k + 1);
    assert Drop(c, k + 1) == [SmallBin(i)] + Drop(d, k);
    NeighboursIn(c, k + 1);
  }

  lemma NeighboursIn(c: seq<int>, j: nat)
    requires j < |c|
    ensures Older(c, j) in c && Younger(c, j) in c
  {
  }

  lemma InSmallMore(smalls: Smalls, i: nat, c: seq<int>, x: int)
    requires i < |smalls| && c == smalls[i] + [x]
    ensures forall y :: InSmall(smalls[i := c], y) <==> y == x || InSmall(smalls, y)
  {
    var smalls' := smalls[i := c];
    assert x in smalls'[i];
    forall y ensures InSmall(smalls', y) <==> y == x || InSmall(smalls, y) {
      if InSmall(smalls, y) {
        var j: nat :| j < |smalls| && y in smalls[j];
        assert y in smalls'[j];
      }
      if InSmall(smalls', y) {
        var j: nat :| j < |smalls'| && y in smalls'[j];
        assert y != x ==> y in smalls[j];
      }
    }
  }

  lemma InSmallFewer(smalls: Smalls, i: nat, c: seq<int>, x: int)
    requires i < |smalls| && BinsApart(smalls) && x in smalls[i] && forall y :: y in c <==> y in smalls[i] && y != x
    ensures forall y :: InSmall(smalls[i := c], y) <==> y != x && InSmall(smalls, y)
  {
    var smalls' := smalls[i := c];
    forall y ensures InSmall(smalls', y) <==> y != x && InSmall(smalls, y) {
      if InSmall(smalls, y) && y != x {
        var j: nat :| j < |smalls| && y in smalls[j];
        assert y in smalls'[j];
      }
      if InSmall(smalls', y) {
        var j: nat :| j < |smalls'| && y in smalls'[j];
        assert y in smalls[j];
      }
    }
  }

  /** No chunk is in two bins. */
  ghost predicate BinsApart(smalls: Smalls) {
    forall i: nat, j: nat, x | i < |smalls| && j < |smalls| && x in smalls[i] && x in smalls[j] :: i == j
  }

  lemma SmallsApart(h: Heap, marks: set<nat>, smalls: Smalls)
    requires SmallsOk(h, marks, smalls)
    ensures BinsApart(smalls)
  {
    hide SmallsOk;
    if |smalls| == NSMALLBINS {
      forall i: nat, j: nat, x | i < |smalls| && j < |smalls| && x in smalls[i] && x in smalls[j] ensures i == j {
        OneBin(h, marks, smalls, i, j, x);
      }
    } else {
      SmallFacts(h, marks, smalls, 0);
    }
  }

  /** Chunks of small bins whose sizes and links are unchanged stay there. */
  lemma SmallsFrame(h: Heap, h': Heap, marks: set<nat>, smalls: Smalls)
    requires SmallsOk(h, marks, smalls) && h'.fd == h.fd && h'.bk == h.bk
    requires forall x | InSmall(smalls, x) :: Size(h', x) == Size(h, x)
    ensures SmallsOk(h', marks, smalls)
  {
    forall i: nat | i < NSMALLBINS ensures SmallOk(h', marks, smalls, i) {
      SmallFacts(h, marks, smalls, i);
      assert forall x | x in smalls[i] :: InSmall(smalls, x);
      if smalls[i] != [] { CircleFrame(h, h', [SmallBin(i)] + smalls[i]); }
    }
  }

  /** Sizes of small chunks, by bin. */
  lemma SmallSize(h: Heap, marks: set<nat>, smalls: Smalls, x: int) returns (i: nat, k: nat)
    requires SmallsOk(h, marks, smalls) && InSmall(smalls, x)
    ensures i < NSMALLBINS == |smalls| && k < |smalls[i]| && smalls[i][k] == x && x > 0 && Size(h, x) == 8 * i
            && i in marks
  {
    i :| i < |smalls| && x in smalls[i];
    SmallFacts(h, marks, smalls, i);
    k :| k < |smalls[i]| && smalls[i][k] == x;
  }

  /** Only links differ, and only those of x, of chunks in small bins, and of headers. */
  ghost predicate LinksOnly(h: Heap, h': Heap, smalls: Smalls, x: int) {
    && h' == h.(fd := h'.fd, bk := h'.bk)
    && forall y :: y > 0 && y != x && !InSmall(smalls, y) ==> At(h'.fd, y) == At(h.fd, y) && At(h'.bk, y) == At(h.bk, y)
  }

  lemma ChangeIsLinks(h: Heap, h': Heap, smalls: Smalls, i: nat, x: int)
    requires i < |smalls| && LinksChange(h, h', smalls, i, x)
    ensures LinksOnly(h, h', smalls, x)
  {
  }

  /** All there is to know of linking x into its bin. */
  lemma SmallInserted(h: Heap, marks: set<nat>, smalls: Smalls, i: nat, x: int, f: int)
    requires SmallsOk(h, marks, smalls) && i < NSMALLBINS && x > 0 && !InSmall(smalls, x) && Size(h, x) == 8 * i
    requires f == if i in marks then At(h.fd, SmallBin(i)) else SmallBin(i)
    ensures |smalls| == NSMALLBINS
    ensures var h', smalls' := FrontAt(h, SmallBin(i), f, x), smalls[i := smalls[i] + [x]];
            && SmallsOk(h', marks + {i}, smalls') && LinksOnly(h, h', smalls, x)
            && forall y :: InSmall(smalls', y) <==> y == x || InSmall(smalls, y)
  {
    hide SmallsOk;
    hide InSmall;
    hide LinksChange;
    hide LinksOnly;
    hide FrontAt;
    SmallFacts(h, marks, smalls, i);
    PutInFront(h, marks, smalls, i, x, f);
    ChangeIsLinks(h, FrontAt(h, SmallBin(i), f, x), smalls, i, x);
    SmallsApart(h, marks, smalls);
    InSmallMore(smalls, i, smalls[i] + [x], x);
  }

  lemma FewerSmall(smalls: Smalls, smalls': Smalls, i: nat, k: nat, x: int)
    requires i < |smalls| && k < |smalls[i]| && BinsApart(smalls) && Once(smalls[i])
    requires smalls' == smalls[i := Drop(smalls[i], k)] && x == smalls[i][k]
    ensures forall y :: InSmall(smalls', y) <==> y != x && InSmall(smalls, y)
  {
    hide Drop;
    hide InSmall;
    hide BinsApart;
    DropMembers(smalls[i], k);
    InSmallFewer(smalls, i, Drop(smalls[i], k), x);
  }

  /** All there is to know of taking chunk x out of its bin. */
  lemma SmallRemoved(h: Heap, h': Heap, marks: set<nat>, smalls: Smalls, smalls': Smalls, i: nat, k: nat, x: int)
    requires SmallsOk(h, marks, smalls) && i < NSMALLBINS && k < |smalls[i]| && x == smalls[i][k]
             && smalls' == smalls[i := Drop(smalls[i], k)]
    requires h' == if |smalls[i]| == 1 then h else RingUnlinkAt(h, At(h.fd, x), At(h.bk, x))
    ensures SmallsOk(h', if |smalls[i]| == 1 then marks - {i} else marks, smalls')
    ensures LinksOnly(h, h', smalls, x)
    ensures forall y :: InSmall(smalls', y) <==> y != x && InSmall(smalls, y)
  {
    hide SmallsOk;
    hide InSmall;
    hide LinksChange;
    hide LinksOnly;
    hide RingUnlinkAt;
    hide Circle;
    SmallFacts(h, marks, smalls, i);
    TakenOut(h, h', marks, smalls, i, k);
    ChangeIsLinks(h, h', smalls, i, x);
    SmallsApart(h, marks, smalls);
    SmallNeighbours(h, marks, smalls, i, k);
    BinOnce(h, smalls[i], i);
    FewerSmall(smalls, smalls', i, k, x);
  }

  lemma BinOnce(h: Heap, d: seq<int>, i: nat)
    requires Circle(h, [SmallBin(i)] + d)
    ensures Once(d)
  {
    var c := [SmallBin(i)] + d;
    forall a, b | 0 <= a < b < |d| ensures d[a] != d[b] { assert c[a + 1] != c[b + 1]; }
  }

  lemma MarkedBin(h: Heap, marks: set<nat>, smalls: Smalls, i: nat)
    requires SmallsOk(h, marks, smalls) && i in marks
    ensures i < NSMALLBINS == |smalls| && |smalls[i]| > 0 && InSmall(smalls, smalls[i][|smalls[i]| - 1])
  {
    SmallFacts(h, marks, smalls, i);
    assert smalls[i][|smalls[i]| - 1] in smalls[i];
  }

  lemma SmallWithout(h: Heap, d: seq<int>, i: nat, k: nat)
    requires Circle(h, [SmallBin(i)] + d) && k < |d|
    ensures Drop(d, k) == Without(d, d[k])
  {
    BinOnce(h, d, i);
    WithoutDrops(d, d[k], k);
  }
}
