/** Red-black search trees as values: cells by key, the open interval of keys each subtree may hold,
    and its black height; and what a rotation, a new leaf and a recolouring keep. */
module RedBlack {
  import opened Arithmetic

  /** A key, or none: a link, or one end of an interval. */
  datatype Opt = None | Some(key: int)

  datatype Cell = Cell(left: Opt, right: Opt, parent: Opt, red: bool)

  type Shape = map<int, Cell>

  /** An open interval of keys, unbounded where an end is None. */
  datatype Span = Span(lo: Opt, hi: Opt)

  type Spans = map<int, Span>

  function Kid(c: Cell, right: bool): Opt {
    if right then c.right else c.left
  }

  function WithKid(c: Cell, right: bool, kid: Opt): Cell {
    if right then c.(right := kid) else c.(left := kid)
  }

  predicate Inside(k: int, s: Span) {
    (s.lo.Some? ==> s.lo.key < k) && (s.hi.Some? ==> k < s.hi.key)
  }

  /** The part of interval s on one side of k. */
  function Part(s: Span, k: int, right: bool): Span {
    if right then Span(Some(k), s.hi) else Span(s.lo, Some(k))
  }

  predicate Sub(s: Span, t: Span) {
    && (t.lo.Some? ==> s.lo.Some? && t.lo.key <= s.lo.key)
    && (t.hi.Some? ==> s.hi.Some? && s.hi.key <= t.hi.key)
  }

  predicate Before(s: Span, t: Span) {
    s.hi.Some? && t.lo.Some? && s.hi.key <= t.lo.key
  }

  /** The intervals of two keys are apart, or one is within one side of the other. */
  predicate Laminar(s: Span, k: int, t: Span, m: int) {
    || Sub(t, Part(s, k, k < m))
    || Sub(s, Part(t, m, m < k))
    || (if k < m then Before(s, t) else Before(t, s))
  }

  /** The child of k on one side holds that side's keys; without a child there are none. */
  ghost predicate KidOk(shape: Shape, spans: Spans, k: int, right: bool)
    requires k in shape && k in spans
  {
    var c := Kid(shape[k], right);
    if c.None? then forall m | m in shape :: !Inside(m, Part(spans[k], k, right))
    else c.key in shape && c.key in spans && spans[c.key] == Part(spans[k], k, right) && shape[c.key].parent == Some(k)
  }

  ghost predicate ParentOk(shape: Shape, spans: Spans, root: Opt, k: int)
    requires k in shape && k in spans
  {
    var p := shape[k].parent;
    if p.None? then root == Some(k) && spans[k] == Span(None, None)
    else p.key in shape && (shape[p.key].left == Some(k) || shape[p.key].right == Some(k))
  }

  ghost predicate CellOk(shape: Shape, spans: Spans, root: Opt, k: int)
    requires k in shape
  {
    k in spans && Inside(k, spans[k]) && KidOk(shape, spans, k, false) && KidOk(shape, spans, k, true)
      && ParentOk(shape, spans, root, k)
  }

  ghost predicate AllLaminar(shape: Shape, spans: Spans) {
    forall k, m {:trigger Laminar(spans[k], k, spans[m], m)} | k in shape && m in shape && k != m && k in spans
        && m in spans ::
      Laminar(spans[k], k, spans[m], m)
  }

  /** A search tree with exact parent links. */
  ghost predicate Ordered(shape: Shape, spans: Spans, root: Opt) {
    && (if root.None? then shape == map[] else root.key in shape && shape[root.key].parent.None?)
    && (forall k {:trigger CellOk(shape, spans, root, k)} | k in shape :: CellOk(shape, spans, root, k))
    && AllLaminar(shape, spans)
  }

  lemma CellFacts(shape: Shape, spans: Spans, root: Opt, k: int)
    requires Ordered(shape, spans, root) && k in shape
    ensures CellOk(shape, spans, root, k)
  {
  }

  lemma PairFacts(shape: Shape, spans: Spans, root: Opt, k: int, m: int)
    requires Ordered(shape, spans, root) && k in shape && m in shape && k != m
    ensures k in spans && m in spans && Laminar(spans[k], k, spans[m], m)
  {
    hide Laminar;
    assert CellOk(shape, spans, root, k) && CellOk(shape, spans, root, m);
  }

  // ----- A new leaf -----

  ghost function Leafed(shape: Shape, p: int, right: bool, x: int): Shape
    requires p in shape
  {
    shape[p := WithKid(shape[p], right, Some(x))][x := Cell(None, None, Some(p), true)]
  }

  /** Key x belongs in the empty place on one side of p. */
  ghost predicate Empty(shape: Shape, spans: Spans, p: int, right: bool, x: int) {
    p in shape && p in spans && x !in shape && Kid(shape[p], right).None? && Inside(x, Part(spans[p], p, right))
  }

  /** The empty places of a tree hold disjoint intervals of keys. */
  lemma OneEmptyPlace(shape: Shape, spans: Spans, root: Opt, p: int, right: bool, x: int, k: int, side: bool)
    requires Ordered(shape, spans, root) && Empty(shape, spans, p, right, x) && k in shape && k in spans
             && Kid(shape[k], side).None?
    requires k != p || side != right
    ensures !Inside(x, Part(spans[k], k, side))
  {
    hide Ordered;
    CellFacts(shape, spans, root, p);
    CellFacts(shape, spans, root, k);
    if k != p { PairFacts(shape, spans, root, p, k); }
  }

  lemma NewLeaf(shape: Shape, spans: Spans, root: Opt, p: int, right: bool, x: int)
    requires Ordered(shape, spans, root) && Empty(shape, spans, p, right, x)
    ensures Ordered(Leafed(shape, p, right, x), spans[x := Part(spans[p], p, right)], root)
  {
    hide CellOk;
    hide Laminar;
    var shape', spans' := Leafed(shape, p, right, x), spans[x := Part(spans[p], p, right)];
    forall k | k in shape' ensures CellOk(shape', spans', root, k) {
      if k == x { LeafCell(shape, spans, root, p, right, x); } else { LeafOthers(shape, spans, root, p, right, x, k); }
    }
    forall k, m | k in shape' && m in shape' && k != m && k in spans' && m in spans'
      ensures Laminar(spans'[k], k, spans'[m], m)
    {
      LeafPair(shape, spans, root, p, right, x, k, m);
    }
  }

  lemma LeafCell(shape: Shape, spans: Spans, root: Opt, p: int, right: bool, x: int)
    requires Ordered(shape, spans, root) && Empty(shape, spans, p, right, x)
    ensures CellOk(Leafed(shape, p, right, x), spans[x := Part(spans[p], p, right)], root, x)
  {
    hide Ordered;
    CellFacts(shape, spans, root, p);
  }

  lemma LeafOthers(shape: Shape, spans: Spans, root: Opt, p: int, right: bool, x: int, k: int)
    requires Ordered(shape, spans, root) && Empty(shape, spans, p, right, x) && k in shape
    ensures CellOk(Leafed(shape, p, right, x), spans[x := Part(spans[p], p, right)], root, k)
  {
    hide Ordered;
    CellFacts(shape, spans, root, k);
    LeafKid(shape, spans, root, p, right, x, k, false);
    LeafKid(shape, spans, root, p, right, x, k, true);
    hide Inside;
  }

  lemma LeafKid(shape: Shape, spans: Spans, root: Opt, p: int, right: bool, x: int, k: int, side: bool)
    requires Ordered(shape, spans, root) && Empty(shape, spans, p, right, x) && k in shape
    ensures k in spans && KidOk(Leafed(shape, p, right, x), spans[x := Part(spans[p], p, right)], k, side)
  {
    hide Ordered;
    CellFacts(shape, spans, root, k);
    CellFacts(shape, spans, root, p);
    hide Inside;
    if Kid(shape[k], side).None? && (k != p || side != right) {
      OneEmptyPlace(shape, spans, root, p, right, x, k, side);
    }
  }

  lemma LeafPair(shape: Shape, spans: Spans, root: Opt, p: int, right: bool, x: int, k: int, m: int)
    requires Ordered(shape, spans, root) && Empty(shape, spans, p, right, x)
    requires var spans' := spans[x := Part(spans[p], p, right)];
             k != m && (k == x || k in shape) && (m == x || m in shape) && k in spans' && m in spans'
    ensures var spans' := spans[x := Part(spans[p], p, right)]; Laminar(spans'[k], k, spans'[m], m)
  {
    hide Ordered;
    if k != x && m != x {
      PairFacts(shape, spans, root, k, m);
    } else {
      var o := if k == x then m else k;
      CellFacts(shape, spans, root, p);
      if o != p { PairFacts(shape, spans, root, p, o); CellFacts(shape, spans, root, o); }
    }
  }

  // ----- Rotations -----

  /** The child of n on side s, and the inner subtree that changes hands. */
  ghost predicate Rotatable(shape: Shape, n: int, s: bool) {
    && n in shape && Kid(shape[n], s).Some? && Kid(shape[n], s).key in shape
    && (shape[n].parent.Some? ==> shape[n].parent.key in shape)
    && var c := Kid(shape[Kid(shape[n], s).key], !s); c.Some? ==> c.key in shape
  }

  /** The parent of n, if any, points to p instead, and p to it. */
  ghost function Hung(shape: Shape, n: int, p: int): Shape
    requires n in shape && p in shape && (shape[n].parent.Some? ==> shape[n].parent.key in shape)
  {
    var up := shape[n].parent;
    if up.None? then shape[p := shape[p].(parent := None)]
    else
      var side := shape[up.key].left != Some(n);
      var a := shape[up.key := WithKid(shape[up.key], side, Some(p))];
      a[p := a[p].(parent := up)]
  }

  /** Child kid, if any, is n's on side s. */
  ghost function Adopted(shape: Shape, n: int, s: bool, kid: Opt): Shape
    requires n in shape && (kid.Some? ==> kid.key in shape)
  {
    var a := shape[n := WithKid(shape[n], s, kid)];
    if kid.Some? then a[kid.key := a[kid.key].(parent := Some(n))] else a
  }

  lemma HungCell(shape: Shape, n: int, p: int)
    requires n in shape && p in shape
             && (shape[n].parent.Some? ==> shape[n].parent.key in shape && shape[n].parent.key != p)
    ensures var a := Hung(shape, n, p);
            a.Keys == shape.Keys && p in a && n in a && a[p].left == shape[p].left && a[p].right == shape[p].right
  {
  }

  /** Cell n and its child on side s changed places; the child's inner subtree stays below n. */
  ghost function Rotated(shape: Shape, n: int, s: bool): Shape
    requires Rotatable(shape, n, s)
  {
    var p := Kid(shape[n], s).key;
    var a := Hung(shape, n, p);
    var b := Adopted(a, n, s, Kid(a[p], !s));
    Adopted(b, p, !s, Some(n))
  }

  ghost function RootAfter(shape: Shape, root: Opt, n: int, s: bool): Opt
    requires n in shape
  {
    if shape[n].parent.None? then Kid(shape[n], s) else root
  }

  ghost function SpansAfter(shape: Shape, spans: Spans, n: int, s: bool): Spans
    requires n in shape && n in spans && Kid(shape[n], s).Some?
  {
    var p := Kid(shape[n], s).key;
    spans[p := spans[n]][n := Part(spans[n], p, !s)]
  }

  /** How a rotation changes each cell. */
  ghost predicate TurnedCell(shape: Shape, shape': Shape, n: int, s: bool, k: int)
    requires Rotatable(shape, n, s) && k in shape
  {
    var p := Kid(shape[n], s).key;
    var c := Kid(shape[p], !s);
    var up := shape[n].parent;
    && k in shape' && shape'[k].red == shape[k].red
    && (if k == n then Kid(shape'[n], s) == c && Kid(shape'[n], !s) == Kid(shape[n], !s) && shape'[n].parent == Some(p)
        else if k == p
            then Kid(shape'[p], s) == Kid(shape[p], s) && Kid(shape'[p], !s) == Some(n) && shape'[p].parent == up
        else
          && shape'[k].parent == (if c == Some(k) then Some(n) else shape[k].parent)
          && shape'[k].left == (if up == Some(k) && shape[k].left == Some(n) then Some(p) else shape[k].left)
          && shape'[k].right == (if up == Some(k) && shape[k].left != Some(n) then Some(p) else shape[k].right))
  }

  ghost predicate Turned(shape: Shape, shape': Shape, n: int, s: bool)
    requires Rotatable(shape, n, s)
  {
    shape'.Keys == shape.Keys && forall k {:trigger TurnedCell(shape, shape', n, s, k)} | k in shape ::
        TurnedCell(shape, shape', n, s, k)
  }

  /** In a search tree the cells around a rotation are all different. */
  lemma AroundRotation(shape: Shape, spans: Spans, root: Opt, n: int, s: bool)
    requires Ordered(shape, spans, root) && n in shape && Kid(shape[n], s).Some?
    ensures Rotatable(shape, n, s)
    ensures var p := Kid(shape[n], s).key; var c := Kid(shape[p], !s); var up := shape[n].parent;
            && p != n && c != Some(n) && c != Some(p) && up != Some(n) && up != Some(p) && (up.Some? ==> c != up)
            && shape[p].parent == Some(n) && (c.Some? ==> shape[c.key].parent == Some(p))
            && (up.Some? ==> (shape[up.key].left == Some(n) <==> shape[up.key].right != Some(n)))
            && p in spans && n in spans && spans[p] == Part(spans[n], n, s)
  {
    hide Ordered;
    CellFacts(shape, spans, root, n);
    var p := Kid(shape[n], s).key;
    CellFacts(shape, spans, root, p);
    var c, up := Kid(shape[p], !s), shape[n].parent;
    if c.Some? { CellFacts(shape, spans, root, c.key); }
    if up.Some? { CellFacts(shape, spans, root, up.key); }
  }

  lemma RotationTurns(shape: Shape, spans: Spans, root: Opt, n: int, s: bool)
    requires Ordered(shape, spans, root) && n in shape && Kid(shape[n], s).Some?
    ensures Rotatable(shape, n, s) && Turned(shape, Rotated(shape, n, s), n, s)
  {
    hide Ordered;
    AroundRotation(shape, spans, root, n, s);
  }

  /** Rotating keeps a search tree: the same keys in the same order, with exact links. */
  lemma RotationKeeps(shape: Shape, shape': Shape, spans: Spans, root: Opt, n: int, s: bool)
    requires Ordered(shape, spans, root) && n in shape && Kid(shape[n], s).Some? && Rotatable(shape, n, s)
             && Turned(shape, shape', n, s)
    ensures n in spans && Ordered(shape', SpansAfter(shape, spans, n, s), RootAfter(shape, root, n, s))
  {
    hide CellOk;
    hide Laminar;
    hide TurnedCell;
    AroundRotation(shape, spans, root, n, s);
    var spans', root' := SpansAfter(shape, spans, n, s), RootAfter(shape, root, n, s);
    forall k | k in shape'
      ensures CellOk(shape', spans', root', k)
    {
      RotatedCell(shape, shape', spans, root, n, s, k);
    }
    forall k, m | k in shape' && m in shape' && k != m && k in spans' && m in spans'
      ensures Laminar(spans'[k], k, spans'[m], m)
    {
      RotatedPair(shape, spans, root, n, s, k, m);
    }
    RotatedRoot(shape, shape', spans, root, n, s);
  }

  /** A rotation keeps the tree ordered, and says what each cell becomes. */
  lemma RotationWhole(shape: Shape, spans: Spans, root: Opt, n: int, s: bool)
    requires Ordered(shape, spans, root) && n in shape && Kid(shape[n], s).Some?
    ensures Rotatable(shape, n, s) && Turned(shape, Rotated(shape, n, s), n, s) && n in spans
    ensures Ordered(Rotated(shape, n, s), SpansAfter(shape, spans, n, s), RootAfter(shape, root, n, s))
  {
    hide Ordered;
    hide Turned;
    hide Rotated;
    hide Rotatable;
    RotationTurns(shape, spans, root, n, s);
    RotationKeeps(shape, Rotated(shape, n, s), spans, root, n, s);
  }

  lemma RotatedRoot(shape: Shape, shape': Shape, spans: Spans, root: Opt, n: int, s: bool)
    requires Ordered(shape, spans, root) && n in shape && Kid(shape[n], s).Some? && Rotatable(shape, n, s)
             && Turned(shape, shape', n, s)
    ensures var root' := RootAfter(shape, root, n, s);
            root'.Some? && root'.key in shape' && shape'[root'.key].parent.None?
  {
    hide CellOk;
    AroundRotation(shape, spans, root, n, s);
    var p := Kid(shape[n], s).key;
    assert TurnedCell(shape, shape', n, s, p) && TurnedCell(shape, shape', n, s, root.key);
    var c := Kid(shape[p], !s);
    if root == Some(p) { }
  }

  lemma LaminarSwaps(s: Span, k: int, t: Span, m: int)
    requires k != m
    ensures Laminar(s, k, t, m) <==> Laminar(t, m, s, k)
  {
    hide Sub;
    hide Before;
    hide Part;
  }

  /** A third key's interval after n, of interval sn, and its child p changed places. */
  lemma ThirdInterval(sn: Span, n: int, p: int, s: bool, t: Span, m: int)
    requires m != n && m != p && Inside(n, sn) && Inside(p, Part(sn, n, s)) && Inside(m, t)
    requires Laminar(sn, n, t, m) && Laminar(Part(sn, n, s), p, t, m)
    ensures Laminar(sn, p, t, m) && Laminar(Part(sn, p, !s), n, t, m)
  {
  }

  lemma RotatedPair(shape: Shape, spans: Spans, root: Opt, n: int, s: bool, k: int, m: int)
    requires Ordered(shape, spans, root) && n in shape && Kid(shape[n], s).Some? && k in shape && m in shape && k != m
    requires n in spans && k in SpansAfter(shape, spans, n, s) && m in SpansAfter(shape, spans, n, s)
    ensures var spans' := SpansAfter(shape, spans, n, s); Laminar(spans'[k], k, spans'[m], m)
  {
    hide Ordered;
    hide Laminar;
    AroundRotation(shape, spans, root, n, s);
    var p := Kid(shape[n], s).key;
    PairFacts(shape, spans, root, k, m);
    var spans' := SpansAfter(shape, spans, n, s);
    LaminarSwaps(spans'[k], k, spans'[m], m);
    if k != n && k != p {
      if m == n || m == p { ThirdFacts(shape, spans, root, n, s, k); }
    } else if m != n && m != p {
      ThirdFacts(shape, spans, root, n, s, m);
    } else {
      CellFacts(shape, spans, root, n);
      CellFacts(shape, spans, root, p);
      PartHolds(spans[n], n, p, s);
    }
  }

  lemma PartHolds(sn: Span, n: int, p: int, s: bool)
    requires Inside(n, sn) && Inside(p, Part(sn, n, s))
    ensures Laminar(sn, p, Part(sn, p, !s), n)
  {
  }

  lemma ThirdFacts(shape: Shape, spans: Spans, root: Opt, n: int, s: bool, m: int)
    requires Ordered(shape, spans, root) && n in shape && Kid(shape[n], s).Some? && m in shape && m != n
             && m != Kid(shape[n], s).key
    ensures var p := Kid(shape[n], s).key;
            n in spans && m in spans && Laminar(spans[n], p, spans[m], m)
              && Laminar(Part(spans[n], p, !s), n, spans[m], m)
  {
    hide Ordered;
    hide Laminar;
    AroundRotation(shape, spans, root, n, s);
    var p := Kid(shape[n], s).key;
    CellFacts(shape, spans, root, n);
    CellFacts(shape, spans, root, p);
    CellFacts(shape, spans, root, m);
    PairFacts(shape, spans, root, n, m);
    PairFacts(shape, spans, root, p, m);
    ThirdInterval(spans[n], n, p, s, spans[m], m);
  }

  lemma RotatedCell(shape: Shape, shape': Shape, spans: Spans, root: Opt, n: int, s: bool, k: int)
    requires Ordered(shape, spans, root) && n in shape && Kid(shape[n], s).Some? && Rotatable(shape, n, s)
             && Turned(shape, shape', n, s)
    requires n in spans && k in shape
    ensures k in shape' && CellOk(shape', SpansAfter(shape, spans, n, s), RootAfter(shape, root, n, s), k)
  {
    hide Ordered;
    hide Turned;
    hide TurnedCell;
    var spans', root' := SpansAfter(shape, spans, n, s), RootAfter(shape, root, n, s);
    AroundRotation(shape, spans, root, n, s);
    var p := Kid(shape[n], s).key;
    CellFacts(shape, spans, root, k);
    CellFacts(shape, spans, root, p);
    CellFacts(shape, spans, root, n);
    TurnedIs(shape, shape', n, s, k);
    RotatedKid(shape, shape', spans, root, n, s, k, false);
    RotatedKid(shape, shape', spans, root, n, s, k, true);
    RotatedParent(shape, shape', spans, root, n, s, k);
    NewInside(spans[n], n, p, s);
    hide KidOk;
    hide ParentOk;
    hide Inside;
  }

  lemma NewInside(sn: Span, n: int, p: int, s: bool)
    requires Inside(n, sn) && Inside(p, Part(sn, n, s))
    ensures Inside(p, sn) && Inside(n, Part(sn, p, !s)) && Part(Part(sn, p, !s), n, s) == Part(Part(sn, n, s), p, !s)
    ensures Part(Part(sn, p, !s), n, !s) == Part(sn, n, !s) && Part(sn, p, s) == Part(Part(sn, n, s), p, s)
  {
  }

  lemma TurnedIs(shape: Shape, shape': Shape, n: int, s: bool, k: int)
    requires Rotatable(shape, n, s) && Turned(shape, shape', n, s) && k in shape
    ensures TurnedCell(shape, shape', n, s, k) && shape'.Keys == shape.Keys && forall m :: m in shape' <==> m in shape
  {
    hide TurnedCell;
    assert forall m :: m in shape' <==> m in shape'.Keys;
  }

  lemma RotatedParent(shape: Shape, shape': Shape, spans: Spans, root: Opt, n: int, s: bool, k: int)
    requires Ordered(shape, spans, root) && n in shape && Kid(shape[n], s).Some? && Rotatable(shape, n, s)
             && Turned(shape, shape', n, s)
    requires n in spans && k in shape
    ensures var spans' := SpansAfter(shape, spans, n, s);
            k in shape' && k in spans' && ParentOk(shape', spans', RootAfter(shape, root, n, s), k)
  {
    hide Ordered;
    hide Turned;
    hide KidOk;
    AroundRotation(shape, spans, root, n, s);
    var p := Kid(shape[n], s).key;
    CellFacts(shape, spans, root, k);
    CellFacts(shape, spans, root, n);
    TurnedIs(shape, shape', n, s, k);
    TurnedIs(shape, shape', n, s, p);
    TurnedIs(shape, shape', n, s, n);
    if shape[k].parent.Some? { TurnedIs(shape, shape', n, s, shape[k].parent.key); }
    if shape[n].parent.Some? { TurnedIs(shape, shape', n, s, shape[n].parent.key); }
  }

  lemma RotatedKid(shape: Shape, shape': Shape, spans: Spans, root: Opt, n: int, s: bool, k: int, side: bool)
    requires Ordered(shape, spans, root) && n in shape && Kid(shape[n], s).Some? && Rotatable(shape, n, s)
             && Turned(shape, shape', n, s)
    requires n in spans && k in shape
    ensures var spans' := SpansAfter(shape, spans, n, s);
            k in shape' && k in spans' && KidOk(shape', spans', k, side)
  {
    hide Ordered;
    hide Turned;
    hide KidOk;
    hide TurnedCell;
    hide CellOk;
    AroundRotation(shape, spans, root, n, s);
    var p := Kid(shape[n], s).key;
    if k == n { KidOfLower(shape, shape', spans, root, n, s, side); }
    else if k == p { KidOfUpper(shape, shape', spans, root, n, s, side); }
    else { KidOfOther(shape, shape', spans, root, n, s, k, side); }
  }

  lemma KidOfLower(shape: Shape, shape': Shape, spans: Spans, root: Opt, n: int, s: bool, side: bool)
    requires Ordered(shape, spans, root) && n in shape && Kid(shape[n], s).Some? && Rotatable(shape, n, s)
             && Turned(shape, shape', n, s)
    ensures n in spans && n in shape' && KidOk(shape', SpansAfter(shape, spans, n, s), n, side)
  {
    hide Ordered;
    hide Turned;
    hide ParentOk;
    hide Inside;
    AroundRotation(shape, spans, root, n, s);
    var p := Kid(shape[n], s).key;
    CellFacts(shape, spans, root, n);
    CellFacts(shape, spans, root, p);
    NewInside(spans[n], n, p, s);
    TurnedIs(shape, shape', n, s, n);
    var c := Kid(shape'[n], side);
    if c.Some? { TurnedIs(shape, shape', n, s, c.key); }
  }

  lemma KidOfUpper(shape: Shape, shape': Shape, spans: Spans, root: Opt, n: int, s: bool, side: bool)
    requires Ordered(shape, spans, root) && n in shape && Kid(shape[n], s).Some? && Rotatable(shape, n, s)
             && Turned(shape, shape', n, s)
    ensures var p := Kid(shape[n], s).key;
            && n in spans && p in shape' && p in SpansAfter(shape, spans, n, s)
            && KidOk(shape', SpansAfter(shape, spans, n, s), p, side)
  {
    hide Ordered;
    hide Turned;
    hide ParentOk;
    hide Inside;
    AroundRotation(shape, spans, root, n, s);
    var p := Kid(shape[n], s).key;
    CellFacts(shape, spans, root, n);
    CellFacts(shape, spans, root, p);
    NewInside(spans[n], n, p, s);
    TurnedIs(shape, shape', n, s, p);
    var c := Kid(shape'[p], side);
    if c.Some? { TurnedIs(shape, shape', n, s, c.key); }
  }

  lemma KidOfOther(shape: Shape, shape': Shape, spans: Spans, root: Opt, n: int, s: bool, k: int, side: bool)
    requires Ordered(shape, spans, root) && n in shape && Kid(shape[n], s).Some? && Rotatable(shape, n, s)
             && Turned(shape, shape', n, s)
    requires k in shape && k != n && k != Kid(shape[n], s).key
    ensures n in spans && k in spans && k in shape' && KidOk(shape', SpansAfter(shape, spans, n, s), k, side)
  {
    hide Ordered;
    hide Turned;
    hide ParentOk;
    hide Inside;
    hide Part;
    AroundRotation(shape, spans, root, n, s);
    CellFacts(shape, spans, root, k);
    CellFacts(shape, spans, root, n);
    TurnedIs(shape, shape', n, s, k);
    var c, o := Kid(shape'[k], side), Kid(shape[k], side);
    if c.Some? {
      if c.key in shape { TurnedIs(shape, shape', n, s, c.key); }
      if o.Some? { CellFacts(shape, spans, root, o.key); }
    }
  }

  // ----- Colours and black heights -----

  type Heights = map<int, nat>

  /** The number of black cells on any way down from a link; 0 if it is empty. */
  ghost function Height(heights: Heights, o: Opt): nat {
    if o.Some? && o.key in heights then heights[o.key] else 0
  }

  ghost predicate Level(shape: Shape, heights: Heights, k: int)
    requires k in shape
  {
    && k in heights && Height(heights, shape[k].left) == Height(heights, shape[k].right)
    && heights[k] == Height(heights, shape[k].left) + if shape[k].red then 0 else 1
  }

  ghost predicate IsRed(shape: Shape, o: Opt) {
    o.Some? && o.key in shape && shape[o.key].red
  }

  /** A red cell has no red child, except x. */
  ghost predicate RedOk(shape: Shape, k: int, x: Opt)
    requires k in shape
  {
    shape[k].red ==>
        (IsRed(shape, shape[k].left) ==> shape[k].left == x) && (IsRed(shape, shape[k].right) ==> shape[k].right == x)
  }

  /** Equal black heights, and no red cell with a red parent or at the root, except x. */
  ghost predicate Balanced(shape: Shape, heights: Heights, root: Opt, x: Opt) {
    && (forall k {:trigger Level(shape, heights, k)} | k in shape :: Level(shape, heights, k))
    && (forall k {:trigger RedOk(shape, k, x)} | k in shape :: RedOk(shape, k, x))
    && (IsRed(shape, root) ==> x == root)
  }

  lemma BalanceFacts(shape: Shape, heights: Heights, root: Opt, x: Opt, k: int)
    requires Balanced(shape, heights, root, x) && k in shape
    ensures Level(shape, heights, k) && RedOk(shape, k, x) && (IsRed(shape, root) ==> x == root)
  {
  }

  lemma InHeights(shape: Shape, heights: Heights, root: Opt, x: Opt, k: int)
    requires Balanced(shape, heights, root, x) && k in shape
    ensures k in heights && (IsRed(shape, root) ==> x == root)
  {
    BalanceFacts(shape, heights, root, x, k);
  }

  /** A new red leaf changes no black height; only it may have a red parent. */
  lemma LeafBalanced(shape: Shape, spans: Spans, heights: Heights, root: Opt, p: int, right: bool, x: int)
    requires Ordered(shape, spans, root) && Empty(shape, spans, p, right, x) && Balanced(shape, heights, root, None)
    ensures Balanced(Leafed(shape, p, right, x), heights[x := 0], root, Some(x))
  {
    hide Ordered;
    hide Balanced;
    hide Inside;
    var shape', heights' := Leafed(shape, p, right, x), heights[x := 0];
    forall k | k in shape' ensures Level(shape', heights', k) && RedOk(shape', k, Some(x)) {
      if k != x {
        BalanceFacts(shape, heights, root, None, k);
        CellFacts(shape, spans, root, k);
      }
    }
    BalanceFacts(shape, heights, root, None, p);
    RootIn(shape, spans, root);
    MakeBalanced(shape', heights', root, Some(x));
  }

  lemma RootIn(shape: Shape, spans: Spans, root: Opt)
    requires Ordered(shape, spans, root)
    ensures if root.None? then shape == map[] else root.key in shape && shape[root.key].parent.None?
  {
  }

  lemma MakeBalanced(shape: Shape, heights: Heights, root: Opt, x: Opt)
    requires forall k | k in shape :: Level(shape, heights, k) && RedOk(shape, k, x)
    requires IsRed(shape, root) ==> x == root
    ensures Balanced(shape, heights, root, x)
  {
  }

  ghost function Painted(shape: Shape, k: int, red: bool): Shape
    requires k in shape
  {
    shape[k := shape[k].(red := red)]
  }

  /** Same keys and links, whatever the colours. */
  ghost predicate SameTree(shape: Shape, shape': Shape) {
    shape'.Keys == shape.Keys && forall k | k in shape :: k in shape' && shape'[k] == shape[k].(red := shape'[k].red)
  }

  lemma PaintKeeps(shape: Shape, shape': Shape, spans: Spans, root: Opt)
    requires Ordered(shape, spans, root) && SameTree(shape, shape')
    ensures Ordered(shape', spans, root)
  {
    hide Laminar;
    hide Inside;
    assert forall m :: m in shape' <==> m in shape by { assert forall m :: m in shape' <==> m in shape'.Keys; }
    forall k | k in shape' ensures CellOk(shape', spans, root, k) { assert CellOk(shape, spans, root, k); }
  }

  /** Parent, uncle and grandparent of a red cell whose parent and uncle are red. */
  ghost predicate RedUncle(shape: Shape, x: int, p: int, g: int, s: bool) {
    && x in shape && p in shape && g in shape && shape[x].parent == Some(p) && shape[p].parent == Some(g)
    && Kid(shape[g], s) == Some(p) && IsRed(shape, Kid(shape[g], !s)) && shape[p].red && shape[x].red
  }

  ghost function Recoloured(shape: Shape, p: int, y: int, g: int): Shape
    requires p in shape && y in shape && g in shape
  {
    Painted(Painted(Painted(shape, p, false), y, false), g, true)
  }

  /** Painting parent and uncle black and the grandparent red moves the exception up to it. */
  lemma RecolourBalanced(shape: Shape, spans: Spans, heights: Heights, root: Opt, x: int, p: int, g: int, s: bool)
    requires Ordered(shape, spans, root) && Balanced(shape, heights, root, Some(x)) && RedUncle(shape, x, p, g, s)
    ensures var y := Kid(shape[g], !s).key;
            && p in heights && y in heights && y in shape && y != p && y != g && p != g && shape[y].parent == Some(g)
            && Balanced(Recoloured(shape, p, y, g), heights[p := heights[p] + 1][y := heights[y] + 1], root, Some(g))
  {
    hide Ordered;
    hide Balanced;
    hide Level;
    hide RedOk;
    var y := Kid(shape[g], !s).key;
    KidParent(shape, spans, root, g);
    KidParent(shape, spans, root, p);
    InHeights(shape, heights, root, Some(x), p);
    InHeights(shape, heights, root, Some(x), y);
    RootIn(shape, spans, root);
    var shape', heights' := Recoloured(shape, p, y, g), heights[p := heights[p] + 1][y := heights[y] + 1];
    forall k | k in shape' ensures Level(shape', heights', k) && RedOk(shape', k, Some(g)) {
      RecolourCell(shape, spans, heights, root, x, p, g, s, k);
    }
    MakeBalanced(shape', heights', root, Some(g));
  }

  lemma RecolourCell(shape: Shape, spans: Spans, heights: Heights, root: Opt, x: int, p: int, g: int, s: bool, k: int)
    requires Ordered(shape, spans, root) && Balanced(shape, heights, root, Some(x)) && RedUncle(shape, x, p, g, s)
             && k in shape
    requires var y := Kid(shape[g], !s).key; p in heights && y in heights && y in shape && y != p && y != g && p != g
    ensures var y := Kid(shape[g], !s).key;
            var shape', heights' := Recoloured(shape, p, y, g), heights[p := heights[p] + 1][y := heights[y] + 1];
            Level(shape', heights', k) && RedOk(shape', k, Some(g))
  {
    hide Ordered;
    hide Balanced;
    hide Level;
    hide RedOk;
    var y := Kid(shape[g], !s).key;
    BalanceFacts(shape, heights, root, Some(x), k);
    KidParent(shape, spans, root, k);
    KidParent(shape, spans, root, g);
    KidParent(shape, spans, root, p);
    if k == g {
      RecolourTop(shape, heights, x, p, y, g, s);
    } else {
      BalanceFacts(shape, heights, root, Some(x), g);
      RecolourOther(shape, heights, x, p, y, g, k);
    }
  }

  lemma RecolourTop(shape: Shape, heights: Heights, x: int, p: int, y: int, g: int, s: bool)
    requires p in shape && y in shape && g in shape && p in heights && y in heights && y != p && y != g && p != g
    requires Level(shape, heights, g) && RedOk(shape, g, Some(x)) && Kid(shape[g], s) == Some(p)
             && Kid(shape[g], !s) == Some(y)
    requires shape[p].red && shape[y].red && x != p
    ensures var shape', heights' := Recoloured(shape, p, y, g), heights[p := heights[p] + 1][y := heights[y] + 1];
            Level(shape', heights', g) && RedOk(shape', g, Some(g))
  {
  }

  lemma RecolourOther(shape: Shape, heights: Heights, x: int, p: int, y: int, g: int, k: int)
    requires p in shape && y in shape && g in shape && k in shape && p in heights && y in heights && y != p && y != g
             && p != g && k != g
    requires Level(shape, heights, k) && RedOk(shape, k, Some(x)) && shape[p].parent == Some(g)
             && shape[y].parent == Some(g)
    requires shape[p].red && shape[y].red && x in shape && shape[x].parent == Some(p)
    requires var l, r := shape[k].left, shape[k].right;
             && (l.Some? ==> l.key in shape && shape[l.key].parent == Some(k))
             && (r.Some? ==> r.key in shape && shape[r.key].parent == Some(k))
    ensures var shape', heights' := Recoloured(shape, p, y, g), heights[p := heights[p] + 1][y := heights[y] + 1];
            Level(shape', heights', k) && RedOk(shape', k, Some(g))
  {
  }

  /** A cell's children point back to it. */
  lemma KidParent(shape: Shape, spans: Spans, root: Opt, k: int)
    requires Ordered(shape, spans, root) && k in shape
    ensures var l, r := shape[k].left, shape[k].right;
            && (l.Some? ==> l.key in shape && shape[l.key].parent == Some(k) && l.key != k)
            && (r.Some? ==> r.key in shape && shape[r.key].parent == Some(k) && r.key != k)
            && (l.Some? ==> l != r)
            && (shape[k].parent.Some? ==>
                 shape[k].parent.key in shape
                 && (shape[shape[k].parent.key].left == Some(k) || shape[shape[k].parent.key].right == Some(k)))
            && (shape[k].parent.None? ==> root == Some(k))
  {
    hide Ordered;
    CellFacts(shape, spans, root, k);
    if shape[k].left.Some? { CellFacts(shape, spans, root, shape[k].left.key); }
    if shape[k].right.Some? { CellFacts(shape, spans, root, shape[k].right.key); }
  }

  /** Turning a red cell under its red child makes the cell itself the exception. */
  lemma InnerTurn(shape: Shape, shape': Shape, spans: Spans, heights: Heights, root: Opt, n: int, s: bool)
    requires Ordered(shape, spans, root) && n in shape && Kid(shape[n], s).Some? && Rotatable(shape, n, s)
             && Turned(shape, shape', n, s)
    requires shape[n].red && IsRed(shape, Kid(shape[n], s)) && Balanced(shape, heights, root, Kid(shape[n], s))
             && shape[n].parent.Some?
    ensures Balanced(shape', heights, root, Some(n)) && RootAfter(shape, root, n, s) == root
  {
    hide Ordered;
    hide Balanced;
    hide Turned;
    hide Level;
    hide RedOk;
    hide TurnedCell;
    var p := Kid(shape[n], s).key;
    TurnedIs(shape, shape', n, s, n);
    forall k | k in shape' ensures Level(shape', heights, k) && RedOk(shape', k, Some(n)) {
      InnerCell(shape, shape', spans, heights, root, n, s, k);
    }
    RootIn(shape, spans, root);
    TurnedIs(shape, shape', n, s, root.key);
    InHeights(shape, heights, root, Some(p), p);
    TurnedRed(shape, shape', n, s, root.key);
    KidParent(shape, spans, root, n);
    MakeBalanced(shape', heights, root, Some(n));
  }

  lemma TurnedRed(shape: Shape, shape': Shape, n: int, s: bool, k: int)
    requires Rotatable(shape, n, s) && k in shape && TurnedCell(shape, shape', n, s, k)
    ensures k in shape' && shape'[k].red == shape[k].red
  {
  }

  lemma InnerCell(shape: Shape, shape': Shape, spans: Spans, heights: Heights, root: Opt, n: int, s: bool, k: int)
    requires Ordered(shape, spans, root) && n in shape && Kid(shape[n], s).Some? && Rotatable(shape, n, s)
             && Turned(shape, shape', n, s)
    requires shape[n].red && IsRed(shape, Kid(shape[n], s)) && Balanced(shape, heights, root, Kid(shape[n], s))
             && shape[n].parent.Some? && k in shape
    ensures k in shape' && Level(shape', heights, k) && RedOk(shape', k, Some(n))
  {
    hide Ordered;
    hide Balanced;
    hide Turned;
    var p, up := Kid(shape[n], s).key, shape[n].parent.key;
    KidParent(shape, spans, root, n);
    KidParent(shape, spans, root, p);
    KidParent(shape, spans, root, k);
    BalanceFacts(shape, heights, root, Some(p), k);
    BalanceFacts(shape, heights, root, Some(p), n);
    BalanceFacts(shape, heights, root, Some(p), p);
    BalanceFacts(shape, heights, root, Some(p), up);
    TurnedIs(shape, shape', n, s, k);
    KidColours(shape, shape', n, s, k);
  }

  /** Colours of children after a rotation are as before it. */
  lemma KidColours(shape: Shape, shape': Shape, n: int, s: bool, k: int)
    requires Rotatable(shape, n, s) && Turned(shape, shape', n, s) && k in shape && k in shape'
    ensures IsRed(shape', shape'[k].left) == IsRed(shape, shape'[k].left)
            && IsRed(shape', shape'[k].right) == IsRed(shape, shape'[k].right)
  {
    hide Turned;
    hide TurnedCell;
    forall o: Opt ensures IsRed(shape', o) == IsRed(shape, o) {
      TurnedIs(shape, shape', n, s, k);
      if o.Some? && o.key in shape {
        TurnedIs(shape, shape', n, s, o.key);
        TurnedRed(shape, shape', n, s, o.key);
      }
    }
  }

  /** A red cell with a red child on its outer side and a black or no uncle, below a black one. */
  ghost predicate OuterRed(shape: Shape, x: int, p: int, g: int, s: bool) {
    && x in shape && p in shape && g in shape && p != g && Kid(shape[g], s) == Some(p) && Kid(shape[p], s) == Some(x)
    && shape[p].red && shape[x].red && !IsRed(shape, Kid(shape[g], !s))
  }

  /** Painting the parent black and the grandparent red, and turning them, removes the exception. */
  lemma OuterTurn(shape: Shape, shape': Shape, spans: Spans, heights: Heights, root: Opt, x: int, p: int, g: int,
                  s: bool)
    requires Ordered(shape, spans, root) && Balanced(shape, heights, root, Some(x)) && OuterRed(shape, x, p, g, s)
    requires var a := Painted(Painted(shape, p, false), g, true); Rotatable(a, g, s) && Turned(a, shape', g, s)
    ensures p in heights && g in heights
    ensures Balanced(shape', heights[p := heights[p] + 1][g := heights[p]], RootAfter(shape, root, g, s), None)
    ensures p in shape' && !shape'[p].red && x in shape' && shape'[x].parent == Some(p)
  {
    hide Ordered;
    hide Balanced;
    hide Turned;
    hide Level;
    hide RedOk;
    hide TurnedCell;
    var a := Painted(Painted(shape, p, false), g, true);
    InHeights(shape, heights, root, Some(x), p);
    InHeights(shape, heights, root, Some(x), g);
    var heights' := heights[p := heights[p] + 1][g := heights[p]];
    var root' := RootAfter(shape, root, g, s);
    TurnedIs(a, shape', g, s, g);
    forall k | k in shape' ensures Level(shape', heights', k) && RedOk(shape', k, None) {
      OuterCell(shape, shape', spans, heights, root, x, p, g, s, k);
    }
    RootIn(shape, spans, root);
    KidParent(shape, spans, root, g);
    KidParent(shape, spans, root, p);
    TurnedIs(a, shape', g, s, root.key);
    TurnedRed(a, shape', g, s, root.key);
    TurnedIs(a, shape', g, s, p);
    TurnedRed(a, shape', g, s, p);
    MakeBalanced(shape', heights', root', None);
    OuterChild(shape, a, shape', spans, root, x, p, g, s);
  }

  lemma OuterChild(shape: Shape, a: Shape, shape': Shape, spans: Spans, root: Opt, x: int, p: int, g: int, s: bool)
    requires Ordered(shape, spans, root) && OuterRed(shape, x, p, g, s)
             && a == Painted(Painted(shape, p, false), g, true)
    requires Rotatable(a, g, s) && Turned(a, shape', g, s)
    ensures x in shape' && shape'[x].parent == Some(p)
  {
    hide Ordered;
    hide Turned;
    KidParent(shape, spans, root, g);
    KidParent(shape, spans, root, p);
    TurnedIs(a, shape', g, s, x);
  }

  lemma OuterCell(shape: Shape, shape': Shape, spans: Spans, heights: Heights, root: Opt, x: int, p: int, g: int,
                  s: bool, k: int)
    requires Ordered(shape, spans, root) && Balanced(shape, heights, root, Some(x)) && OuterRed(shape, x, p, g, s)
    requires var a := Painted(Painted(shape, p, false), g, true); Rotatable(a, g, s) && Turned(a, shape', g, s)
    requires p in heights && k in shape
    ensures k in shape' && Level(shape', heights[p := heights[p] + 1][g := heights[p]], k) && RedOk(shape', k, None)
  {
    hide Ordered;
    hide Balanced;
    hide Turned;
    hide TurnedCell;
    hide Level;
    hide RedOk;
    var a := Painted(Painted(shape, p, false), g, true);
    OuterFacts(shape, spans, heights, root, x, p, g, s);
    TurnedIs(a, shape', g, s, k);
    KidColours(a, shape', g, s, k);
    BalanceFacts(shape, heights, root, Some(x), k);
    if k == p || k == g {
      OuterPair(shape, shape', heights, p, g, s, k);
    } else {
      KidParent(shape, spans, root, k);
      KidParent(shape, spans, root, g);
      OuterOther(shape, shape', heights, x, p, g, s, k);
    }
  }

  /** The surroundings of the exception, before the last rotation. */
  lemma OuterFacts(shape: Shape, spans: Spans, heights: Heights, root: Opt, x: int, p: int, g: int, s: bool)
    requires Ordered(shape, spans, root) && Balanced(shape, heights, root, Some(x)) && OuterRed(shape, x, p, g, s)
    ensures var c := Kid(shape[p], !s); var y := Kid(shape[g], !s);
            && p in heights && g in heights && !shape[g].red && !IsRed(shape, c) && heights[g] == heights[p] + 1
            && Height(heights, c) == Height(heights, Some(x)) == Height(heights, y) == heights[p] && x in heights
            && c != Some(p) && c != Some(g) && y != Some(p) && y != Some(g) && x != p && x != g
            && shape[x].parent == Some(p)
            && shape[p].parent == Some(g) && (c.Some? ==> c.key in shape && shape[c.key].parent == Some(p))
            && c != Some(x)
            && (y.Some? ==> y.key in shape && shape[y.key].parent == Some(g))
  {
    hide Ordered;
    hide Balanced;
    KidParent(shape, spans, root, g);
    KidParent(shape, spans, root, p);
    BalanceFacts(shape, heights, root, Some(x), g);
    BalanceFacts(shape, heights, root, Some(x), p);
    BalanceFacts(shape, heights, root, Some(x), x);
  }

  lemma OuterPair(shape: Shape, shape': Shape, heights: Heights, p: int, g: int, s: bool, k: int)
    requires p in shape && g in shape && p in heights && g in heights && p != g && (k == p || k == g)
             && Kid(shape[g], s) == Some(p)
    requires var a := Painted(Painted(shape, p, false), g, true); Rotatable(a, g, s) && TurnedCell(a, shape', g, s, k)
    requires var c := Kid(shape[p], !s); var y := Kid(shape[g], !s); var x := Kid(shape[p], s);
             && !IsRed(shape, c) && !IsRed(shape, y)
             && Height(heights, c) == Height(heights, x) == Height(heights, y) == heights[p]
             && c != Some(p) && c != Some(g) && y != Some(p) && y != Some(g) && x != Some(p) && x != Some(g)
    requires var a := Painted(Painted(shape, p, false), g, true);
             k in shape' && IsRed(shape', shape'[k].left) == IsRed(a, shape'[k].left)
               && IsRed(shape', shape'[k].right) == IsRed(a, shape'[k].right)
    ensures Level(shape', heights[p := heights[p] + 1][g := heights[p]], k) && RedOk(shape', k, None)
  {
  }

  lemma OuterOther(shape: Shape, shape': Shape, heights: Heights, x: int, p: int, g: int, s: bool, k: int)
    requires p in shape && g in shape && k in shape && p in heights && g in heights && p != g && k != p && k != g
    requires Kid(shape[g], s) == Some(p) && x in shape && shape[x].parent == Some(p) && shape[p].parent == Some(g)
             && heights[g] == heights[p] + 1
    requires var a := Painted(Painted(shape, p, false), g, true); Rotatable(a, g, s) && TurnedCell(a, shape', g, s, k)
    requires var a := Painted(Painted(shape, p, false), g, true);
             k in shape' && IsRed(shape', shape'[k].left) == IsRed(a, shape'[k].left)
               && IsRed(shape', shape'[k].right) == IsRed(a, shape'[k].right)
    requires Level(shape, heights, k) && RedOk(shape, k, Some(x))
    requires var l, r := shape[k].left, shape[k].right;
             && (l.Some? ==> l.key in shape && shape[l.key].parent == Some(k))
             && (r.Some? ==> r.key in shape && shape[r.key].parent == Some(k))
    requires shape[g].parent == Some(k) ==> (shape[k].left == Some(g) || shape[k].right == Some(g))
    requires shape[k].left.Some? ==> shape[k].left != shape[k].right
    ensures Level(shape', heights[p := heights[p] + 1][g := heights[p]], k) && RedOk(shape', k, None)
  {
    hide Rotatable;
  }

  /** At the end the root is painted black. */
  lemma RootBlack(shape: Shape, spans: Spans, heights: Heights, root: Opt, x: int)
    requires Ordered(shape, spans, root) && Balanced(shape, heights, root, Some(x)) && root.Some? && root.key in shape
    requires x in shape && (shape[x].parent.None? || !IsRed(shape, shape[x].parent))
    ensures root.key in heights
    ensures Balanced(Painted(shape, root.key, false),
              heights[root.key := Height(heights, Kid(shape[root.key], false)) + 1], root, None)
  {
    hide Ordered;
    hide Balanced;
    var r := root.key;
    RootIn(shape, spans, root);
    BalanceFacts(shape, heights, root, Some(x), r);
    var shape', heights' := Painted(shape, r, false), heights[r := Height(heights, Kid(shape[r], false)) + 1];
    KidParent(shape, spans, root, r);
    forall k | k in shape' ensures Level(shape', heights', k) && RedOk(shape', k, None) {
      KidParent(shape, spans, root, k);
      BalanceFacts(shape, heights, root, Some(x), k);
    }
    MakeBalanced(shape', heights', root, None);
  }

  // ----- Subtrees -----

  /** The keys of the subtree whose interval is s. */
  ghost function Within(shape: Shape, s: Span): set<int> {
    set k | k in shape && Inside(k, s)
  }

  /** The keys below a link. */
  ghost function Below(shape: Shape, spans: Spans, o: Opt): set<int> {
    if o.Some? && o.key in spans then Within(shape, spans[o.key]) else {}
  }

  /** A subtree is its cell and the two disjoint subtrees of its children. */
  lemma Divides(shape: Shape, spans: Spans, root: Opt, k: int)
    requires Ordered(shape, spans, root) && k in shape
    ensures var l, r := Below(shape, spans, shape[k].left), Below(shape, spans, shape[k].right);
            && Below(shape, spans, Some(k)) == {k} + l + r && k !in l && k !in r && l !! r
  {
    hide Ordered;
    CellFacts(shape, spans, root, k);
    KidKeys(shape, spans, k, false);
    KidKeys(shape, spans, k, true);
    hide KidOk;
    hide ParentOk;
    assert forall m ::
             Inside(m, spans[k]) <==>
             m == k || Inside(m, Part(spans[k], k, false)) || Inside(m, Part(spans[k], k, true));
  }

  lemma KidKeys(shape: Shape, spans: Spans, k: int, right: bool)
    requires k in shape && k in spans && KidOk(shape, spans, k, right)
    ensures Below(shape, spans, Kid(shape[k], right)) == Within(shape, Part(spans[k], k, right))
  {
    hide Inside;
  }

  lemma RootBelow(shape: Shape, spans: Spans, root: Opt)
    requires Ordered(shape, spans, root)
    ensures Below(shape, spans, root) == shape.Keys
  {
    hide Ordered;
    RootIn(shape, spans, root);
    if root.Some? {
      CellFacts(shape, spans, root, root.key);
    }
  }

  /** A child's subtree is smaller than its parent's. */
  lemma BelowShrinks(shape: Shape, spans: Spans, root: Opt, k: int)
    requires Ordered(shape, spans, root) && k in shape && shape[k].parent.Some?
    ensures shape[k].parent.key in shape
            && Below(shape, spans, Some(k)) < Below(shape, spans, shape[k].parent) <= shape.Keys
  {
    hide Ordered;
    KidParent(shape, spans, root, k);
    var p := shape[k].parent.key;
    Divides(shape, spans, root, p);
    var l, r := Below(shape, spans, shape[p].left), Below(shape, spans, shape[p].right);
    assert p in Below(shape, spans, Some(p));
  }

  /** A subtree of black height b has at least 2^b - 1 cells. */
  lemma {:induction false} EnoughCells(shape: Shape, spans: Spans, heights: Heights, root: Opt, o: Opt)
    requires Ordered(shape, spans, root) && Balanced(shape, heights, root, None) && (o.Some? ==> o.key in shape)
    ensures |Below(shape, spans, o)| + 1 >= Pow2(Height(heights, o))
    decreases Below(shape, spans, o)
  {
    hide Ordered;
    hide Balanced;
    hide Below;
    if o.Some? {
      var k := o.key;
      Divides(shape, spans, root, k);
      KidParent(shape, spans, root, k);
      BalanceFacts(shape, heights, root, None, k);
      EnoughCells(shape, spans, heights, root, shape[k].left);
      EnoughCells(shape, spans, heights, root, shape[k].right);
      var l, r := Below(shape, spans, shape[k].left), Below(shape, spans, shape[k].right);
      assert |{k} + l + r| == 1 + |l| + |r|;
    }
  }
}
