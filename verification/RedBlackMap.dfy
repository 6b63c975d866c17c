/** The kernel's map: a red-black tree of nodes with parent pointers. */
module RedBlackMap {
  import opened Arithmetic
  import Options
  import opened RedBlack

  class MapNode<V> {
    var key: int
    var value: V
    var red: bool
    var parent: MapNode?<V>
    var left: MapNode?<V>
    var right: MapNode?<V>

    constructor (key: int, value: V)
      ensures this.key == key && this.value == value && red && parent == null && left == null && right == null
    {
      this.key, this.value, red := key, value, true;
      parent, left, right := null, null, null;
    }
  }

  /** The node a link stands for. */
  ghost function Ref<V>(nodes: map<int, MapNode<V>>, o: Opt): MapNode?<V> {
    if o.Some? && o.key in nodes then nodes[o.key] else null
  }

  /** Node n is as cell c and value v say. */
  ghost predicate Mirrors<V>(nodes: map<int, MapNode<V>>, n: MapNode<V>, k: int, c: Cell, v: V)
    reads n
  {
    && n.key == k && n.value == v && n.red == c.red
    && n.left == Ref(nodes, c.left) && n.right == Ref(nodes, c.right) && n.parent == Ref(nodes, c.parent)
  }

  /** One more node leaves the others with their links. */
  lemma OneNodeMore<V>(nodes: map<int, MapNode<V>>, n: MapNode<V>, k: int, c: Cell, v: V, key: int, nw: MapNode<V>)
    requires Mirrors(nodes, n, k, c, v) && key !in nodes
    requires c.left != Some(key) && c.right != Some(key) && c.parent != Some(key)
    ensures Mirrors(nodes[key := nw], n, k, c, v)
  {
  }

  lemma IsNew<V>(nodes: map<int, MapNode<V>>, nw: MapNode<V>, key: int, value: V)
    requires nw.key == key && nw.value == value && nw.red && nw.parent == null && nw.left == null && nw.right == null
    ensures Mirrors(nodes[key := nw], nw, key, Cell(None, None, None, true), value)
  {
  }

  class Map<V> {
    var root: MapNode?<V>
    var count: nat
    ghost var nodes: map<int, MapNode<V>>
    ghost var content: map<int, V>
    ghost var shape: Shape
    ghost var spans: Spans
    ghost var heights: Heights
    ghost var rootKey: Opt

    /** The nodes are those of the tree, with exactly its links. */
    ghost predicate Linked()
      reads this`root, this`nodes, this`content, this`shape, this`rootKey, nodes.Values
    {
      && nodes.Keys == shape.Keys == content.Keys && root == Ref(nodes, rootKey)
      && forall k {:trigger nodes[k]} | k in nodes ::
           k in shape && k in content && Mirrors(nodes, nodes[k], k, shape[k], content[k])
    }

    ghost predicate Valid()
      reads this, nodes.Values
    {
      && Linked() && Ordered(shape, spans, rootKey) && Balanced(shape, heights, rootKey, None)
      && count == |content|
    }

    constructor ()
      ensures Valid() && content == map[] && count == 0
    {
      root, count := null, 0;
      nodes, content, shape, spans, heights, rootKey := map[], map[], map[], map[], map[], None;
    }

    // ----- Node setters -----

    /** Pointer n leads to the node of key k, if it has one, and is null otherwise. */
    ghost predicate Is(n: MapNode?<V>, k: Opt)
      reads this`nodes
    {
      n == Ref(nodes, k) && (k.Some? ==> k.key in nodes)
    }

    /** The cell of key k changes with its node. */
    ghost method SetCell(n: MapNode<V>, k: int, c: Cell)
      requires nodes.Keys == shape.Keys == content.Keys && root == Ref(nodes, rootKey) && Is(n, Some(k))
      requires forall m {:trigger nodes[m]} | m in nodes && m != k ::
                 m in shape && m in content && Mirrors(nodes, nodes[m], m, shape[m], content[m])
      requires k in content && Mirrors(nodes, n, k, c, content[k])
      modifies this`shape
      ensures Linked() && shape == old(shape)[k := c]
    {
      shape := shape[k := c];
    }

    /** Makes kid, if any, the left child of n. */
    method SetLeft(n: MapNode<V>, kid: MapNode?<V>, ghost kn: int, ghost kk: Opt)
      requires Linked() && Is(n, Some(kn)) && Is(kid, kk)
      modifies n`left, (if kid == null then {} else {kid})`parent, this`shape
      ensures Linked() && kn in old(shape) && (kk.Some? ==> kk.key in old(shape))
              && shape == Adopted(old(shape), kn, false, kk)
    {
      assert nodes[kn] == n;
      n.left := kid;
      SetCell(n, kn, shape[kn].(left := kk));
      if kid != null {
        assert nodes[kk.key] == kid;
        kid.parent := n;
        SetCell(kid, kk.key, shape[kk.key].(parent := Some(kn)));
      }
    }

    /** Makes kid, if any, the right child of n. */
    method SetRight(n: MapNode<V>, kid: MapNode?<V>, ghost kn: int, ghost kk: Opt)
      requires Linked() && Is(n, Some(kn)) && Is(kid, kk)
      modifies n`right, (if kid == null then {} else {kid})`parent, this`shape
      ensures Linked() && kn in old(shape) && (kk.Some? ==> kk.key in old(shape))
              && shape == Adopted(old(shape), kn, true, kk)
    {
      assert nodes[kn] == n;
      n.right := kid;
      SetCell(n, kn, shape[kn].(right := kk));
      if kid != null {
        assert nodes[kk.key] == kid;
        kid.parent := n;
        SetCell(kid, kk.key, shape[kk.key].(parent := Some(kn)));
      }
    }

    method Paint(n: MapNode<V>, red: bool, ghost k: int)
      requires Linked() && Is(n, Some(k))
      modifies n`red, this`shape
      ensures Linked() && k in old(shape) && shape == Painted(old(shape), k, red)
    {
      assert nodes[k] == n;
      n.red := red;
      SetCell(n, k, shape[k].(red := red));
    }

    /** What a linked tree says about the node of key k. */
    lemma NodeLinks(k: int)
      requires Linked() && k in nodes
      ensures var n := nodes[k];
              k in shape && k in content && n.key == k && n.value == content[k] && n.red == shape[k].red
                && n.left == Ref(nodes, shape[k].left)
              && n.right == Ref(nodes, shape[k].right) && n.parent == Ref(nodes, shape[k].parent)
    {
    }

    lemma KeysAgree()
      requires Linked()
      ensures nodes.Keys == shape.Keys == content.Keys && root == Ref(nodes, rootKey)
      ensures forall k :: k in nodes <==> k in shape
    {
      assert forall k :: k in nodes <==> k in nodes.Keys;
    }

    /** Different keys have different nodes. */
    lemma OneKey(o: Opt, k: int)
      requires Linked() && k in nodes && o.Some? && o.key in nodes
      ensures Ref(nodes, o) == nodes[k] <==> o == Some(k)
    {
      NodeLinks(k);
      NodeLinks(o.key);
    }

    /** Makes pivot the root. */
    method BecomeRoot(pivot: MapNode<V>, ghost p: int)
      requires Linked() && Is(pivot, Some(p))
      modifies this`root, this`rootKey, this`shape, pivot`parent
      ensures Linked() && p in old(shape) && shape == old(shape)[p := old(shape)[p].(parent := None)]
              && rootKey == Some(p)
    {
      hide Linked;
      OthersApart(pivot, p);
      root := pivot;
      rootKey := Some(p);
      root.parent := null;
      SetCell(pivot, p, shape[p].(parent := None));
    }

    /** Makes p, if the node n it replaces has a parent, the child of that parent, and the root otherwise. */
    method HangPivot(n: MapNode<V>, pivot: MapNode<V>, ghost k: int, ghost p: int)
      requires Linked() && Is(n, Some(k)) && Is(pivot, Some(p)) && p != k
      requires k in shape
               && (shape[k].parent.Some? ==>
                 shape[k].parent.key in shape && shape[k].parent.key != p && shape[k].parent.key != k)
      requires shape[k].parent.Some? ==> var c := shape[shape[k].parent.key].left; c.Some? ==> c.key in shape
      modifies this`root, this`rootKey, this`shape, nodes.Values
      ensures Linked() && k in old(shape) && p in old(shape)
              && (old(shape)[k].parent.Some? ==> old(shape)[k].parent.key in old(shape))
      ensures shape == Hung(old(shape), k, p) && rootKey == if old(shape)[k].parent.None? then Some(p) else old(rootKey)
    {
      hide Linked;
      hide Mirrors;
      KeysAgree();
      NodeLinks(k);
      if n.parent == null {
        BecomeRoot(pivot, p);
      } else {
        ghost var up := shape[k].parent.key;
        NodeLinks(up);
        if shape[up].left.Some? { OneKey(shape[up].left, k); }
        if n == n.parent.left {
          SetLeft(n.parent, pivot, up, Some(p));
        } else {
          SetRight(n.parent, pivot, up, Some(p));
        }
      }
    }

    /** The second half of a rotation: pivot's inner subtree goes to n, and n below pivot. */
    method LowerToRight(n: MapNode<V>, pivot: MapNode<V>, ghost k: int, ghost p: int)
      requires Linked() && Is(n, Some(k)) && Is(pivot, Some(p)) && p in shape
               && (shape[p].right.Some? ==> shape[p].right.key in shape)
      modifies this`shape, nodes.Values
      ensures Linked() && k in old(shape) && p in Adopted(old(shape), k, false, old(shape)[p].right)
      ensures shape == Adopted(Adopted(old(shape), k, false, old(shape)[p].right), p, !false, Some(k))
    {
      hide Linked;
      hide Mirrors;
      hide Adopted;
      KeysAgree();
      NodeLinks(p);
      SetLeft(n, pivot.right, k, shape[p].right);
      SetRight(pivot, n, p, Some(k));
    }

    method RotateRight(n: MapNode<V>, ghost k: int)
      requires Linked() && Is(n, Some(k)) && Ordered(shape, spans, rootKey) && k in shape && shape[k].left.Some?
      modifies this`root, this`rootKey, this`shape, nodes.Values
      ensures Linked() && Rotatable(old(shape), k, false) && shape == Rotated(old(shape), k, false)
      ensures rootKey == RootAfter(old(shape), old(rootKey), k, false)
    {
      ghost var was, p := shape, shape[k].left.key;
      hide Ordered;
      hide Linked;
      hide Mirrors;
      hide Hung;
      hide Adopted;
      AroundRotation(was, spans, rootKey, k, false);
      HungCell(was, k, p);
      KidParent(was, spans, rootKey, p);
      KeysAgree();
      KidParent(was, spans, rootKey, k);
      if was[k].parent.Some? { KidParent(was, spans, rootKey, was[k].parent.key); }
      NodeLinks(k);
      var pivot := n.left;
      HangPivot(n, pivot, k, p);
      LowerToRight(n, pivot, k, p);
    }

    /** The second half of a rotation: pivot's inner subtree goes to n, and n below pivot. */
    method LowerToLeft(n: MapNode<V>, pivot: MapNode<V>, ghost k: int, ghost p: int)
      requires Linked() && Is(n, Some(k)) && Is(pivot, Some(p)) && p in shape
               && (shape[p].left.Some? ==> shape[p].left.key in shape)
      modifies this`shape, nodes.Values
      ensures Linked() && k in old(shape) && p in Adopted(old(shape), k, true, old(shape)[p].left)
      ensures shape == Adopted(Adopted(old(shape), k, true, old(shape)[p].left), p, !true, Some(k))
    {
      hide Linked;
      hide Mirrors;
      hide Adopted;
      KeysAgree();
      NodeLinks(p);
      SetRight(n, pivot.left, k, shape[p].left);
      SetLeft(pivot, n, p, Some(k));
    }

    method RotateLeft(n: MapNode<V>, ghost k: int)
      requires Linked() && Is(n, Some(k)) && Ordered(shape, spans, rootKey) && k in shape && shape[k].right.Some?
      modifies this`root, this`rootKey, this`shape, nodes.Values
      ensures Linked() && Rotatable(old(shape), k, true) && shape == Rotated(old(shape), k, true)
      ensures rootKey == RootAfter(old(shape), old(rootKey), k, true)
    {
      ghost var was, p := shape, shape[k].right.key;
      hide Ordered;
      hide Linked;
      hide Mirrors;
      hide Hung;
      hide Adopted;
      AroundRotation(was, spans, rootKey, k, true);
      HungCell(was, k, p);
      KidParent(was, spans, rootKey, p);
      KeysAgree();
      KidParent(was, spans, rootKey, k);
      if was[k].parent.Some? { KidParent(was, spans, rootKey, was[k].parent.key); }
      NodeLinks(k);
      var pivot := n.right;
      HangPivot(n, pivot, k, p);
      LowerToLeft(n, pivot, k, p);
    }

    // ----- Rebalancing after an insertion -----

    /** The tree is sound except that x, red, may have a red parent or be the root. */
    ghost predicate Fixing(x: int)
      reads this`shape, this`spans, this`heights, this`rootKey
    {
      x in shape && shape[x].red && Ordered(shape, spans, rootKey) && Balanced(shape, heights, rootKey, Some(x))
    }

    /** Paints parent and uncle black and the grandparent red. */
    method PaintFamily(p: MapNode<V>, y: MapNode<V>, g: MapNode<V>, ghost x: int, ghost kp: int, ghost ky: int,
                       ghost kg: int, ghost s: bool)
      requires Linked() && Is(p, Some(kp)) && Is(y, Some(ky)) && Is(g, Some(kg))
      requires Fixing(x) && RedUncle(shape, x, kp, kg, s) && Kid(shape[kg], !s) == Some(ky)
      modifies this`shape, this`heights, nodes.Values
      ensures Linked() && Fixing(kg) && SameTree(old(shape), shape)
      ensures old(shape).Keys - Below(shape, spans, Some(kg)) < old(shape.Keys - Below(shape, spans, Some(x)))
    {
      hide Linked;
      hide Mirrors;
      hide Ordered;
      hide Balanced;
      hide Below;
      ghost var was := shape;
      RecolourBalanced(shape, spans, heights, rootKey, x, kp, kg, s);
      BelowShrinks(shape, spans, rootKey, x);
      BelowShrinks(shape, spans, rootKey, kp);
      Paint(p, false, kp);
      Paint(y, false, ky);
      Paint(g, true, kg);
      PaintKeeps(was, shape, spans, rootKey);
      BelowPainted(was, shape, spans, Some(kg));
      heights := heights[kp := heights[kp] + 1][ky := heights[ky] + 1];
    }

    /** The books after the inner turn. */
    ghost method InnerTurned(was: Shape, root0: Opt, k: int, s: bool)
      requires Ordered(was, spans, root0) && k in was && was[k].red && Kid(was[k], s).Some?
               && IsRed(was, Kid(was[k], s)) && was[k].parent.Some?
      requires Balanced(was, heights, root0, Kid(was[k], s))
      requires Rotatable(was, k, s) && shape == Rotated(was, k, s) && rootKey == RootAfter(was, root0, k, s)
      modifies this`spans
      ensures Fixing(k) && shape.Keys == was.Keys && shape[k].parent == Kid(was[k], s) && InnerAfter(was, shape, k, s)
    {
      hide Ordered;
      hide Balanced;
      hide Rotated;
      hide Turned;
      RotationWhole(was, spans, root0, k, s);
      InnerTurn(was, shape, spans, heights, root0, k, s);
      AroundRotation(was, spans, root0, k, s);
      spans := SpansAfter(was, spans, k, s);
      AfterInner(was, shape, k, s);
    }

    /** The tree is sound, and red x has a black parent. */
    ghost predicate Done(x: int)
      reads this`shape, this`spans, this`heights, this`rootKey
    {
      && x in shape && shape[x].red && Ordered(shape, spans, rootKey) && Balanced(shape, heights, rootKey, None)
      && shape[x].parent.Some? && !IsRed(shape, shape[x].parent)
    }

    /** The books after the outer turn. */
    ghost method OuterTurned(was: Shape, root0: Opt, x: int, p: int, g: int, s: bool)
      requires Ordered(was, spans, root0) && Balanced(was, heights, root0, Some(x)) && OuterRed(was, x, p, g, s)
      requires var a := Painted(Painted(was, p, false), g, true);
               Rotatable(a, g, s) && shape == Rotated(a, g, s) && rootKey == RootAfter(a, root0, g, s)
      modifies this`spans, this`heights
      ensures Done(x) && shape.Keys == was.Keys
    {
      hide Ordered;
      hide Balanced;
      hide Rotated;
      hide Turned;
      hide Rotatable;
      var a := Painted(Painted(was, p, false), g, true);
      PaintKeeps(was, a, spans, root0);
      OuterFacts(was, spans, heights, root0, x, p, g, s);
      RotationWhole(a, spans, root0, g, s);
      OuterTurn(was, shape, spans, heights, root0, x, p, g, s);
      OuterKeys(was, a, shape, x, g, s);
      spans := SpansAfter(a, spans, g, s);
      heights := heights[p := heights[p] + 1][g := heights[p]];
    }

    /** Pointers from x up to its grandparent. */
    lemma Ancestors(x: MapNode<V>, k: int, kp: int, kg: int)
      requires Linked() && Is(x, Some(k)) && RedParent(shape, k, kp, kg)
               && (shape[kg].left == Some(kp) || shape[kg].right == Some(kp))
      requires Ordered(shape, spans, rootKey)
      ensures x.parent != null && x.parent.parent != null && Is(x.parent, Some(kp)) && Is(x.parent.parent, Some(kg))
      ensures x.parent.right == x <==> shape[kp].right == Some(k)
      ensures x.parent.left == x <==> shape[kp].left == Some(k)
      ensures shape[kp].left == Some(k) || shape[kp].right == Some(k)
    {
      KeysAgree();
      KidParent(shape, spans, rootKey, kp);
      KidParent(shape, spans, rootKey, k);
      NodeLinks(k);
      NodeLinks(kp);
      if shape[kp].right.Some? { OneKey(shape[kp].right, k); }
      if shape[kp].left.Some? { OneKey(shape[kp].left, k); }
    }

    /** The pointers from x up, by the links alone. */
    lemma SameAncestors(x: MapNode<V>, k: int, kp: int, kg: int)
      requires Linked() && Is(x, Some(k)) && k in shape && shape[k].parent == Some(kp) && kp in shape
               && shape[kp].parent == Some(kg) && kg in shape
      ensures x.parent != null && x.parent.parent != null && Is(x.parent, Some(kp)) && Is(x.parent.parent, Some(kg))
    {
      KeysAgree();
      NodeLinks(k);
      NodeLinks(kp);
    }

    /** Paints the parent of x black and the grandparent red, and turns them to the right. */
    method OuterRight(x: MapNode<V>, ghost k: int, ghost kp: int, ghost kg: int)
      requires Linked() && Is(x, Some(k)) && Fixing(k) && RedParent(shape, k, kp, kg)
      requires shape[kg].left == Some(kp) && shape[kp].left == Some(k) && !IsRed(shape, shape[kg].right)
      modifies this`root, this`rootKey, this`shape, this`spans, this`heights, nodes.Values
      ensures Linked() && Done(k) && shape.Keys == old(shape.Keys)
    {
      hide Linked;
      hide Mirrors;
      hide Ordered;
      hide Balanced;
      hide Rotated;
      hide Rotatable;
      ghost var was, root0 := shape, rootKey;
      Distances(was, spans, heights, root0, k, kp, kg, false);
      Ancestors(x, k, kp, kg);
      Paint(x.parent, false, kp);
      SameAncestors(x, k, kp, kg);
      Paint(x.parent.parent, true, kg);
      SameAncestors(x, k, kp, kg);
      PaintKeeps(was, shape, spans, rootKey);
      RotateRight(x.parent.parent, kg);
      OuterTurned(was, root0, k, kp, kg, false);
    }

    /** Paints the parent of x black and the grandparent red, and turns them to the left. */
    method OuterLeft(x: MapNode<V>, ghost k: int, ghost kp: int, ghost kg: int)
      requires Linked() && Is(x, Some(k)) && Fixing(k) && RedParent(shape, k, kp, kg)
      requires shape[kg].right == Some(kp) && shape[kp].right == Some(k) && !IsRed(shape, shape[kg].left)
      modifies this`root, this`rootKey, this`shape, this`spans, this`heights, nodes.Values
      ensures Linked() && Done(k) && shape.Keys == old(shape.Keys)
    {
      hide Linked;
      hide Mirrors;
      hide Ordered;
      hide Balanced;
      hide Rotated;
      hide Rotatable;
      ghost var was, root0 := shape, rootKey;
      Distances(was, spans, heights, root0, k, kp, kg, true);
      Ancestors(x, k, kp, kg);
      Paint(x.parent, false, kp);
      SameAncestors(x, k, kp, kg);
      Paint(x.parent.parent, true, kg);
      SameAncestors(x, k, kp, kg);
      PaintKeeps(was, shape, spans, rootKey);
      RotateLeft(x.parent.parent, kg);
      OuterTurned(was, root0, k, kp, kg, true);
    }

    /** The last steps when the red parent is a left child and the uncle is not red. */
    method FixLeft(x0: MapNode<V>, ghost k0: int, ghost kp: int, ghost kg: int) returns (x: MapNode<V>, ghost k: int)
      requires Linked() && Is(x0, Some(k0)) && Fixing(k0) && RedParent(shape, k0, kp, kg)
      requires shape[kg].left == Some(kp) && !IsRed(shape, shape[kg].right)
      modifies this`root, this`rootKey, this`shape, this`spans, this`heights, nodes.Values
      ensures Linked() && Is(x, Some(k)) && Done(k) && shape.Keys == old(shape.Keys)
    {
      hide Linked;
      hide Mirrors;
      hide Ordered;
      hide Balanced;
      hide Rotated;
      hide Rotatable;
      hide InnerAfter;
      x, k := x0, k0;
      ghost var p := kp;
      Ancestors(x, k, kp, kg);
      if x == x.parent.right {
        ghost var was, root0 := shape, rootKey;
        InnerReady(was, spans, heights, root0, k0, kp, kg, true);
        x := x.parent;
        RotateLeft(x, kp);
        InnerTurned(was, root0, kp, true);
        InnerResult(was, shape, k0, kp, kg, true);
        k, p := kp, k0;
        Ancestors(x, k, p, kg);
      }
      OuterRight(x, k, p, kg);
    }

    /** The last steps when the red parent is a right child and the uncle is not red. */
    method FixRight(x0: MapNode<V>, ghost k0: int, ghost kp: int, ghost kg: int) returns (x: MapNode<V>, ghost k: int)
      requires Linked() && Is(x0, Some(k0)) && Fixing(k0) && RedParent(shape, k0, kp, kg)
      requires shape[kg].right == Some(kp) && !IsRed(shape, shape[kg].left)
      modifies this`root, this`rootKey, this`shape, this`spans, this`heights, nodes.Values
      ensures Linked() && Is(x, Some(k)) && Done(k) && shape.Keys == old(shape.Keys)
    {
      hide Linked;
      hide Mirrors;
      hide Ordered;
      hide Balanced;
      hide Rotated;
      hide Rotatable;
      hide InnerAfter;
      x, k := x0, k0;
      ghost var p := kp;
      Ancestors(x, k, kp, kg);
      if x == x.parent.left {
        ghost var was, root0 := shape, rootKey;
        InnerReady(was, spans, heights, root0, k0, kp, kg, false);
        x := x.parent;
        RotateRight(x, kp);
        InnerTurned(was, root0, kp, false);
        InnerResult(was, shape, k0, kp, kg, false);
        k, p := kp, k0;
        Ancestors(x, k, p, kg);
      }
      OuterLeft(x, k, p, kg);
    }

    /** The pointer to a node's parent. */
    lemma ParentNode(x: MapNode<V>, k: int)
      requires Linked() && Is(x, Some(k)) && Ordered(shape, spans, rootKey)
      ensures k in shape && Is(x.parent, shape[k].parent) && (x.parent == null <==> shape[k].parent.None?)
      ensures x.parent != null ==> (x.parent.red <==> IsRed(shape, shape[k].parent))
    {
      hide Ordered;
      KeysAgree();
      NodeLinks(k);
      KidParent(shape, spans, rootKey, k);
      if shape[k].parent.Some? { NodeLinks(shape[k].parent.key); }
    }

    /** The pointers to a node's children. */
    lemma ChildNodes(p: MapNode<V>, kp: int, g: MapNode<V>, kg: int)
      requires Linked() && Is(p, Some(kp)) && Is(g, Some(kg)) && Ordered(shape, spans, rootKey) && kp in shape
               && shape[kp].parent == Some(kg)
      ensures kg in shape && (g.left == p <==> shape[kg].left == Some(kp))
              && (shape[kg].left == Some(kp) || shape[kg].right == Some(kp))
      ensures Is(g.left, shape[kg].left)
              && (g.left != null ==> shape[kg].left.Some? && (g.left.red <==> IsRed(shape, shape[kg].left)))
      ensures Is(g.right, shape[kg].right)
              && (g.right != null ==> shape[kg].right.Some? && (g.right.red <==> IsRed(shape, shape[kg].right)))
      ensures g.left == null ==> shape[kg].left.None?
      ensures g.right == null ==> shape[kg].right.None?
    {
      hide Ordered;
      KeysAgree();
      NodeLinks(kg);
      KidParent(shape, spans, rootKey, kg);
      KidParent(shape, spans, rootKey, kp);
      if shape[kg].left.Some? {
        NodeLinks(shape[kg].left.key);
        OneKey(shape[kg].left, kp);
      }
      if shape[kg].right.Some? { NodeLinks(shape[kg].right.key); }
    }

    lemma RootNode()
      requires Linked() && Ordered(shape, spans, rootKey)
      ensures Is(root, rootKey) && (rootKey.Some? ==> root != null && rootKey.key in shape)
              && (rootKey.None? ==> shape == map[])
    {
      hide Ordered;
      KeysAgree();
      RootIn(shape, spans, rootKey);
    }

    /** Repairs the tree after red node nw was linked in: moves the exception up, or turns it away. */
    method RebalanceInsert(nw: MapNode<V>, ghost kw: int)
      requires Linked() && Is(nw, Some(kw)) && Fixing(kw)
      modifies this`root, this`rootKey, this`shape, this`spans, this`heights, nodes.Values
      ensures Linked() && Ordered(shape, spans, rootKey) && Balanced(shape, heights, rootKey, None)
              && shape.Keys == old(shape.Keys)
    {
      hide Linked;
      hide Mirrors;
      hide Ordered;
      hide Balanced;
      hide Below;
      Paint(nw, true, kw);
      assert Painted(old(shape), kw, true) == old(shape);
      var x := nw;
      ghost var k := kw;
      ParentNode(x, k);
      while x.parent != null && x.parent.red
        invariant Linked() && Is(x, Some(k)) && Fixing(k) && shape.Keys == old(shape.Keys)
        invariant x.parent != null ==> (x.parent.red <==> IsRed(shape, shape[k].parent))
        invariant x.parent == null <==> shape[k].parent.None?
        decreases x.parent != null && x.parent.red, old(shape.Keys) - Below(shape, spans, Some(k))
      {
        ghost var kp := shape[k].parent.key;
        Grandparent(shape, spans, heights, rootKey, k);
        ghost var kg := shape[kp].parent.key;
        SameAncestors(x, k, kp, kg);
        ChildNodes(x.parent, kp, x.parent.parent, kg);
        if x.parent == x.parent.parent.left {
          var y := x.parent.parent.right;
          if y != null && y.red {
            PaintFamily(x.parent, y, x.parent.parent, k, kp, shape[kg].right.key, kg, false);
            SameAncestors(x, k, kp, kg);
            x, k := x.parent.parent, kg;
          } else {
            x, k := FixLeft(x, k, kp, kg);
            DoneIsFixing(shape, heights, rootKey, Some(k));
          }
        } else {
          var y := x.parent.parent.left;
          if y != null && y.red {
            PaintFamily(x.parent, y, x.parent.parent, k, kp, shape[kg].left.key, kg, true);
            SameAncestors(x, k, kp, kg);
            x, k := x.parent.parent, kg;
          } else {
            x, k := FixRight(x, k, kp, kg);
            DoneIsFixing(shape, heights, rootKey, Some(k));
          }
        }
        ParentNode(x, k);
      }
      BlackenRoot(k);
    }

    /** Paints the root black; the tree has no other exception. */
    method BlackenRoot(ghost k: int)
      requires Linked() && Fixing(k) && (shape[k].parent.None? || !IsRed(shape, shape[k].parent))
      modifies this`shape, this`heights, nodes.Values
      ensures Linked() && Ordered(shape, spans, rootKey) && Balanced(shape, heights, rootKey, None)
      ensures shape.Keys == old(shape.Keys)
    {
      hide Linked;
      hide Mirrors;
      hide Ordered;
      hide Balanced;
      RootNode();
      RootBlack(shape, spans, heights, rootKey, k);
      ghost var was := shape;
      Paint(root, false, rootKey.key);
      heights := heights[rootKey.key := Height(heights, Kid(was[rootKey.key], false)) + 1];
      PaintKeeps(was, shape, spans, rootKey);
    }

    // ----- Lookup -----

    /** What the search for a key knows at the node of key k: if the key is there, it is below. */
    ghost predicate SearchAt(key: int, node: MapNode?<V>, o: Opt)
      reads this`nodes, this`shape, this`spans
    {
      && Is(node, o) && (node == null <==> o.None?)
      && (if o.Some? then o.key in shape && o.key in spans && Inside(key, spans[o.key]) else key !in shape)
    }

    lemma SearchStarts(key: int)
      requires Linked() && Ordered(shape, spans, rootKey)
      ensures SearchAt(key, root, rootKey)
    {
      hide Ordered;
      RootNode();
      RootIn(shape, spans, rootKey);
      if rootKey.Some? { CellFacts(shape, spans, rootKey, rootKey.key); }
    }

    /** One step of the search goes to the child on the key's side. */
    lemma SearchStep(key: int, node: MapNode<V>, k: int)
      requires Linked() && Ordered(shape, spans, rootKey) && SearchAt(key, node, Some(k)) && key != k
      ensures node.key == k
      ensures var c := Kid(shape[k], key > k); var next := if key < node.key then node.left else node.right;
              && SearchAt(key, next, c) && Below(shape, spans, c) < Below(shape, spans, Some(k))
    {
      hide Ordered;
      NodeLinks(k);
      KeysAgree();
      CellFacts(shape, spans, rootKey, k);
      KidParent(shape, spans, rootKey, k);
      var c := Kid(shape[k], key > k);
      if c.Some? { BelowShrinks(shape, spans, rootKey, c.key); } else { assert k in Below(shape, spans, Some(k)); }
    }

    /** The value last added for a key, and how many nodes were compared on the way: at most twice the
        black height, with at least 2 to that power, less one, nodes in the map. */
    method TryGetValue(key: int) returns (r: Options.Option<V>, ghost steps: nat)
      requires Valid()
      ensures r == if key in content then Options.Some(content[key]) else Options.None
      ensures steps <= 2 * Height(heights, rootKey) && Pow2(Height(heights, rootKey)) <= count + 1
    {
      hide Linked;
      hide Mirrors;
      hide Ordered;
      hide Balanced;
      hide SearchAt;
      hide Below;
      steps := 0;
      var node := root;
      ghost var o, b := rootKey, Height(heights, rootKey);
      SearchStarts(key);
      AtRoot();
      TallEnough();
      while node != null
        invariant SearchAt(key, node, o) && Depth(o, steps, b)
        decreases Below(shape, spans, o)
      {
        ghost var k := SearchNode(key, node, o);
        ghost var c := Kid(shape[k], key > k);
        if key != k { SearchStep(key, node, k); }
        steps := steps + 1;
        DepthStep(k, steps - 1, b, key > k);
        if key < node.key {
          node := node.left;
        } else if key > node.key {
          node := node.right;
        } else {
          return Options.Some(node.value), steps;
        }
        o := c;
      }
      NotThere(key, o);
      DepthEnds(o, steps, b);
      r := Options.None;
    }

    method ContainsKey(key: int) returns (found: bool)
      requires Valid()
      ensures found <==> key in content
    {
      hide Linked;
      hide Mirrors;
      hide Ordered;
      hide Balanced;
      hide SearchAt;
      hide Below;
      var node := root;
      ghost var o := rootKey;
      SearchStarts(key);
      while node != null
        invariant SearchAt(key, node, o)
        decreases Below(shape, spans, o)
      {
        ghost var k := SearchNode(key, node, o);
        if key != k { SearchStep(key, node, k); }
        if key < node.key {
          node := node.left;
        } else if key > node.key {
          node := node.right;
        } else {
          return true;
        }
        o := Kid(shape[k], key > k);
      }
      NotThere(key, o);
      found := false;
    }

    lemma SearchNode(key: int, node: MapNode<V>, o: Opt) returns (k: int)
      requires Linked() && SearchAt(key, node, o)
      ensures o == Some(k) && k in shape && k in content && node.key == k && node.value == content[k]
    {
      k := o.key;
      NodeLinks(k);
    }

    lemma NotThere(key: int, o: Opt)
      requires Linked() && SearchAt(key, null, o)
      ensures key !in content && o.None?
    {
      KeysAgree();
    }

    /** The number of nodes above a link, by the black height still below it. */
    ghost predicate Depth(o: Opt, steps: nat, b: nat)
      reads this`shape, this`heights
    {
      steps <= 2 * (b - Height(heights, o)) - if IsRed(shape, o) then 1 else 0
    }

    lemma AtRoot()
      requires Balanced(shape, heights, rootKey, None)
      ensures Depth(rootKey, 0, Height(heights, rootKey))
    {
    }

    lemma DepthStep(k: int, steps: nat, b: nat, right: bool)
      requires Balanced(shape, heights, rootKey, None) && k in shape && Depth(Some(k), steps, b)
      ensures Depth(Kid(shape[k], right), steps + 1, b) && steps + 1 <= 2 * b
    {
      BalanceFacts(shape, heights, rootKey, None, k);
    }

    lemma DepthEnds(o: Opt, steps: nat, b: nat)
      requires o.None? && Depth(o, steps, b)
      ensures steps <= 2 * b
    {
    }

    /** A map of black height b has at least 2^b - 1 keys. */
    lemma TallEnough()
      requires Valid()
      ensures Pow2(Height(heights, rootKey)) <= count + 1
    {
      hide Ordered;
      hide Linked;
      KeysAgree();
      RootIn(shape, spans, rootKey);
      RootBelow(shape, spans, rootKey);
      EnoughCells(shape, spans, heights, rootKey, rootKey);
      assert |content| == |content.Keys|;
    }

    // ----- Adding -----

    /** The node whose value or child is to change for a key: it has the key, or the key's place below it is empty. */
    method FindOwner(key: int) returns (owner: MapNode?<V>, ghost o: Opt)
      requires Linked() && Ordered(shape, spans, rootKey)
      ensures Is(owner, o) && (owner == null <==> o.None?) && (o.None? ==> rootKey.None? && shape == map[])
      ensures o.Some? ==> o.key in shape && (key == o.key || Empty(shape, spans, o.key, key > o.key, key))
    {
      hide Linked;
      hide Mirrors;
      hide Ordered;
      hide Below;
      hide SearchAt;
      owner := root;
      o := rootKey;
      SearchStarts(key);
      RootNode();
      while owner != null
        invariant SearchAt(key, owner, o) && (o.None? ==> rootKey.None?)
        decreases Below(shape, spans, o)
      {
        ghost var k := SearchNode(key, owner, o);
        AtNode(key, owner, k);
        if key != k {
          SearchStep(key, owner, k);
          EmptyOrOn(key, owner, k);
        }
        if key < owner.key {
          if owner.left == null { break; }
          owner := owner.left;
        } else if key > owner.key {
          if owner.right == null { break; }
          owner := owner.right;
        } else {
          break;
        }
        o := Kid(shape[k], key > k);
      }
      if owner == null { NotThere(key, o); }
    }

    lemma AtNode(key: int, owner: MapNode<V>, k: int)
      requires SearchAt(key, owner, Some(k))
      ensures Is(owner, Some(k)) && k in shape
    {
    }

    lemma EmptyOrOn(key: int, owner: MapNode<V>, k: int)
      requires Linked() && Ordered(shape, spans, rootKey) && SearchAt(key, owner, Some(k)) && key != k
      requires var next := if key < k then owner.left else owner.right; SearchAt(key, next, Kid(shape[k], key > k))
      ensures (if key < k then owner.left else owner.right) == null ==> Empty(shape, spans, k, key > k, key)
      ensures (if key < k then owner.left else owner.right) != null ==> Kid(shape[k], key > k).Some?
    {
      hide Ordered;
      CellFacts(shape, spans, rootKey, k);
    }

    /** Adds a node that is not linked to any other yet. */
    method NewNode(key: int, value: V) returns (nw: MapNode<V>)
      requires Linked() && Ordered(shape, spans, rootKey) && key !in shape
      modifies this`nodes, this`content, this`shape
      ensures fresh(nw) && nodes == old(nodes)[key := nw] && content == old(content)[key := value]
      ensures Linked() && shape == old(shape)[key := Cell(None, None, None, true)]
    {
      hide Ordered;
      hide Mirrors;
      KeysAgree();
      RootIn(shape, spans, rootKey);
      nw := new MapNode(key, value);
      forall k | k in nodes
        ensures k in shape && k in content && Mirrors(nodes[key := nw], nodes[k], k, shape[k], content[k])
      {
        KidParent(shape, spans, rootKey, k);
        assert Mirrors(nodes, nodes[k], k, shape[k], content[k]);
        OneNodeMore(nodes, nodes[k], k, shape[k], content[k], key, nw);
      }
      IsNew(nodes, nw, key, value);
      nodes := nodes[key := nw];
      content := content[key := value];
      shape := shape[key := Cell(None, None, None, true)];
    }

    /** Changes the value of a node. */
    method SetValue(n: MapNode<V>, value: V, ghost k: int)
      requires Valid() && Is(n, Some(k))
      modifies n`value, this`content
      ensures Valid() && content == old(content)[k := value]
    {
      hide Ordered;
      hide Balanced;
      OthersApart(n, k);
      hide Linked;
      SameCount(content, k, value);
      n.value := value;
      SetContent(n, k, value);
    }

    /** What a linked tree says about the nodes of all keys but one. */
    lemma OthersApart(n: MapNode<V>, k: int)
      requires Linked() && Is(n, Some(k))
      ensures nodes.Keys == shape.Keys == content.Keys && root == Ref(nodes, rootKey)
      ensures k in shape && k in content && nodes[k] == n && Mirrors(nodes, n, k, shape[k], content[k])
      ensures forall m {:trigger nodes[m]} | m in nodes && m != k ::
                nodes[m] != n && m in shape && m in content && Mirrors(nodes, nodes[m], m, shape[m], content[m])
    {
      assert nodes[k] == n;
    }

    lemma SameCount(was: map<int, V>, key: int, value: V)
      requires key in was
      ensures |was[key := value]| == |was|
    {
      assert was[key := value].Keys == was.Keys;
    }

    /** The value of key k changes with its node. */
    ghost method SetContent(n: MapNode<V>, k: int, v: V)
      requires nodes.Keys == shape.Keys == content.Keys && root == Ref(nodes, rootKey) && Is(n, Some(k))
      requires forall m {:trigger nodes[m]} | m in nodes && m != k ::
                 m in shape && m in content && Mirrors(nodes, nodes[m], m, shape[m], content[m])
      requires k in shape && Mirrors(nodes, n, k, shape[k], v)
      modifies this`content
      ensures Linked() && content == old(content)[k := v]
    {
      content := content[k := v];
    }

    /** Links a new node below its owner and repairs the tree. */
    method InsertBelow(owner: MapNode<V>, key: int, value: V, ghost k: int)
      requires Valid() && Is(owner, Some(k)) && owner.key == k && Empty(shape, spans, k, key > k, key)
      modifies this, nodes.Values
      ensures Valid() && content == old(content)[key := value] && fresh(nodes.Values - old(nodes.Values))
    {
      hide Linked;
      hide Mirrors;
      hide Ordered;
      hide Balanced;
      hide Empty;
      hide Leafed;
      EmptyKey(key, k);
      var nw := LinkLeaf(owner, key, value, k);
      RebalanceInsert(nw, key);
      Counted(old(content), key, value);
      count := count + 1;
    }

    lemma Counted(was: map<int, V>, key: int, value: V)
      requires key !in was
      ensures |was[key := value]| == |was| + 1
    {
    }

    /** Links a new red node into the empty place for its key. */
    method LinkLeaf(owner: MapNode<V>, key: int, value: V, ghost k: int) returns (nw: MapNode<V>)
      requires Valid() && Is(owner, Some(k)) && owner.key == k && Empty(shape, spans, k, key > k, key)
      modifies this`nodes, this`content, this`shape, this`spans, this`heights, nodes.Values
      ensures fresh(nw) && nodes == old(nodes)[key := nw] && content == old(content)[key := value]
      ensures Linked() && Fixing(key)
    {
      hide Linked;
      hide Mirrors;
      hide Ordered;
      hide Balanced;
      hide Empty;
      hide Leafed;
      hide Adopted;
      hide Fixing;
      ghost var was := shape;
      EmptyKey(key, k);
      NewLeaf(was, spans, rootKey, k, key > k, key);
      LeafBalanced(was, spans, heights, rootKey, k, key > k, key);
      nw := NewNode(key, value);
      if key < owner.key {
        SetLeft(owner, nw, k, Some(key));
      } else {
        SetRight(owner, nw, k, Some(key));
      }
      LeafedIs(was, k, key > k, key);
      spans := spans[key := Part(spans[k], k, key > k)];
      heights := heights[key := 0];
      LeafFixing(was, k, key);
    }

    lemma LeafFixing(was: Shape, k: int, key: int)
      requires k in was && k != key && shape == Leafed(was, k, key > k, key)
      requires Ordered(shape, spans, rootKey) && Balanced(shape, heights, rootKey, Some(key))
      ensures Fixing(key)
    {
      hide Ordered;
      hide Balanced;
    }

    lemma EmptyKey(key: int, k: int)
      requires Linked() && Empty(shape, spans, k, key > k, key)
      ensures key !in shape && key !in content && key !in nodes && k in shape && k in spans && k != key
    {
      KeysAgree();
    }

    /** The first node is the root, and black. */
    method PlantRoot(key: int, value: V)
      requires Valid() && shape == map[] && rootKey.None?
      modifies this, nodes.Values
      ensures Valid() && content == old(content)[key := value] && fresh(nodes.Values - old(nodes.Values))
    {
      hide Ordered;
      hide Balanced;
      hide Linked;
      hide Mirrors;
      KeysAgree();
      OneCell(key);
      Counted(content, key, value);
      var nw := NewNode(key, value);
      SetRoot(nw, key);
      Paint(root, false, key);
      assert shape == map[key := Cell(None, None, None, false)];
      spans := map[key := Span(None, None)];
      heights := map[key := 1];
      count := count + 1;
    }

    method SetRoot(nw: MapNode<V>, ghost key: int)
      requires Linked() && Is(nw, Some(key))
      modifies this`root, this`rootKey
      ensures Linked() && root == nw && rootKey == Some(key)
    {
      hide Mirrors;
      root := nw;
      rootKey := Some(key);
    }

    /** Sets the value of a key, adding a node for it if there is none. */
    method Add(key: int, value: V)
      requires Valid()
      modifies this, nodes.Values
      ensures Valid() && content == old(content)[key := value]
      ensures fresh(nodes.Values - old(nodes.Values))
    {
      hide Linked;
      hide Mirrors;
      hide Ordered;
      hide Balanced;
      hide Empty;
      var owner;
      ghost var o;
      owner, o := FindOwner(key);
      if owner != null {
        NodeLinks(o.key);
        if key == owner.key {
          SetValue(owner, value, o.key);
        } else {
          InsertBelow(owner, key, value, o.key);
        }
      } else {
        PlantRoot(key, value);
      }
    }

    method Clear()
      requires Valid()
      modifies this
      ensures Valid() && content == map[]
    {
      hide Ordered;
      hide Balanced;
      hide Linked;
      NoCells();
      root, count := null, 0;
      nodes, content, shape, spans, heights, rootKey := map[], map[], map[], map[], map[], None;
      NothingLinked();
    }

    lemma NothingLinked()
      requires root == null && rootKey.None? && nodes == map[] && shape == map[] && content == map[]
      ensures Linked()
    {
    }
  }

  /** A new cell that is adopted by its owner is a leaf of the tree. */
  lemma LeafedIs(was: Shape, k: int, right: bool, key: int)
    requires k in was && k != key
    ensures var alone := was[key := Cell(None, None, None, true)];
            Adopted(alone, k, right, Some(key)) == Leafed(was, k, right, key)
  {
  }

  lemma NoCells()
    ensures Ordered(map[], map[], None) && Balanced(map[], map[], None, None)
  {
  }

  lemma OneCell(key: int)
    ensures Ordered(map[key := Cell(None, None, None, false)], map[key := Span(None, None)], Some(key))
    ensures Balanced(map[key := Cell(None, None, None, false)], map[key := 1], Some(key), None)
  {
  }

  /** A red parent is not the root. */
  lemma Grandparent(shape: Shape, spans: Spans, heights: Heights, root: Opt, k: int)
    requires Ordered(shape, spans, root) && Balanced(shape, heights, root, Some(k)) && k in shape
             && IsRed(shape, shape[k].parent)
    ensures shape[k].parent.Some? && shape[k].parent.key in shape && shape[shape[k].parent.key].parent.Some?
    ensures RedParent(shape, k, shape[k].parent.key, shape[shape[k].parent.key].parent.key)
  {
    hide Ordered;
    KidParent(shape, spans, root, k);
    var kp := shape[k].parent.key;
    KidParent(shape, spans, root, kp);
    InHeights(shape, heights, root, Some(k), k);
  }

  lemma DoneIsFixing(shape: Shape, heights: Heights, root: Opt, x: Opt)
    requires Balanced(shape, heights, root, None)
    ensures Balanced(shape, heights, root, x)
  {
    forall k | k in shape ensures RedOk(shape, k, x) { assert RedOk(shape, k, None); }
  }

  lemma BelowPainted(shape: Shape, shape': Shape, spans: Spans, o: Opt)
    requires shape'.Keys == shape.Keys
    ensures Below(shape', spans, o) == Below(shape, spans, o)
  {
    assert forall k :: k in shape' <==> k in shape by { assert forall k :: k in shape' <==> k in shape'.Keys; }
  }

  /** Where the cells of an inner turn are afterwards. */
  ghost predicate InnerAfter(was: Shape, shape: Shape, k: int, s: bool) {
    && k in was && Kid(was[k], s).Some? && k in shape
    && (forall m | m in was && m in shape :: shape[m].red == was[m].red)
    && var x := Kid(was[k], s).key;
       && x in shape && x in was && shape[x].red == was[x].red && shape[x].parent == was[k].parent
       && Kid(shape[x], !s) == Some(k)
       && (was[k].parent.Some? ==>
             var g := was[k].parent.key;
             && g in was && g in shape && shape[g].red == was[g].red && shape[g].parent == was[g].parent
             && (was[g].left == Some(k) ==> shape[g].left == Some(x) && shape[g].right == was[g].right)
             && (was[g].left != Some(k) ==> shape[g].right == Some(x) && shape[g].left == was[g].left))
  }

  lemma AfterInner(was: Shape, shape: Shape, k: int, s: bool)
    requires Rotatable(was, k, s) && Turned(was, shape, k, s) && was[k].parent != Some(k)
             && was[k].parent != Kid(was[k], s) && Kid(was[k], s) != Some(k)
    requires was[k].parent.Some? && Kid(was[Kid(was[k], s).key], !s) != was[k].parent
    ensures InnerAfter(was, shape, k, s) && shape.Keys == was.Keys && shape[k].parent == Kid(was[k], s)
  {
    hide Turned;
    forall m | m in was && m in shape ensures shape[m].red == was[m].red {
      TurnedIs(was, shape, k, s, m);
      TurnedRed(was, shape, k, s, m);
    }
    TurnedIs(was, shape, k, s, k);
    TurnedIs(was, shape, k, s, Kid(was[k], s).key);
    TurnedIs(was, shape, k, s, was[k].parent.key);
  }

  /** Cell k has a red parent, which has a parent. */
  ghost predicate RedParent(shape: Shape, k: int, kp: int, kg: int) {
    k in shape && kp in shape && kg in shape && shape[k].parent == Some(kp) && shape[kp].parent == Some(kg)
      && shape[kp].red
  }

  lemma OuterKeys(was: Shape, a: Shape, shape: Shape, x: int, g: int, s: bool)
    requires a.Keys == was.Keys && Rotatable(a, g, s) && Turned(a, shape, g, s) && x in a
    ensures shape.Keys == was.Keys && x in shape && shape[x].red == a[x].red
  {
    hide Turned;
    hide TurnedCell;
    TurnedIs(a, shape, g, s, x);
    TurnedRed(a, shape, g, s, x);
  }

  /** Around a red cell with a red parent, the cells are all different. */
  lemma Distances(shape: Shape, spans: Spans, heights: Heights, root: Opt, k: int, kp: int, kg: int, s: bool)
    requires Ordered(shape, spans, root) && Balanced(shape, heights, root, Some(k)) && RedParent(shape, k, kp, kg)
    requires k in shape && shape[k].red && Kid(shape[kg], s) == Some(kp) && Kid(shape[kp], s) == Some(k)
             && !IsRed(shape, Kid(shape[kg], !s))
    ensures OuterRed(shape, k, kp, kg, s) && k != kp && k != kg && kp != kg
    ensures (shape[kp].left.Some? ==> shape[kp].left.key in shape)
            && (shape[kp].right.Some? ==> shape[kp].right.key in shape)
  {
    hide Ordered;
    hide Balanced;
    KidParent(shape, spans, root, kg);
    KidParent(shape, spans, root, kp);
    RootPath(shape, spans, root, k, kp, kg);
  }

  lemma RootPath(shape: Shape, spans: Spans, root: Opt, k: int, kp: int, kg: int)
    requires Ordered(shape, spans, root) && k in shape && shape[k].parent == Some(kp) && kp in shape
             && shape[kp].parent == Some(kg) && kg in shape
    ensures k != kg && k != kp && kp != kg
  {
    hide Ordered;
    hide Below;
    BelowShrinks(shape, spans, root, k);
    BelowShrinks(shape, spans, root, kp);
  }

  lemma InnerReady(shape: Shape, spans: Spans, heights: Heights, root: Opt, k: int, kp: int, kg: int, s: bool)
    requires Ordered(shape, spans, root) && Balanced(shape, heights, root, Some(k)) && RedParent(shape, k, kp, kg)
    requires shape[k].red && Kid(shape[kp], s) == Some(k)
    ensures IsRed(shape, Kid(shape[kp], s)) && k != kp && kp != kg && k != kg
  {
    hide Ordered;
    hide Balanced;
    RootPath(shape, spans, root, k, kp, kg);
  }

  lemma InnerResult(was: Shape, shape: Shape, k: int, kp: int, kg: int, s: bool)
    requires RedParent(was, k, kp, kg) && was[k].red && InnerAfter(was, shape, kp, s) && Kid(was[kp], s) == Some(k)
             && shape[kp].parent == Some(k)
    requires Kid(was[kg], !s) == Some(kp) && !IsRed(was, Kid(was[kg], s)) && was[kg].left != was[kg].right
             && shape.Keys == was.Keys
    ensures RedParent(shape, kp, k, kg) && Kid(shape[kg], !s) == Some(k) && Kid(shape[k], !s) == Some(kp)
            && !IsRed(shape, Kid(shape[kg], s))
  {
  }
}
