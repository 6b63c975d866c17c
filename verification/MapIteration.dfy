/** Iteration over the map, breadth first: each key once. */
module MapIteration {
  import opened RedBlack
  import opened RedBlackMap
  import opened Sequences

  /** The keys below the queued nodes. */
  ghost function Rest(shape: Shape, spans: Spans, ks: seq<int>): set<int> {
    if ks == [] then {} else Below(shape, spans, Some(ks[0])) + Rest(shape, spans, ks[1..])
  }

  /** The queued nodes' subtrees have no key in common. */
  ghost predicate Parted(shape: Shape, spans: Spans, ks: seq<int>) {
    ks != [] ==>
        ks[0] in shape && Below(shape, spans, Some(ks[0])) !! Rest(shape, spans, ks[1..])
        && Parted(shape, spans, ks[1..])
  }

  lemma {:induction false} RestAppends(shape: Shape, spans: Spans, ks: seq<int>, k: int)
    ensures Rest(shape, spans, ks + [k]) == Rest(shape, spans, ks) + Below(shape, spans, Some(k))
    ensures Parted(shape, spans, ks) && k in shape && Below(shape, spans, Some(k)) !! Rest(shape, spans, ks) ==>
              Parted(shape, spans, ks + [k])
  {
    hide Below;
    if ks == [] {
      assert [k][1..] == [];
    } else {
      assert (ks + [k])[1..] == ks[1..] + [k];
      RestAppends(shape, spans, ks[1..], k);
    }
  }

  ghost function Extend(ks: seq<int>, o: Opt): seq<int> {
    if o.Some? then ks + [o.key] else ks
  }

  /** The queue after its first node was taken and its children put in. */
  ghost function Advanced(shape: Shape, ks: seq<int>): seq<int>
    requires ks != [] && ks[0] in shape
  {
    var c := shape[ks[0]];
    Extend(Extend(ks[1..], c.left), c.right)
  }

  /** Taking a node and queueing its children takes exactly its key from the keys still to come. */
  lemma Advances(shape: Shape, spans: Spans, root: Opt, ks: seq<int>)
    requires Ordered(shape, spans, root) && ks != [] && Parted(shape, spans, ks)
    ensures var ks' := Advanced(shape, ks);
            && Parted(shape, spans, ks') && ks[0] in Rest(shape, spans, ks)
            && Rest(shape, spans, ks') == Rest(shape, spans, ks) - {ks[0]}
  {
    hide Ordered;
    hide Below;
    var k, t := ks[0], ks[1..];
    var l, r := shape[k].left, shape[k].right;
    Divides(shape, spans, root, k);
    KidParent(shape, spans, root, k);
    NoneBelow(shape, spans);
    var u := t;
    if l.Some? {
      RestAppends(shape, spans, t, l.key);
      u := t + [l.key];
    }
    if r.Some? {
      RestAppends(shape, spans, u, r.key);
    }
    assert Rest(shape, spans, u) == Rest(shape, spans, t) + Below(shape, spans, l);
    var ks' := if r.Some? then u + [r.key] else u;
    assert Advanced(shape, ks) == ks';
    assert Rest(shape, spans, ks') == Rest(shape, spans, u) + Below(shape, spans, r);
  }

  lemma NoneBelow(shape: Shape, spans: Spans)
    ensures Below(shape, spans, None) == {}
  {
  }

  // ----- The order of visits -----

  /** The keys of the subtree that are d below its root, from left to right. */
  ghost function Level(shape: Shape, o: Opt, d: nat): seq<int>
    decreases d
  {
    if o.None? then []
    else if d == 0 then [o.key]
    else if o.key in shape then Level(shape, shape[o.key].left, d - 1) + Level(shape, shape[o.key].right, d - 1)
    else []
  }

  /** The first d levels, one after another. */
  ghost function Levels(shape: Shape, o: Opt, d: nat): seq<int> {
    if d == 0 then [] else Levels(shape, o, d - 1) + Level(shape, o, d - 1)
  }

  ghost function KidsOf(shape: Shape, k: int): seq<int> {
    if k in shape then Extend(Extend([], shape[k].left), shape[k].right) else []
  }

  /** The children of the keys, in order. */
  ghost function Kids(shape: Shape, ks: seq<int>): seq<int> {
    if ks == [] then [] else KidsOf(shape, ks[0]) + Kids(shape, ks[1..])
  }

  lemma {:induction false} KidsOfBoth(shape: Shape, a: seq<int>, b: seq<int>)
    ensures Kids(shape, a + b) == Kids(shape, a) + Kids(shape, b)
  {
    if a == [] { assert a + b == b; } else { assert (a + b)[1..] == a[1..] + b; KidsOfBoth(shape, a[1..], b); }
  }

  /** The next level are the children of a level. */
  lemma {:induction false} NextLevel(shape: Shape, o: Opt, d: nat)
    ensures Level(shape, o, d + 1) == Kids(shape, Level(shape, o, d))
    decreases d
  {
    if o.Some? && o.key in shape {
      var l, r := shape[o.key].left, shape[o.key].right;
      if d == 0 {
        assert Level(shape, o, 1) == Level(shape, l, 0) + Level(shape, r, 0);
        assert Kids(shape, [o.key]) == KidsOf(shape, o.key) + Kids(shape, []);
      } else {
        NextLevel(shape, l, d - 1);
        NextLevel(shape, r, d - 1);
        KidsOfBoth(shape, Level(shape, l, d - 1), Level(shape, r, d - 1));
      }
    }
  }

  /** A level of a search tree is in ascending order. */
  lemma {:induction false} LevelAscends(shape: Shape, spans: Spans, root: Opt, o: Opt, d: nat)
    requires Ordered(shape, spans, root) && (o.Some? ==> o.key in shape)
    ensures Ascending(Level(shape, o, d))
    ensures forall x | x in Level(shape, o, d) :: o.Some? && o.key in spans && Inside(x, spans[o.key])
    decreases d
  {
    hide Ordered;
    if o.Some? {
      CellFacts(shape, spans, root, o.key);
      var l, r := shape[o.key].left, shape[o.key].right;
      assert KidOk(shape, spans, o.key, false) && KidOk(shape, spans, o.key, true);
      if d > 0 {
        LevelAscends(shape, spans, root, l, d - 1);
        LevelAscends(shape, spans, root, r, d - 1);
        Side(shape, spans, o.key, false, Level(shape, l, d - 1));
        Side(shape, spans, o.key, true, Level(shape, r, d - 1));
        Sorted(Level(shape, l, d - 1), Level(shape, r, d - 1), o.key);
      }
    }
  }

  lemma Side(shape: Shape, spans: Spans, k: int, right: bool, c: seq<int>)
    requires k in shape && k in spans && KidOk(shape, spans, k, right) && Inside(k, spans[k])
    requires var o := Kid(shape[k], right); forall x | x in c :: o.Some? && o.key in spans && Inside(x, spans[o.key])
    ensures forall x | x in c :: Inside(x, spans[k]) && if right then k < x else x < k
  {
  }

  lemma Sorted(a: seq<int>, b: seq<int>, k: int)
    requires Ascending(a) && Ascending(b) && (forall x | x in a :: x < k) && forall x | x in b :: k < x
    ensures Ascending(a + b)
  {
    var c := a + b;
    assert forall i | 0 <= i < |a| :: c[i] in a;
    assert forall i | |a| <= i < |c| :: c[i] in b;
  }

  /** The keys visited are all of the levels above and a part of one, which is done; the queue holds the rest of it and
      the children of what is done. */
  ghost predicate AtLevel(shape: Shape, root: Opt, keys: seq<int>, visited: seq<int>, d: nat, done: seq<int>,
                          rest: seq<int>) {
    Level(shape, root, d) == done + rest && keys == rest + Kids(shape, done)
      && visited == Levels(shape, root, d) + done
  }

  ghost predicate InLevels(shape: Shape, root: Opt, keys: seq<int>, visited: seq<int>) {
    exists d: nat, done, rest :: AtLevel(shape, root, keys, visited, d, done, rest)
  }

  lemma LevelsStart(shape: Shape, root: Opt)
    ensures InLevels(shape, root, if root.None? then [] else [root.key], [])
  {
    var ks := if root.None? then [] else [root.key];
    assert Kids(shape, []) == [];
    assert AtLevel(shape, root, ks, [], 0, [], ks);
  }

  lemma LevelsAdvance(shape: Shape, root: Opt, keys: seq<int>, visited: seq<int>)
    requires InLevels(shape, root, keys, visited) && keys != [] && keys[0] in shape
    ensures InLevels(shape, root, Advanced(shape, keys), visited + [keys[0]])
  {
    var d: nat, done, rest :| AtLevel(shape, root, keys, visited, d, done, rest);
    if rest == [] {
      NextLevel(shape, root, d);
      assert done + [] == done;
      assert keys + Kids(shape, []) == keys;
      assert AtLevel(shape, root, keys, visited, d + 1, [], keys);
      WithinLevel(shape, root, keys, visited, d + 1, [], keys);
    } else {
      WithinLevel(shape, root, keys, visited, d, done, rest);
    }
  }

  lemma WithinLevel(shape: Shape, root: Opt, keys: seq<int>, visited: seq<int>, d: nat, done: seq<int>, rest: seq<int>)
    requires AtLevel(shape, root, keys, visited, d, done, rest) && rest != [] && rest[0] in shape
    ensures keys[0] == rest[0] && InLevels(shape, root, Advanced(shape, keys), visited + [keys[0]])
  {
    var k := rest[0];
    KidsMore(shape, done, k);
    hide Kids;
    hide Level;
    hide Levels;
    hide KidsOf;
    AdvancedIs(shape, keys);
    TakeOver(done, rest, Kids(shape, done), KidsOf(shape, k), Levels(shape, root, d));
    assert AtLevel(shape, root, Advanced(shape, keys), visited + [k], d, done + [k], rest[1..]);
  }

  lemma TakeOver(done: seq<int>, rest: seq<int>, kids: seq<int>, more: seq<int>, above: seq<int>)
    requires rest != []
    ensures (rest + kids)[0] == rest[0] && (rest + kids)[1..] + more == rest[1..] + (kids + more)
    ensures done + rest == done + [rest[0]] + rest[1..] && above + done + [rest[0]] == above + (done + [rest[0]])
  {
    assert rest == [rest[0]] + rest[1..];
  }

  lemma KidsMore(shape: Shape, done: seq<int>, k: int)
    ensures Kids(shape, done + [k]) == Kids(shape, done) + KidsOf(shape, k)
  {
    KidsOfBoth(shape, done, [k]);
    assert [k][1..] == [] && Kids(shape, []) == [];
  }

  lemma AdvancedIs(shape: Shape, keys: seq<int>)
    requires keys != [] && keys[0] in shape
    ensures Advanced(shape, keys) == keys[1..] + KidsOf(shape, keys[0])
  {
  }

  /** At the end all levels were visited. */
  lemma LevelsEnd(shape: Shape, root: Opt, visited: seq<int>)
    requires InLevels(shape, root, [], visited)
    ensures exists d: nat :: Level(shape, root, d) == [] && visited == Levels(shape, root, d)
  {
    var d: nat, done, rest :| AtLevel(shape, root, [], visited, d, done, rest);
    NextLevel(shape, root, d);
    assert done + rest == done;
    assert Level(shape, root, d + 1) == [] && visited == Levels(shape, root, d + 1);
  }

  /** The queue holds the nodes of the keys, in order. */
  ghost predicate QueueIs<V>(nodes: map<int, MapNode<V>>, queue: seq<MapNode<V>>, keys: seq<int>) {
    |queue| == |keys| && forall i | 0 <= i < |queue| :: keys[i] in nodes && queue[i] == nodes[keys[i]]
  }

  /** The keys in v, all different, and those in rest make up all. */
  ghost predicate Covered(all: set<int>, v: seq<int>, rest: set<int>) {
    && (forall i, j | 0 <= i < j < |v| :: v[i] != v[j])
    && (forall k :: k in all <==> k in v || k in rest) && (forall k | k in v :: k !in rest)
  }

  /** The keys visited so far and those below the queue are all keys, once each. */
  ghost predicate Progress(shape: Shape, spans: Spans, keys: seq<int>, visited: seq<int>) {
    Parted(shape, spans, keys) && Covered(shape.Keys, visited, Rest(shape, spans, keys))
  }

  lemma Progresses(shape: Shape, spans: Spans, root: Opt, keys: seq<int>, visited: seq<int>)
    requires Ordered(shape, spans, root) && Progress(shape, spans, keys, visited) && keys != []
    ensures keys[0] in shape && Progress(shape, spans, Advanced(shape, keys), visited + [keys[0]])
  {
    hide Ordered;
    hide Advanced;
    hide Covered;
    hide Below;
    Advances(shape, spans, root, keys);
    CoveredMore(shape.Keys, visited, Rest(shape, spans, keys), keys[0]);
  }

  lemma CoveredMore(all: set<int>, v: seq<int>, rest: set<int>, k: int)
    requires Covered(all, v, rest) && k in rest
    ensures Covered(all, v + [k], rest - {k})
  {
    assert forall j :: j in v + [k] <==> j in v || j == k;
    assert forall i | 0 <= i < |v| :: v[i] in v;
  }

  lemma ProgressStarts(shape: Shape, spans: Spans, root: Opt)
    requires Ordered(shape, spans, root)
    ensures Progress(shape, spans, if root.None? then [] else [root.key], [])
  {
    hide Ordered;
    RootIn(shape, spans, root);
    RootBelow(shape, spans, root);
    var ks := if root.None? then [] else [root.key];
    assert Rest(shape, spans, []) == {};
    if root.Some? { assert ks[1..] == []; }
    assert Rest(shape, spans, ks) == Below(shape, spans, root) == shape.Keys;
    assert Parted(shape, spans, ks);
    assert Covered(shape.Keys, [], shape.Keys);
  }

  /** At the end every key was visited, once. */
  lemma AllVisited(shape: Shape, spans: Spans, visited: seq<int>)
    requires Progress(shape, spans, [], visited)
    ensures |visited| == |shape.Keys| && forall k :: k in shape <==> k in visited
  {
    assert forall k :: k in shape <==> k in shape.Keys;
    DistinctCount(visited, shape.Keys);
  }

  lemma {:induction false} DistinctCount(v: seq<int>, s: set<int>)
    requires (forall i, j | 0 <= i < j < |v| :: v[i] != v[j]) && forall k :: k in s <==> k in v
    ensures |v| == |s|
  {
    if v == [] {
      assert forall k :: k !in s;
      assert s == {};
    } else {
      var t := v[1..];
      assert forall k :: k in v <==> k == v[0] || k in t;
      assert v[0] !in t;
      DistinctCount(t, s - {v[0]});
    }
  }

  class MapIterator<V> {
    var queue: seq<MapNode<V>>
    var current: MapNode?<V>
    ghost const owner: Map<V>
    ghost var keys: seq<int>
    ghost var visited: seq<int>

    ghost predicate Queued()
      reads this, owner, owner.nodes.Values
    {
      && owner.Valid() && QueueIs(owner.nodes, queue, keys) && Progress(owner.shape, owner.spans, keys, visited)
      && InLevels(owner.shape, owner.rootKey, keys, visited)
    }

    /** The iteration goes through all keys, and current is the node visited last, or null at the end. */
    ghost predicate Valid()
      reads this, owner, owner.nodes.Values
    {
      Queued() && if current == null then keys == []
          else visited != [] && owner.Is(current, Some(visited[|visited| - 1]))
    }

    constructor (m: Map<V>)
      requires m.Valid()
      ensures owner == m && Valid() && |visited| == if current == null then 0 else 1
    {
      hide *;
      owner, queue, current, keys, visited := m, [], m.root, [], [];
      new;
      IterationStarts(m);
      NoneQueued(m.nodes);
      if m.root != null {
        Queue(m.root, m.rootKey);
        keys := keys + [m.rootKey.key];
        assert keys == [m.rootKey.key];
        IsQueued();
        Advance();
      } else {
        IsQueued();
        AtEnd();
      }
    }

    lemma IsQueued()
      requires owner.Valid() && QueueIs(owner.nodes, queue, keys) && Progress(owner.shape, owner.spans, keys, visited)
               && InLevels(owner.shape, owner.rootKey, keys, visited)
      ensures Queued()
    {
    }

    lemma AtEnd()
      requires Queued() && current == null && keys == []
      ensures Valid()
    {
    }

    method Queue(n: MapNode<V>, ghost o: Opt)
      requires QueueIs(owner.nodes, queue, keys) && owner.Is(n, o)
      modifies this`queue
      ensures o.Some? && QueueIs(owner.nodes, queue, keys + [o.key]) && queue == old(queue) + [n]
    {
      QueuedMore(owner.nodes, queue, keys, n, o);
      queue := queue + [n];
    }

    /** Goes on to the next node, and queues its children. */
    method Advance()
      requires Queued()
      modifies this
      ensures Valid() && (current == null <==> old(keys) == [])
      ensures visited == old(visited) + if old(keys) == [] then [] else [old(keys)[0]]
    {
      hide Map.Valid;
      hide Progress;
      hide InLevels;
      hide QueueIs;
      QueueFirst(owner.nodes, queue, keys);
      if |queue| != 0 {
        ghost var l, r := FirstNode(owner, queue, keys, visited);
        current := queue[0];
        queue := queue[1..];
        visited := visited + [keys[0]];
        keys := keys[1..];
        if current.left != null {
          Queue(current.left, l);
          keys := keys + [l.key];
        }
        if current.right != null {
          Queue(current.right, r);
          keys := keys + [r.key];
        }
      } else {
        current := null;
      }
    }
  }

  lemma NoneQueued<V>(nodes: map<int, MapNode<V>>)
    ensures QueueIs(nodes, [], [])
  {
  }

  lemma QueuedMore<V>(nodes: map<int, MapNode<V>>, queue: seq<MapNode<V>>, keys: seq<int>, n: MapNode<V>, o: Opt)
    requires QueueIs(nodes, queue, keys) && n == Ref(nodes, o)
    ensures o.Some? && QueueIs(nodes, queue + [n], keys + [o.key])
  {
  }

  lemma QueueFirst<V>(nodes: map<int, MapNode<V>>, queue: seq<MapNode<V>>, keys: seq<int>)
    requires QueueIs(nodes, queue, keys)
    ensures (queue == [] <==> keys == []) && (queue != [] ==> QueueIs(nodes, queue[1..], keys[1..]))
  {
  }

  lemma IterationStarts<V>(m: Map<V>)
    requires m.Valid()
    ensures m.Is(m.root, m.rootKey) && (m.root == null <==> m.rootKey.None?)
    ensures Progress(m.shape, m.spans, if m.rootKey.None? then [] else [m.rootKey.key], [])
    ensures InLevels(m.shape, m.rootKey, if m.rootKey.None? then [] else [m.rootKey.key], [])
  {
    hide Ordered;
    hide Balanced;
    hide Map.Linked;
    m.RootNode();
    m.KeysAgree();
    ProgressStarts(m.shape, m.spans, m.rootKey);
    LevelsStart(m.shape, m.rootKey);
  }

  /** The first queued node, its children, and where visiting it leads. */
  lemma FirstNode<V>(m: Map<V>, queue: seq<MapNode<V>>, keys: seq<int>, visited: seq<int>) returns (l: Opt, r: Opt)
    requires m.Valid() && QueueIs(m.nodes, queue, keys) && Progress(m.shape, m.spans, keys, visited) && keys != []
    requires InLevels(m.shape, m.rootKey, keys, visited)
    ensures m.Is(queue[0], Some(keys[0])) && m.Is(queue[0].left, l) && m.Is(queue[0].right, r)
    ensures (queue[0].left == null <==> l.None?) && (queue[0].right == null <==> r.None?)
    ensures Progress(m.shape, m.spans, Extend(Extend(keys[1..], l), r), visited + [keys[0]])
    ensures InLevels(m.shape, m.rootKey, Extend(Extend(keys[1..], l), r), visited + [keys[0]])
  {
    hide InLevels;
    hide Ordered;
    hide Balanced;
    hide Map.Linked;
    m.KeysAgree();
    Progresses(m.shape, m.spans, m.rootKey, keys, visited);
    LevelsAdvance(m.shape, m.rootKey, keys, visited);
    m.NodeLinks(keys[0]);
    KidParent(m.shape, m.spans, m.rootKey, keys[0]);
    l, r := m.shape[keys[0]].left, m.shape[keys[0]].right;
  }

  /** The entries of a map as a loop over it sees them: every key once, with its value, count of them in all. */
  method Entries<V>(m: Map<V>) returns (r: seq<(int, V)>)
    requires m.Valid()
    ensures |r| == m.count
    ensures forall i, j | 0 <= i < j < |r| :: r[i].0 != r[j].0
    ensures forall i | 0 <= i < |r| :: r[i].0 in m.content && r[i].1 == m.content[r[i].0]
    ensures forall k | k in m.content :: exists i :: 0 <= i < |r| && r[i].0 == k
    ensures exists d: nat ::
              Level(m.shape, m.rootKey, d) == [] && InOrder(r, Levels(m.shape, m.rootKey, d))
  {
    hide Map.Valid;
    hide Progress;
    hide InLevels;
    hide InOrder;
    hide QueueIs;
    r := [];
    var it := new MapIterator(m);
    while it.current != null
      invariant it.owner == m && it.Valid() && fresh(it)
      invariant |it.visited| == |r| + if it.current == null then 0 else 1
      invariant Listed(r, it.visited, m.content)
      decreases |m.shape.Keys| - |r|
    {
      CurrentEntry(m, it.current, it.keys, it.visited);
      r := r + [(it.current.key, it.current.value)];
      it.Advance();
    }
    AllListed(m, r, it.visited);
    InOrderOf(m, r, it.visited);
  }

  /** The entries are those of the keys, in order. */
  ghost predicate InOrder<V>(r: seq<(int, V)>, ks: seq<int>) {
    |r| == |ks| && forall i | 0 <= i < |r| :: r[i].0 == ks[i]
  }

  lemma InOrderOf<V>(m: Map<V>, r: seq<(int, V)>, visited: seq<int>)
    requires InLevels(m.shape, m.rootKey, [], visited) && Listed(r, visited, m.content) && |r| == |visited|
    ensures exists d: nat ::
              Level(m.shape, m.rootKey, d) == [] && InOrder(r, Levels(m.shape, m.rootKey, d))
  {
    hide InLevels;
    LevelsEnd(m.shape, m.rootKey, visited);
    var d: nat :| Level(m.shape, m.rootKey, d) == [] && visited == Levels(m.shape, m.rootKey, d);
    assert InOrder(r, Levels(m.shape, m.rootKey, d));
  }

  lemma CurrentEntry<V>(m: Map<V>, n: MapNode<V>, keys: seq<int>, visited: seq<int>)
    requires m.Valid() && visited != [] && m.Is(n, Some(visited[|visited| - 1]))
             && Progress(m.shape, m.spans, keys, visited)
    ensures n.key == visited[|visited| - 1] && n.key in m.content && n.value == m.content[n.key]
            && |visited| <= |m.shape.Keys|
  {
    hide Ordered;
    hide Balanced;
    hide Map.Linked;
    hide Progress;
    m.KeysAgree();
    m.NodeLinks(visited[|visited| - 1]);
    VisitedBound(m.shape, m.spans, keys, visited);
  }

  lemma AllListed<V>(m: Map<V>, r: seq<(int, V)>, visited: seq<int>)
    requires m.Valid() && Progress(m.shape, m.spans, [], visited) && Listed(r, visited, m.content) && |r| == |visited|
    ensures |r| == m.count && forall i, j | 0 <= i < j < |r| :: r[i].0 != r[j].0
    ensures forall k | k in m.content :: exists i :: 0 <= i < |r| && r[i].0 == k
  {
    hide Ordered;
    hide Balanced;
    hide Map.Linked;
    m.KeysAgree();
    AllVisited(m.shape, m.spans, visited);
    assert |m.content| == |m.content.Keys|;
    forall k | k in m.content ensures exists i :: 0 <= i < |r| && r[i].0 == k {
      assert k in m.content.Keys;
      var i :| 0 <= i < |visited| && visited[i] == k;
      assert r[i].0 == k;
    }
  }

  /** The entries listed are those of the keys visited, in that order. */
  ghost predicate Listed<V>(r: seq<(int, V)>, visited: seq<int>, content: map<int, V>) {
    |r| <= |visited| && forall i | 0 <= i < |r| ::
        r[i].0 == visited[i] && r[i].0 in content && r[i].1 == content[r[i].0]
  }

  lemma VisitedBound(shape: Shape, spans: Spans, keys: seq<int>, visited: seq<int>)
    requires Progress(shape, spans, keys, visited)
    ensures |visited| <= |shape.Keys|
  {
    var s := set k | k in visited;
    DistinctCount(visited, s);
    assert s <= shape.Keys;
    Smaller(s, shape.Keys);
  }

  lemma {:induction false} Smaller(s: set<int>, t: set<int>)
    requires s <= t
    ensures |s| <= |t|
  {
    assert t == s + (t - s);
  }
}
