/** What a change of one thread's state does to the others: whoever waits for it is woken, and whoever
    waits for those, and so on. */
module Wakeups {
  import opened Sequences

  type Entity = nat

  datatype EntityState = Stopped | Sleeping | Runnable | Running

  /** The events threads can wait for: a change of a thread's state, or of a process's. */
  datatype Event = ThreadChanged(entity: Entity) | ProcessChanged(process: nat)

  type States = map<Entity, EntityState>
  type Waiters = map<Event, seq<Entity>>

  function Waiting(waiters: Waiters, q: Event): seq<Entity> {
    if q in waiters then waiters[q] else []
  }

  ghost function Members(c: seq<Entity>): set<Entity> {
    set w | w in c
  }

  /** The threads that are not runnable. */
  ghost function Resting(state: States): set<Entity> {
    set x | x in state && state[x] != Runnable
  }

  ghost function Changed(state: States, state': States): set<Entity> {
    set x | x in state && x in state' && state'[x] != state[x]
  }

  /** Each of the threads in c is not runnable, and waits for the one before it; the first is one of the roots. */
  ghost predicate Chain(state: States, waiters: Waiters, roots: set<Entity>, c: seq<Entity>) {
    && c != [] && c[0] in roots
    && (forall x | x in c :: x in Resting(state))
    && forall i | 0 < i < |c| :: c[i] in Waiting(waiters, ThreadChanged(c[i - 1]))
  }

  /** Waking the roots gets to x, through threads that are not runnable. */
  ghost predicate Reached(state: States, waiters: Waiters, roots: set<Entity>, x: Entity) {
    exists c :: Chain(state, waiters, roots, c) && c[|c| - 1] == x
  }

  /** Changing e's state to s really changes it, leaves e not runnable, and wakes threads that wake e again. */
  ghost predicate WakesItself(state: States, waiters: Waiters, e: Entity, s: EntityState) {
    && e in state && state[e] != s && s != Runnable
    && Reached(state[e := s], waiters, Members(Waiting(waiters, ThreadChanged(e))), e)
  }

  /** Every waiting thread is known, and is not the idle thread. */
  ghost predicate Known(state: States, waiters: Waiters, idle: Entity) {
    forall q, w {:trigger w in Waiting(waiters, q)} | w in Waiting(waiters, q) :: w in state && w != idle
  }

  /** The threads in roots were woken, and those waiting for threads that were woken, and no others. */
  ghost predicate Woke(state: States, waiters: Waiters, state': States, waiters': Waiters, roots: set<Entity>) {
    && state'.Keys == state.Keys
    && (forall x | x in roots :: x in state' && state'[x] == Runnable)
    && (forall x | x in Changed(state, state') :: state[x] != Runnable && state'[x] == Runnable)
    && (forall x | x in Changed(state, state') :: Served(waiters, state', waiters', x))
    && (forall x | x in Changed(state, state') :: Reached(state, waiters, roots, x))
    && (forall q {:trigger Waiting(waiters', q)} ::
         Waiting(waiters', q) == Waiting(waiters, q) || (q.ThreadChanged? && q.entity in Changed(state, state')))
  }

  /** All who waited for x are runnable, and nobody waits for it now. */
  ghost predicate Served(waiters: Waiters, state': States, waiters': Waiters, x: Entity) {
    && (forall w | w in Waiting(waiters, ThreadChanged(x)) :: w in state' && state'[w] == Runnable)
    && Waiting(waiters', ThreadChanged(x)) == []
  }

  /** The threads waiting for q were woken, and the list of q is empty. It was not changed before, unless q is
      the change of a thread that was woken itself. */
  ghost predicate WokeList(state: States, waiters: Waiters, state': States, waiters': Waiters, q: Event) {
    && Waiting(waiters', q) == []
    && var before := if q.ThreadChanged? && q.entity in Changed(state, state') then waiters'
         else waiters'[q := Waiting(waiters, q)];
       Woke(state, waiters, state', before, Members(Waiting(waiters, q)))
  }

  lemma SameThreads(s: States, t: States)
    requires s.Keys == t.Keys
    ensures forall x :: x in s <==> x in t
  {
    assert forall x :: x in s <==> x in s.Keys;
    assert forall x :: x in t <==> x in t.Keys;
  }

  lemma NobodyWoke(state: States, waiters: Waiters)
    ensures Woke(state, waiters, state, waiters, {})
  {
  }

  /** One wake-up after another. */
  lemma WokeMore(s0: States, w0: Waiters, s1: States, w1: Waiters, s2: States, w2: Waiters, roots: set<Entity>,
                 more: set<Entity>)
    requires Woke(s0, w0, s1, w1, roots) && Woke(s1, w1, s2, w2, more)
    ensures Woke(s0, w0, s2, w2, roots + more)
  {
    var c1, c2, c := Changed(s0, s1), Changed(s1, s2), Changed(s0, s2);
    SameThreads(s0, s1);
    SameThreads(s1, s2);
    assert c == c1 + c2 && c1 !! c2;
    forall x | x in c ensures Served(w0, s2, w2, x) {
      if x in c1 {
        assert Served(w0, s1, w1, x);
        assert forall w | w in Waiting(w0, ThreadChanged(x)) :: w !in c2;
      } else {
        assert Served(w1, s2, w2, x);
        assert Waiting(w1, ThreadChanged(x)) == Waiting(w0, ThreadChanged(x));
      }
    }
    forall x | x in c ensures Reached(s0, w0, roots + more, x) {
      if x in c1 {
        ReachedBefore(s0, w0, s0, w0, roots, roots + more, x);
      } else {
        assert Resting(s1) <= Resting(s0);
        ReachedBefore(s0, w0, s1, w1, more, roots + more, x);
      }
    }
  }

  /** A chain of threads that are still not runnable was one before. */
  lemma ReachedBefore(s0: States, w0: Waiters, s1: States, w1: Waiters, roots: set<Entity>, more: set<Entity>,
                      x: Entity)
    requires Resting(s1) <= Resting(s0) && roots <= more && Reached(s1, w1, roots, x)
    requires forall y | y in Resting(s1) :: Waiting(w1, ThreadChanged(y)) == Waiting(w0, ThreadChanged(y))
    ensures Reached(s0, w0, more, x)
  {
    var c :| Chain(s1, w1, roots, c) && c[|c| - 1] == x;
    forall i | 0 < i < |c| ensures c[i] in Waiting(w0, ThreadChanged(c[i - 1])) { assert c[i - 1] in c; }
    assert Chain(s0, w0, more, c);
  }

  /** Whoever is reached from those who wait for e is reached from e. */
  lemma ReachedThrough(s0: States, w0: Waiters, e: Entity, x: Entity)
    requires e in Resting(s0)
    requires Reached(s0[e := Runnable], w0, Members(Waiting(w0, ThreadChanged(e))), x)
    ensures Reached(s0, w0, {e}, x)
  {
    var c :| Chain(s0[e := Runnable], w0, Members(Waiting(w0, ThreadChanged(e))), c) && c[|c| - 1] == x;
    var d := [e] + c;
    forall i | 0 < i < |d| ensures d[i] in Waiting(w0, ThreadChanged(d[i - 1])) {
      if i > 1 { assert d[i] == c[i - 1] && d[i - 1] == c[i - 2]; }
    }
    assert Chain(s0, w0, {e}, d) && d[|d| - 1] == x;
  }

  lemma RootReached(state: States, waiters: Waiters, e: Entity)
    requires e in Resting(state)
    ensures Reached(state, waiters, {e}, e)
  {
    assert Chain(state, waiters, {e}, [e]) && [e][0] == e;
  }

  /** Every thread of a chain was woken: the roots, and whoever waited for one that was. */
  lemma {:induction false} ChainWoken(s0: States, w0: Waiters, s1: States, w1: Waiters, roots: set<Entity>,
                                      c: seq<Entity>, k: nat)
    requires Woke(s0, w0, s1, w1, roots) && Chain(s0, w0, roots, c) && k < |c|
    ensures c[k] in Changed(s0, s1)
  {
    assert c[k] in c && c[k] in Resting(s0);
    if k > 0 {
      ChainWoken(s0, w0, s1, w1, roots, c, k - 1);
      assert Served(w0, s1, w1, c[k - 1]);
      assert c[k] in Waiting(w0, ThreadChanged(c[k - 1]));
    }
  }

  /** Exactly the threads reached from the roots were woken. */
  lemma WokeIsReached(s0: States, w0: Waiters, s1: States, w1: Waiters, roots: set<Entity>, x: Entity)
    requires Woke(s0, w0, s1, w1, roots)
    ensures x in Changed(s0, s1) <==> Reached(s0, w0, roots, x)
  {
    if Reached(s0, w0, roots, x) {
      var c :| Chain(s0, w0, roots, c) && c[|c| - 1] == x;
      ChainWoken(s0, w0, s1, w1, roots, c, |c| - 1);
    }
  }

  lemma SameWaiters(s0: States, w0: Waiters, s1: States, w1: Waiters, w1': Waiters, roots: set<Entity>)
    requires Woke(s0, w0, s1, w1, roots) && forall q :: Waiting(w1', q) == Waiting(w1, q)
    ensures Woke(s0, w0, s1, w1', roots)
  {
    forall x | x in Changed(s0, s1) ensures Served(w0, s1, w1', x) { assert Served(w0, s1, w1, x); }
  }

  /** A thread that became runnable, and then woke those who waited for it. */
  lemma SelfWoken(s0: States, w0: Waiters, s1: States, w1: Waiters, e: Entity)
    requires e in s0 && s0[e] != Runnable
    requires var q := ThreadChanged(e);
             && Woke(s0[e := Runnable], w0, s1, w1[q := Waiting(w0, q)], Members(Waiting(w0, q)))
             && Waiting(w1, q) == []
    ensures Woke(s0, w0, s1, w1, {e})
  {
    hide Reached;
    hide Chain;
    var q, mid := ThreadChanged(e), s0[e := Runnable];
    var roots := Members(Waiting(w0, q));
    SameThreads(s1, mid);
    var c, c1 := Changed(s0, s1), Changed(mid, s1);
    assert e !in c1 && s1[e] == Runnable;
    assert c == c1 + {e};
    forall x | x in c ensures Served(w0, s1, w1, x) {
      if x != e { assert Served(w0, s1, w1[q := Waiting(w0, q)], x); }
    }
    forall x | x in c ensures Reached(s0, w0, {e}, x) {
      if x == e { RootReached(s0, w0, e); } else { ReachedThrough(s0, w0, e, x); }
    }
    forall p ensures Waiting(w1, p) == Waiting(w0, p) || (p.ThreadChanged? && p.entity in c) {
      assert Waiting(w1[q := Waiting(w0, q)], p) == Waiting(w0, p) || (p.ThreadChanged? && p.entity in c1);
    }
  }

  lemma RunnableWoken(s0: States, w0: Waiters, e: Entity)
    requires e in s0 && s0[e] == Runnable
    ensures Woke(s0, w0, s0, w0, {e})
  {
  }

  /** What a wake-up leaves is determined: the threads reached through those not runnable, and no others. */
  lemma WokeIsUnique(s0: States, w0: Waiters, s1: States, w1: Waiters, s2: States, w2: Waiters, roots: set<Entity>)
    requires Woke(s0, w0, s1, w1, roots) && Woke(s0, w0, s2, w2, roots)
    ensures s1 == s2 && forall q :: Waiting(w1, q) == Waiting(w2, q)
  {
    var c1, c2 := Changed(s0, s1), Changed(s0, s2);
    forall x ensures x in c1 <==> x in c2 {
      WokeIsReached(s0, w0, s1, w1, roots, x);
      WokeIsReached(s0, w0, s2, w2, roots, x);
    }
    assert c1 == c2;
    SameThreads(s1, s0);
    SameThreads(s2, s0);
    forall x | x in s1 ensures s1[x] == s2[x] { assert x in c1 <==> s1[x] != s0[x]; }
    forall q ensures Waiting(w1, q) == Waiting(w2, q) {
      if q.ThreadChanged? && q.entity in c1 {
        assert Served(w0, s1, w1, q.entity) && Served(w0, s2, w2, q.entity);
      }
    }
  }

  /** Two threads that wait for each other: a already sleeps until b changes, and b, just put on the list of a,
      goes to sleep. Its own change wakes a, and that wakes b, whose list is then emptied. */
  lemma TwoWaits(a: Entity, b: Entity, state: States, waiters: Waiters)
    requires a != b && a in Resting(state) && b in state && state[b] == Runnable
    requires Waiting(waiters, ThreadChanged(b)) == [a] && Waiting(waiters, ThreadChanged(a)) == [b]
    ensures WakesItself(state, waiters, b, Sleeping)
  {
    var c := [a, b];
    assert c[0] in Waiting(waiters, ThreadChanged(b)) && c[1] in Waiting(waiters, ThreadChanged(a));
    assert Chain(state[b := Sleeping], waiters, Members(Waiting(waiters, ThreadChanged(b))), c) && c[1] == b;
  }

  /** A thread that waits for no thread's change never wakes itself, whatever the others wait for. */
  lemma NotWaitingIsSafe(state: States, waiters: Waiters, e: Entity, s: EntityState)
    requires forall y :: e !in Waiting(waiters, ThreadChanged(y))
    ensures !WakesItself(state, waiters, e, s)
  {
    forall c | Chain(state[e := s], waiters, Members(Waiting(waiters, ThreadChanged(e))), c) ensures c[|c| - 1] != e {
      assert |c| == 1 || c[|c| - 1] in Waiting(waiters, ThreadChanged(c[|c| - 2]));
    }
  }

  // ----- The order of waking -----

  /** The threads that waking those of a list wakes, in order, if those in rest are not runnable: each is followed by
      those that it wakes in turn, before the next of the list. */
  ghost function Order(rest: set<Entity>, waiters: Waiters, l: seq<Entity>): seq<Entity>
    decreases rest, l
  {
    if l == [] then []
    else if l[0] !in rest then Order(rest, waiters, l[1..])
    else
      var woken := [l[0]] + Order(rest - {l[0]}, waiters, Waiting(waiters, ThreadChanged(l[0])));
      woken + Order(rest - Members(woken), waiters, l[1..])
  }

  /** Only threads that were not runnable are woken, each once. */
  lemma {:induction false} OrderIn(rest: set<Entity>, waiters: Waiters, l: seq<Entity>)
    ensures Members(Order(rest, waiters, l)) <= rest && Once(Order(rest, waiters, l))
    decreases rest, l
  {
    if l != [] {
      if l[0] !in rest {
        OrderIn(rest, waiters, l[1..]);
      } else {
        var sub := Order(rest - {l[0]}, waiters, Waiting(waiters, ThreadChanged(l[0])));
        OrderIn(rest - {l[0]}, waiters, Waiting(waiters, ThreadChanged(l[0])));
        assert l[0] !in Members(sub);
        OncePrepended(l[0], sub);
        var woken := [l[0]] + sub;
        OrderIn(rest - Members(woken), waiters, l[1..]);
        OnceJoined(woken, Order(rest - Members(woken), waiters, l[1..]));
      }
    }
  }

  lemma OnceJoined(c: seq<Entity>, d: seq<Entity>)
    requires Once(c) && Once(d) && Members(c) !! Members(d)
    ensures Once(c + d) && Members(c + d) == Members(c) + Members(d)
  {
    forall i, j | 0 <= i < j < |c + d| ensures (c + d)[i] != (c + d)[j] {
      assert i < |c| <= j ==> c[i] in Members(c) && d[j - |c|] in Members(d);
    }
  }

  /** Waiters are woken in the order of the list, each with those woken by it. */
  lemma {:induction false} OrderSplits(rest: set<Entity>, waiters: Waiters, l: seq<Entity>, m: seq<Entity>)
    ensures Order(rest, waiters, l + m) ==
            Order(rest, waiters, l) + Order(rest - Members(Order(rest, waiters, l)), waiters, m)
    decreases rest, l
  {
    if l == [] {
      assert l + m == m && rest - Members([]) == rest;
    } else {
      assert (l + m)[1..] == l[1..] + m;
      if l[0] !in rest {
        OrderSplits(rest, waiters, l[1..], m);
      } else {
        var woken := [l[0]] + Order(rest - {l[0]}, waiters, Waiting(waiters, ThreadChanged(l[0])));
        assert l[0] in woken;
        var left := rest - Members(woken);
        OrderSplits(left, waiters, l[1..], m);
        var others := Order(left, waiters, l[1..]);
        assert Members(woken + others) == Members(woken) + Members(others);
        assert left - Members(others) == rest - Members(woken + others);
      }
    }
  }

  /** The lists of threads that are runnable do not matter. */
  lemma {:induction false} OrderSame(rest: set<Entity>, w0: Waiters, w1: Waiters, l: seq<Entity>)
    requires forall y | y in rest :: Waiting(w1, ThreadChanged(y)) == Waiting(w0, ThreadChanged(y))
    ensures Order(rest, w1, l) == Order(rest, w0, l)
    decreases rest, l
  {
    if l != [] {
      if l[0] !in rest {
        OrderSame(rest, w0, w1, l[1..]);
      } else {
        OrderSame(rest - {l[0]}, w0, w1, Waiting(w0, ThreadChanged(l[0])));
        var woken := [l[0]] + Order(rest - {l[0]}, w0, Waiting(w0, ThreadChanged(l[0])));
        assert l[0] in woken;
        OrderSame(rest - Members(woken), w0, w1, l[1..]);
      }
    }
  }

  /** Threads that are all runnable already wake nobody. */
  lemma {:induction false} OrderOfNone(rest: set<Entity>, waiters: Waiters, l: seq<Entity>)
    requires forall x | x in l :: x !in rest
    ensures Order(rest, waiters, l) == []
  {
    if l != [] { OrderOfNone(rest, waiters, l[1..]); }
  }

  /** Threads that are not runnable and nobody waits for are woken in the order of the list. */
  lemma {:induction false} OrderIsList(rest: set<Entity>, waiters: Waiters, l: seq<Entity>)
    requires Once(l) && forall x | x in l :: x in rest && Waiting(waiters, ThreadChanged(x)) == []
    ensures Order(rest, waiters, l) == l
    decreases l
  {
    if l != [] {
      OnceTail(l);
      var woken := [l[0]] + Order(rest - {l[0]}, waiters, []);
      assert woken == [l[0]];
      assert forall x | x in l[1..] :: x in rest - Members(woken);
      OrderIsList(rest - Members(woken), waiters, l[1..]);
    }
  }

  /** Every thread is woken from the list itself, or after one that it waited for. */
  lemma {:induction false} WakersComeFirst(rest: set<Entity>, waiters: Waiters, l: seq<Entity>, k: nat)
    requires k < |Order(rest, waiters, l)|
    ensures var c := Order(rest, waiters, l);
            c[k] in l || exists j :: 0 <= j < k && c[k] in Waiting(waiters, ThreadChanged(c[j]))
    decreases rest, l
  {
    var c := Order(rest, waiters, l);
    if l[0] !in rest {
      WakersComeFirst(rest, waiters, l[1..], k);
      assert c[k] in l[1..] ==> c[k] in l;
    } else {
      var list := Waiting(waiters, ThreadChanged(l[0]));
      var sub := Order(rest - {l[0]}, waiters, list);
      var woken := [l[0]] + sub;
      assert l[0] in woken;
      var others := Order(rest - Members(woken), waiters, l[1..]);
      assert c == woken + others && c[0] == l[0];
      if 0 < k < |woken| {
        WakersComeFirst(rest - {l[0]}, waiters, list, k - 1);
        LaterBy(c, sub, waiters, 1, k - 1, list);
      } else if k >= |woken| {
        WakersComeFirst(rest - Members(woken), waiters, l[1..], k - |woken|);
        LaterBy(c, others, waiters, |woken|, k - |woken|, l[1..]);
      }
    }
  }

  /** A part of a sequence, from n on. */
  lemma LaterBy(c: seq<Entity>, part: seq<Entity>, waiters: Waiters, n: nat, k: nat, l: seq<Entity>)
    requires n + |part| <= |c| && part == c[n..n + |part|] && k < |part|
    requires part[k] in l || exists j :: 0 <= j < k && part[k] in Waiting(waiters, ThreadChanged(part[j]))
    ensures c[n + k] in l || exists j :: 0 <= j < n + k && c[n + k] in Waiting(waiters, ThreadChanged(c[j]))
  {
    if part[k] !in l {
      var j :| 0 <= j < k && part[k] in Waiting(waiters, ThreadChanged(part[j]));
      assert c[n + j] == part[j];
    }
  }

  /** Those of the threads that join the run queue when they become runnable: one that is running is in it already. */
  function Joining(state: States, c: seq<Entity>): seq<Entity> {
    if c == [] then []
    else (if c[0] in state && state[c[0]] == Running then [] else [c[0]]) + Joining(state, c[1..])
  }

  lemma {:induction false} JoiningBoth(state: States, c: seq<Entity>, d: seq<Entity>)
    ensures Joining(state, c + d) == Joining(state, c) + Joining(state, d)
  {
    if c == [] { assert c + d == d; } else { assert (c + d)[1..] == c[1..] + d; JoiningBoth(state, c[1..], d); }
  }

  lemma {:induction false} JoiningSame(s0: States, s1: States, c: seq<Entity>)
    requires forall x | x in c :: x in s0 && x in s1 && s1[x] == s0[x]
    ensures Joining(s1, c) == Joining(s0, c)
  {
    if c != [] { JoiningSame(s0, s1, c[1..]); }
  }

  lemma {:induction false} AllJoin(state: States, c: seq<Entity>)
    requires forall x | x in c :: x in state && state[x] != Running
    ensures Joining(state, c) == c
  {
    if c != [] { AllJoin(state, c[1..]); }
  }

  /** Waking the threads of a list has put those woken that were not running at the end of the run queue, in order. */
  ghost predicate Queued(s0: States, w0: Waiters, rq0: seq<Entity>, s1: States, rq1: seq<Entity>, l: seq<Entity>) {
    var woken := Order(Resting(s0), w0, l);
    rq1 == rq0 + Joining(s0, woken) && Resting(s1) == Resting(s0) - Members(woken) && Kept(s0, s1)
  }

  /** Those that are still not runnable are as they were. */
  ghost predicate Kept(s0: States, s1: States) {
    forall x | x in Resting(s1) :: x in s0 && s1[x] == s0[x]
  }

  /** Different threads that are stopped or asleep, and nobody waits for their changes. */
  ghost predicate Idling(state: States, waiters: Waiters, l: seq<Entity>) {
    && Once(l)
    && forall x | x in l ::
         x in state && (state[x] == Stopped || state[x] == Sleeping) && Waiting(waiters, ThreadChanged(x)) == []
  }

  /** Such threads join the run queue in the order in which they wait. */
  lemma ListQueued(s0: States, w0: Waiters, rq0: seq<Entity>, s1: States, rq1: seq<Entity>, l: seq<Entity>)
    requires Queued(s0, w0, rq0, s1, rq1, l) && Idling(s0, w0, l)
    ensures rq1 == rq0 + l
  {
    OrderIsList(Resting(s0), w0, l);
    AllJoin(s0, l);
  }

  lemma NobodyQueued(s0: States, w0: Waiters, rq0: seq<Entity>, l: seq<Entity>)
    requires forall x | x in l :: x !in Resting(s0)
    ensures Queued(s0, w0, rq0, s0, rq0, l)
  {
    OrderOfNone(Resting(s0), w0, l);
  }

  /** One wake-up after another. */
  lemma QueuedMore(s0: States, w0: Waiters, rq0: seq<Entity>, s1: States, w1: Waiters, rq1: seq<Entity>, s2: States,
                   rq2: seq<Entity>, l: seq<Entity>, m: seq<Entity>)
    requires Queued(s0, w0, rq0, s1, rq1, l) && Queued(s1, w1, rq1, s2, rq2, m)
    requires forall y | y in Resting(s1) :: Waiting(w1, ThreadChanged(y)) == Waiting(w0, ThreadChanged(y))
    ensures Queued(s0, w0, rq0, s2, rq2, l + m)
  {
    hide *;
    var r0, r1 := Resting(s0), Resting(s1);
    var first, last := Order(r0, w0, l), Order(r1, w1, m);
    QueuedSays(s0, w0, rq0, s1, rq1, l, first);
    QueuedSays(s1, w1, rq1, s2, rq2, m, last);
    OrderSame(r1, w0, w1, m);
    OrderSplits(r0, w0, l, m);
    OrderIn(r1, w1, m);
    KeptMembers(s0, s1, last);
    KeptThen(s0, s1, s2);
    JoiningBoth(s0, first, last);
    MembersOfBoth(first, last);
    QueuedSays(s0, w0, rq0, s2, rq2, l + m, first + last);
  }

  lemma QueuedSays(s0: States, w0: Waiters, rq0: seq<Entity>, s1: States, rq1: seq<Entity>, l: seq<Entity>,
                   woken: seq<Entity>)
    requires woken == Order(Resting(s0), w0, l)
    ensures Queued(s0, w0, rq0, s1, rq1, l) <==>
            (rq1 == rq0 + Joining(s0, woken) && Resting(s1) == Resting(s0) - Members(woken) && Kept(s0, s1))
  {
  }

  lemma KeptThen(s0: States, s1: States, s2: States)
    requires Kept(s0, s1) && Kept(s1, s2) && Resting(s2) <= Resting(s1)
    ensures Kept(s0, s2)
  {
  }

  lemma KeptMembers(s0: States, s1: States, c: seq<Entity>)
    requires Members(c) <= Resting(s1) && Kept(s0, s1)
    ensures Joining(s1, c) == Joining(s0, c)
  {
    assert forall x | x in c :: x in Members(c);
    JoiningSame(s0, s1, c);
  }

  lemma MembersOfBoth(a: seq<Entity>, b: seq<Entity>)
    ensures Members(a + b) == Members(a) + Members(b)
  {
  }

  /** A thread that joined the run queue and became runnable, and then woke those who waited for it. */
  lemma QueuedSelf(s0: States, w0: Waiters, rq0: seq<Entity>, rq1: seq<Entity>, s1: States, rq2: seq<Entity>, e: Entity)
    requires e in s0 && s0[e] != Runnable && rq1 == rq0 + if s0[e] == Running then [] else [e]
    requires Queued(s0[e := Runnable], w0, rq1, s1, rq2, Waiting(w0, ThreadChanged(e)))
    ensures Queued(s0, w0, rq0, s1, rq2, [e])
  {
    hide *;
    var mid, l := s0[e := Runnable], Waiting(w0, ThreadChanged(e));
    OneAwake(s0, e);
    var r0, sub := Resting(s0), Order(Resting(mid), w0, l);
    QueuedSays(mid, w0, rq1, s1, rq2, l, sub);
    OrderIn(Resting(mid), w0, l);
    OrderOfOne(r0, w0, e);
    KeptMembers(s0, mid, sub);
    KeptThen(s0, mid, s1);
    JoiningFirst(s0, e, sub);
    MembersOfBoth([e], sub);
    MembersOfOne(e);
    QueuedSays(s0, w0, rq0, s1, rq2, [e], [e] + sub);
  }

  lemma MembersOfOne(e: Entity)
    ensures Members([e]) == {e}
  {
  }

  lemma OneAwake(s0: States, e: Entity)
    requires e in s0 && s0[e] != Runnable
    ensures e in Resting(s0) && Resting(s0[e := Runnable]) == Resting(s0) - {e} && Kept(s0, s0[e := Runnable])
  {
  }

  lemma OrderOfOne(rest: set<Entity>, waiters: Waiters, e: Entity)
    requires e in rest
    ensures Order(rest, waiters, [e]) == [e] + Order(rest - {e}, waiters, Waiting(waiters, ThreadChanged(e)))
  {
    assert [e][1..] == [];
  }

  lemma JoiningFirst(state: States, e: Entity, c: seq<Entity>)
    ensures Joining(state, [e] + c) ==
            (if e in state && state[e] == Running then [] else [e]) + Joining(state, c)
  {
    assert ([e] + c)[1..] == c;
  }

  /** When a list was torn, everyone in it has been woken: nothing is left to do. */
  lemma QueuedAll(s0: States, w0: Waiters, rq0: seq<Entity>, s1: States, rq1: seq<Entity>, l: seq<Entity>, i: nat)
    requires i <= |l| && Queued(s0, w0, rq0, s1, rq1, l[..i]) && forall x | x in l :: x !in Resting(s1)
    ensures Queued(s0, w0, rq0, s1, rq1, l)
  {
    OrderSplits(Resting(s0), w0, l[..i], l[i..]);
    OrderOfNone(Resting(s1), w0, l[i..]);
    assert l[..i] + l[i..] == l;
    var woken := Order(Resting(s0), w0, l[..i]);
    assert woken + [] == woken;
  }

  /** Those that are woken, in order, are exactly those reached. */
  lemma OrderIsReached(s0: States, w0: Waiters, s1: States, w1: Waiters, rq0: seq<Entity>, rq1: seq<Entity>,
                       l: seq<Entity>, x: Entity)
    requires Woke(s0, w0, s1, w1, Members(l)) && Queued(s0, w0, rq0, s1, rq1, l)
    ensures x in Order(Resting(s0), w0, l) <==> Reached(s0, w0, Members(l), x)
  {
    var woken := Order(Resting(s0), w0, l);
    OrderIn(Resting(s0), w0, l);
    WokeIsReached(s0, w0, s1, w1, Members(l), x);
    SameThreads(s0, s1);
    assert x in woken <==> x in Members(woken);
    assert x in Changed(s0, s1) <==> x in Resting(s0) && x !in Resting(s1);
  }
}
