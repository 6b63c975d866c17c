/** Whole runs of the buddy allocator: every interleaving of allocations, frees of held blocks
    and reservations, as the operations' contracts describe them. */
module BuddyRuns {
  import opened Blocks
  import opened FreeLists

  datatype Event =
    | Alloc(order: nat, run: int)
    | Free(page: nat, order: nat)
    | Reserve(page: nat, reserved: bool)

  /** The lists, the blocks handed out and not yet freed, and the pages reserved so far. */
  datatype State = State(lists: Lists, held: set<(nat, nat)>, reserved: set<nat>)

  ghost predicate Step(n: nat, s: State, e: Event, t: State) {
    match e
    case Alloc(order, run) =>
      && Allocates(s.lists, t.lists, n, order, run)
      && t.reserved == s.reserved
      && t.held == if run >= 0 then s.held + {(run, order)} else s.held
    case Free(page, order) =>
      && (page, order) in s.held
      && Frees(s.lists, t.lists, n, page, order)
      && t.reserved == s.reserved
      && t.held == s.held - {(page, order)}
    case Reserve(page, reserved) =>
      && Reserves(s.lists, t.lists, n, page, reserved)
      && t.held == s.held
      && t.reserved == if reserved then s.reserved + {page} else s.reserved
  }

  ghost predicate Start(n: nat, s: State) {
    Resting(s.lists, n) && FreeSet(s.lists, n) == AllPages(n) && s.held == {} && s.reserved == {}
  }

  ghost predicate Run(n: nat, states: seq<State>, events: seq<Event>) {
    && |states| == |events| + 1 && Start(n, states[0])
    && forall i | 0 <= i < |events| :: Step(n, states[i], events[i], states[i + 1])
  }

  ghost predicate Below(x: nat, n: nat) {
    x < n
  }

  ghost function AllPages(n: nat): set<nat> {
    set x: nat | x < n && Below(x, n)
  }

  ghost predicate IsHeld(held: set<(nat, nat)>, x: nat) {
    exists h :: h in held && InBlock(x, h.0, h.1)
  }

  ghost function HeldPages(n: nat, held: set<(nat, nat)>): set<nat> {
    set x: nat | x < n && IsHeld(held, x)
  }

  /** Every page is exactly one of free, in one held block, or reserved. */
  ghost predicate Accounted(n: nat, s: State) {
    && Resting(s.lists, n)
    && (forall h | h in s.held :: h.1 < MAX_ORDER && Aligned(h.0, h.1) && h.0 + PagesPerBlock(h.1) <= n)
    && (forall x, g, h | g in s.held && h in s.held && InBlock(x, g.0, g.1) && InBlock(x, h.0, h.1) :: g == h)
    && FreeSet(s.lists, n) !! HeldPages(n, s.held)
    && FreeSet(s.lists, n) + HeldPages(n, s.held) !! s.reserved
    && FreeSet(s.lists, n) + HeldPages(n, s.held) + s.reserved == AllPages(n)
  }

  /** Freeing a held block meets the allocator's demand: its pages are not free. */
  lemma HeldIsFreeable(n: nat, s: State, page: nat, order: nat)
    requires Accounted(n, s) && (page, order) in s.held
    ensures Freeable(s.lists, n, page, order)
  {
    forall x | x in BlockPages(page, order) ensures x in HeldPages(n, s.held) {
      assert InBlock(x, (page, order).0, (page, order).1);
    }
  }

  lemma AllocKeepsAccount(n: nat, s: State, order: nat, run: nat, t: State)
    requires Accounted(n, s) && Step(n, s, Alloc(order, run), t)
    ensures Accounted(n, t)
  {
    var h := (run, order);
    var block := BlockPages(run, order);
    FirstPage(run, order);
    forall x: nat ensures x in HeldPages(n, t.held) <==> x in HeldPages(n, s.held) || x in block {
      assert x in block <==> InBlock(x, h.0, h.1);
      if IsHeld(s.held, x) {
        var g :| g in s.held && InBlock(x, g.0, g.1);
        assert g in t.held;
      }
      assert h in t.held;
    }
    forall x, g | g in s.held && InBlock(x, g.0, g.1) ensures !InBlock(x, h.0, h.1) {
      assert x in HeldPages(n, s.held);
      assert x in block <==> InBlock(x, h.0, h.1);
    }
  }

  lemma FreeKeepsAccount(n: nat, s: State, page: nat, order: nat, t: State)
    requires Accounted(n, s) && Step(n, s, Free(page, order), t)
    ensures Accounted(n, t)
  {
    var h := (page, order);
    var block := BlockPages(page, order);
    forall x: nat ensures x in HeldPages(n, t.held) <==> x in HeldPages(n, s.held) && x !in block {
      assert x in block <==> InBlock(x, h.0, h.1);
      if x in HeldPages(n, s.held) {
        var g :| g in s.held && InBlock(x, g.0, g.1);
        assert g == h || g in t.held;
      }
      if IsHeld(t.held, x) {
        var g :| g in t.held && InBlock(x, g.0, g.1);
        assert g in s.held;
      }
    }
    forall x | x in block ensures x in HeldPages(n, s.held) {
      assert InBlock(x, h.0, h.1);
    }
  }

  lemma StepKeepsAccount(n: nat, s: State, e: Event, t: State)
    requires Accounted(n, s) && Step(n, s, e, t)
    ensures Accounted(n, t)
  {
    match e
    case Alloc(order, run) => if run >= 0 { AllocKeepsAccount(n, s, order, run, t); }
    case Free(page, order) => FreeKeepsAccount(n, s, page, order, t);
    case Reserve(page, reserved) =>
  }

  /** In every state of every run each page is free, held once, or reserved. */
  lemma {:induction false} RunAccountsForEveryPage(n: nat, states: seq<State>, events: seq<Event>, i: nat)
    requires Run(n, states, events) && i < |states|
    ensures Accounted(n, states[i])
  {
    if i > 0 {
      RunAccountsForEveryPage(n, states, events, i - 1);
      StepKeepsAccount(n, states[i - 1], events[i - 1], states[i - 1 + 1]);
    }
  }

  /** The lists after a run depend only on which pages are outstanding, not on the run. */
  lemma SameOutstandingSameLists(n: nat, s1: seq<State>, e1: seq<Event>, i: nat, s2: seq<State>, e2: seq<Event>, j: nat)
    requires Run(n, s1, e1) && i < |s1| && Run(n, s2, e2) && j < |s2|
    requires HeldPages(n, s1[i].held) + s1[i].reserved == HeldPages(n, s2[j].held) + s2[j].reserved
    ensures s1[i].lists == s2[j].lists
    ensures Canonical(s1[i].lists, AllPages(n) - HeldPages(n, s1[i].held) - s1[i].reserved)
  {
    RunAccountsForEveryPage(n, s1, e1, i);
    RunAccountsForEveryPage(n, s2, e2, j);
    var out := HeldPages(n, s1[i].held) + s1[i].reserved;
    assert FreeSet(s1[i].lists, n) == AllPages(n) - out == FreeSet(s2[j].lists, n);
    assert AllPages(n) - HeldPages(n, s1[i].held) - s1[i].reserved == AllPages(n) - out;
    SameFreeSetSameLists(s1[i].lists, s2[j].lists, n);
    RestingIsCanonical(s1[i].lists, n);
  }

  // ----- Conservation -----

  /** The pages in the listed blocks of the orders below k: 2^j for each block of order j. */
  ghost function ListedBelow(lists: Lists, k: nat): nat
    requires k <= |lists|
  {
    if k == 0 then 0 else ListedBelow(lists, k - 1) + PagesPerBlock(k - 1) * |lists[k - 1]|
  }

  ghost function PagesIn(s: set<nat>, n: nat, k: nat): set<nat> {
    set x: nat | x < n && Base(x, k) in s
  }

  ghost predicate CoveredBelow(lists: Lists, x: nat, k: nat) {
    exists j: nat :: j < k && Covers(lists, x, j)
  }

  ghost function FreeBelow(lists: Lists, n: nat, k: nat): set<nat> {
    set x: nat | x < n && CoveredBelow(lists, x, k)
  }

  lemma OneBlockMore(s: set<nat>, p: nat, n: nat, k: nat)
    requires p !in s && Aligned(p, k) && p + PagesPerBlock(k) <= n
    ensures |PagesIn(s + {p}, n, k)| == |PagesIn(s, n, k)| + PagesPerBlock(k)
  {
    BlockSize(p, k);
    forall x: nat ensures x in BlockPages(p, k) <==> x < n && Base(x, k) == p {
      BlockHolds(x, p, k);
      assert x in BlockPages(p, k) <==> InBlock(x, p, k);
    }
    var a, b := PagesIn(s, n, k), BlockPages(p, k);
    assert a !! b;
    assert |a + b| == |a| + |b|;
    assert PagesIn(s + {p}, n, k) == a + b;
  }

  /** s blocks of order k are |s| times 2^k pages. */
  lemma {:induction false} BlocksSize(s: set<nat>, n: nat, k: nat)
    requires forall p | p in s :: Aligned(p, k) && p + PagesPerBlock(k) <= n
    ensures |PagesIn(s, n, k)| == PagesPerBlock(k) * |s|
    decreases |s|
  {
    if s == {} {
      assert PagesIn(s, n, k) == {};
    } else {
      var p :| p in s;
      var rest := s - {p};
      assert s == rest + {p} && |s| == |rest| + 1;
      BlocksSize(rest, n, k);
      OneBlockMore(rest, p, n, k);
      Distribute(PagesPerBlock(k), |rest|);
    }
  }

  lemma Distribute(a: nat, b: nat)
    ensures a * (b + 1) == a * b + a
  {
  }

  lemma BlockHolds(x: nat, p: nat, k: nat)
    requires Aligned(p, k)
    ensures x in BlockPages(p, k) <==> Base(x, k) == p
  {
    BaseBounds(x, k);
    if InBlock(x, p, k) { BaseUnique(x, p, k); }
    assert x in BlockPages(p, k) <==> InBlock(x, p, k);
  }

  lemma FreeBelowStep(lists: Lists, n: nat, k: nat)
    requires Disjoint(lists, n) && k < |lists|
    ensures FreeBelow(lists, n, k + 1) == FreeBelow(lists, n, k) + PagesIn(lists[k], n, k)
    ensures FreeBelow(lists, n, k) !! PagesIn(lists[k], n, k)
  {
    forall x: nat | x < n ensures CoveredBelow(lists, x, k + 1) <==> CoveredBelow(lists, x, k) || Covers(lists, x, k) {
      if CoveredBelow(lists, x, k) {
        var j: nat :| j < k && Covers(lists, x, j);
        assert j < k + 1;
      }
    }
    forall x: nat ensures !(CoveredBelow(lists, x, k) && Covers(lists, x, k)) {
      if CoveredBelow(lists, x, k) {
        var j: nat :| j < k && Covers(lists, x, j);
      }
    }
    forall x: nat ensures x in PagesIn(lists[k], n, k) ==> Covers(lists, x, k) {
    }
  }

  lemma {:induction false} FreeBelowSize(lists: Lists, n: nat, k: nat)
    requires Disjoint(lists, n) && k <= |lists|
    ensures |FreeBelow(lists, n, k)| == ListedBelow(lists, k)
  {
    if k == 0 {
      assert FreeBelow(lists, n, k) == {};
    } else {
      FreeBelowSize(lists, n, k - 1);
      BlocksSize(lists[k - 1], n, k - 1);
      FreeBelowStep(lists, n, k - 1);
    }
  }

  /** The listed blocks hold as many pages as are free. */
  lemma ListedIsFree(lists: Lists, n: nat)
    requires Disjoint(lists, n)
    ensures ListedBelow(lists, MAX_ORDER) == |FreeSet(lists, n)|
  {
    FreeBelowSize(lists, n, MAX_ORDER);
    forall x: nat | x < n ensures IsFree(lists, x) <==> CoveredBelow(lists, x, MAX_ORDER) {
      if IsFree(lists, x) {
        var k: nat :| Covers(lists, x, k);
        assert k < MAX_ORDER;
      }
    }
    assert FreeSet(lists, n) == FreeBelow(lists, n, MAX_ORDER);
  }

  lemma AllPagesSize(n: nat)
    ensures |AllPages(n)| == n
  {
    forall x: nat ensures x in AllPages(n) <==> 0 <= x < n {
      assert x in AllPages(n) <==> x < n && Below(x, n);
    }
    IntervalSize(0, n, AllPages(n));
  }

  /** Conservation: listed blocks, held pages and reserved pages always add up to all the pages. */
  lemma PagesAreConserved(n: nat, states: seq<State>, events: seq<Event>, i: nat)
    requires Run(n, states, events) && i < |states|
    ensures |states[i].lists| == MAX_ORDER
    ensures ListedBelow(states[i].lists, MAX_ORDER) + |HeldPages(n, states[i].held)| + |states[i].reserved| == n
  {
    var s := states[i];
    RunAccountsForEveryPage(n, states, events, i);
    ListedIsFree(s.lists, n);
    AllPagesSize(n);
    var a, b := FreeSet(s.lists, n), HeldPages(n, s.held);
    assert |a + b| == |a| + |b|;
    assert |a + b + s.reserved| == |a + b| + |s.reserved|;
  }
}
