/** The scheduler: thread states, the run queue, and the wake-ups a change of state sets off. */
module Scheduling {
  import opened Sequences
  import opened Wakeups

  datatype Policy = RoundRobin | CompletelyFair

  datatype Choice = Nobody | Thread(entity: Entity)

  /** The time that passes between two ticks of the timer: 10 ms, in nanoseconds. */
  const TICK: nat := 10_000_000

  class Scheduler {
    const idle: Entity
    const policy: Policy
    var active: bool
    var current: Choice
    var now: nat
    var runtime: map<Entity, int>
    var execStart: map<Entity, int>
    var state: States
    var runqueue: seq<Entity>
    var waiters: Waiters
    /** The lists that are being gone through, and those that were emptied while they were. */
    ghost var walked: set<Event>
    ghost var torn: set<Event>

    /** A scheduler that knows the idle thread, started, and the other threads, stopped. */
    constructor (idle: Entity, policy: Policy, threads: set<Entity>)
      requires idle !in threads
      ensures Valid() && Accounted([]) && walked == {} && torn == {} && !active && runqueue == []
              && state.Keys == threads + {idle}
      ensures this.idle == idle && this.policy == policy && now == 0
      ensures forall e | e in threads :: e in state && state[e] == Stopped
    {
      this.idle, this.policy := idle, policy;
      active, current, now := false, Nobody, 0;
      runqueue, waiters := [], map[];
      walked, torn := {}, {};
      state := map e | e in threads + {idle} :: if e == idle then Runnable else Stopped;
      runtime := map e | e in threads + {idle} :: 0;
      execStart := map e | e in threads + {idle} :: 0;
    }

    ghost predicate Valid()
      reads this
    {
      InQueue(state, runqueue, idle) && Known(state, waiters, idle) && idle in state && state[idle] == Runnable
    }

    method AddToRunqueue(e: Entity)
      modifies this`runqueue
      ensures runqueue == old(runqueue) + [e]
    {
      runqueue := runqueue + [e];
    }

    method RemoveFromRunqueue(e: Entity)
      modifies this`runqueue
      ensures runqueue == Without(old(runqueue), e)
    {
      runqueue := Without(runqueue, e);
    }

    /** Wakes everyone who waits for q, and empties the list. The list is torn if that happens inside another
        walk of it, or if q is the change of a thread that is woken meanwhile. */
    method Wake(q: Event)
      requires Valid()
      modifies this`state, this`runqueue, this`waiters, this`walked, this`torn
      ensures Valid() && walked == old(walked)
      ensures WokeList(old(state), old(waiters), state, waiters, q)
      ensures Queued(old(state), old(waiters), old(runqueue), state, runqueue, Waiting(old(waiters), q))
      ensures Idling(old(state), old(waiters), Waiting(old(waiters), q)) ==>
                runqueue == old(runqueue) + Waiting(old(waiters), q)
      ensures MoreTorn(old(torn) + ({q} * old(walked)), old(walked) + {q}, Changed(old(state), state), torn)
      decreases 0, Resting(state), 3
    {
      hide Woke;
      hide InQueue;
      hide Known;
      hide Changed;
      hide Queued;
      hide Idling;
      ghost var s0, w0, rq0 := state, waiters, runqueue;
      ghost var within := q in walked;
      walked := walked + {q};
      WakeEach(q);
      ghost var w2, t2 := waiters, torn;
      waiters := waiters[q := []];
      if within { torn := torn + {q}; } else { walked := walked - {q}; }
      Cleared(s0, w0, state, w2, q, idle);
      if Idling(s0, w0, Waiting(w0, q)) { ListQueued(s0, w0, rq0, state, runqueue, Waiting(w0, q)); }
    }

    /** Wakes the threads in the list of q, one by one. What the list is, is looked up anew for each: if it was
        torn, the source goes on from a deleted node, and the walk ends here. */
    method WakeEach(q: Event)
      requires Valid()
      modifies this`state, this`runqueue, this`waiters, this`walked, this`torn
      ensures Valid() && walked == old(walked)
      ensures Woke(old(state), old(waiters), state, waiters, Members(Waiting(old(waiters), q)))
      ensures Queued(old(state), old(waiters), old(runqueue), state, runqueue, Waiting(old(waiters), q))
      ensures MoreTorn(old(torn), old(walked), Changed(old(state), state), torn)
      decreases 0, Resting(state), 2
    {
      hide Woke;
      hide InQueue;
      hide Known;
      hide Changed;
      hide Resting;
      hide MoreTorn;
      hide Queued;
      ghost var s0, w0, rq0, t0, l := state, waiters, runqueue, torn, Waiting(waiters, q);
      ghost var roots: set<Entity> := {};
      NobodyWoke(s0, w0);
      NobodyQueued(s0, w0, rq0, []);
      assert l[..0] == [];
      NoneTorn(s0, walked, torn);
      var i := 0;
      while i < |Waiting(waiters, q)|
        invariant Valid() && walked == old(walked)
        invariant Woke(s0, w0, state, waiters, roots) && MoreTorn(t0, walked, Changed(s0, state), torn)
        invariant roots <= Members(l) && 0 <= i <= |l| && Queued(s0, w0, rq0, state, runqueue, l[..i])
        invariant if q.ThreadChanged? && q.entity in Changed(s0, state) then Waiting(waiters, q) == []
                  else Waiting(waiters, q) == l && roots == Members(l[..i])
      {
        ghost var s1, w1, rq1, t1 := state, waiters, runqueue, torn;
        var w := Waiting(waiters, q)[i];
        StillKnown(s1, w1, q, idle, w);
        RestingFewer(s0, w0, s1, w1, roots);
        WakeUp(w);
        ListsKept(s0, w0, s1, w1, roots);
        QueuedMore(s0, w0, rq0, s1, w1, rq1, state, runqueue, l[..i], [w]);
        WokeMore(s0, w0, s1, w1, state, waiters, roots, {w});
        TornTwice(s0, w0, s1, w1, roots, state, waiters, {w}, t0, walked, t1, torn);
        ListAfter(s0, w0, state, waiters, roots + {w}, q);
        roots := roots + {w};
        i := i + 1;
        assert l[..i] == l[..i - 1] + [w];
      }
      AllWoken(s0, w0, state, waiters, roots, q, i);
      NoneRests(s0, w0, state, waiters, l);
      QueuedAll(s0, w0, rq0, state, runqueue, l, i);
    }

    /** Makes a thread runnable, and wakes those who wait for it. Nothing can go wrong: it is runnable when its
        list is gone through, so that it is not woken again. */
    method WakeUp(e: Entity)
      requires Valid() && e in state && e != idle
      modifies this`state, this`runqueue, this`waiters, this`walked, this`torn
      ensures Valid() && walked == old(walked)
      ensures Woke(old(state), old(waiters), state, waiters, {e})
      ensures Queued(old(state), old(waiters), old(runqueue), state, runqueue, [e])
      ensures MoreTorn(old(torn), old(walked), Changed(old(state), state), torn)
      decreases 0, Resting(state), 1
    {
      SetEntityState(e, Runnable);
    }

    /** Changes the state of a thread, keeps the run queue in step, and wakes those who wait for the change. The
        thread's list is torn exactly if the thread wakes itself. */
    method SetEntityState(e: Entity, s: EntityState)
      requires Valid() && e in state && e != idle && (s == Running ==> state[e] == Running || state[e] == Runnable)
      requires s == Runnable || walked == {}
      modifies this`state, this`runqueue, this`waiters, this`walked, this`torn
      ensures Valid() && state.Keys == old(state).Keys && walked == old(walked)
      ensures s != Runnable ==>
                torn == old(torn) + if WakesItself(old(state), old(waiters), e, s) then {ThreadChanged(e)} else {}
      ensures s == Runnable ==> Woke(old(state), old(waiters), state, waiters, {e})
      ensures s == Runnable ==> MoreTorn(old(torn), old(walked), Changed(old(state), state), torn)
      ensures old(state)[e] == s ==> state == old(state) && runqueue == old(runqueue) && waiters == old(waiters)
      ensures old(state)[e] != s ==>
                WokeList(old(state)[e := s], old(waiters), state, waiters, ThreadChanged(e))
                && Queued(old(state)[e := s], old(waiters), Rejoined(old(state), old(runqueue), e, s),
                state, runqueue, Waiting(old(waiters), ThreadChanged(e)))
      ensures s == Runnable ==> Queued(old(state), old(waiters), old(runqueue), state, runqueue, [e])
      ensures !WakesItself(old(state), old(waiters), e, s) ==> e in state && state[e] == s
      decreases if s == Runnable then 0 else 1, Resting(state), 0
    {
      hide Woke;
      hide MoreTorn;
      hide WakesItself;
      hide WokeList;
      hide Queued;
      hide Rejoined;
      hide Idling;
      ghost var s0, w0, rq0, t0 := state, waiters, runqueue, torn;
      if state[e] == s {
        if s == Runnable { NobodyQueued(s0, w0, rq0, [e]); }
        Unchanged(s0, w0, e, s, walked, torn);
        return;
      }
      Requeue(e, s);
      state := state[e := s];
      KnownKept(s0, state, waiters, idle);
      if s == Runnable { assert e in Resting(s0) && e !in Resting(state); }
      Wake(ThreadChanged(e));
      AfterWake(s0, w0, state, waiters, e, s, t0, walked, torn);
      if s == Runnable { JoinedAndWoken(s0, w0, rq0, state, runqueue, e); }
    }

    /** Puts a thread into the run queue, or takes it out, for its new state. */
    method Requeue(e: Entity, s: EntityState)
      requires InQueue(state, runqueue, idle) && e in state && e != idle && state[e] != s
               && (s == Running ==> state[e] == Runnable)
      modifies this`runqueue
      ensures InQueue(state[e := s], runqueue, idle)
      ensures runqueue == Rejoined(state, old(runqueue), e, s)
    {
      WithoutMembers(runqueue, e);
      if s == Runnable {
        if state[e] == Stopped || state[e] == Sleeping {
          AddToRunqueue(e);
        }
      } else if s == Stopped || s == Sleeping {
        if state[e] == Runnable || state[e] == Running {
          RemoveFromRunqueue(e);
        }
      }
    }

    /** Puts the running thread to sleep until q: on the list of q, and out of the run queue. */
    method Sleep(e: Entity, q: Event)
      requires Valid() && e in state && e != idle && walked == {}
      modifies this`state, this`runqueue, this`waiters, this`walked, this`torn
      ensures Valid() && state.Keys == old(state).Keys && walked == {}
      ensures var w1 := old(waiters)[q := Waiting(old(waiters), q) + [e]];
              var bad := WakesItself(old(state), w1, e, Sleeping);
              && torn == old(torn) + (if bad then {ThreadChanged(e)} else {})
              && (!bad ==> e in state && state[e] == Sleeping && e !in runqueue && e in Waiting(waiters, q))
              && (old(state)[e] == Sleeping ==> state == old(state) && waiters == w1 && runqueue == old(runqueue))
              && (old(state)[e] != Sleeping ==>
                   WokeList(old(state)[e := Sleeping], w1, state, waiters, ThreadChanged(e))
                   && Queued(old(state)[e := Sleeping], w1, Without(old(runqueue), e),
                   state, runqueue, Waiting(w1, ThreadChanged(e))))
    {
      hide Woke;
      hide Changed;
      hide Queued;
      hide WakesItself;
      hide WokeList;
      ghost var s0, w0 := state, waiters;
      waiters := waiters[q := Waiting(waiters, q) + [e]];
      MoreWaiting(state, w0, waiters, q, e, idle);
      ghost var w1 := waiters;
      SetEntityState(e, Sleeping);
      if s0[e] != Sleeping && !WakesItself(s0, w1, e, Sleeping) { StillWaiting(s0, w1, state, waiters, e, q); }
    }

    /** Two threads that go to sleep until the other one changes: the second one's list is torn. */
    method WaitForEachOther(a: Entity, b: Entity)
      requires Valid() && walked == {} && a != b && a != idle && b != idle
      requires a in state && b in state && state[a] == Runnable == state[b]
      requires Waiting(waiters, ThreadChanged(a)) == [] == Waiting(waiters, ThreadChanged(b))
      modifies this`state, this`runqueue, this`waiters, this`walked, this`torn
      ensures torn == old(torn) + {ThreadChanged(b)}
    {
      hide WakesItself;
      ghost var s0, w0 := state, waiters;
      Sleep(a, ThreadChanged(b));
      FirstSleeps(s0, w0, state, waiters, a, b);
      ghost var w1 := waiters[ThreadChanged(a) := Waiting(waiters, ThreadChanged(a)) + [b]];
      TwoWaits(a, b, state, w1);
      Sleep(b, ThreadChanged(a));
    }

    // ----- Choosing a thread -----

    ghost predicate Runtimes()
      reads this
    {
      state.Keys == runtime.Keys == execStart.Keys && forall x | x in state :: x in runtime && x in execStart
    }

    /** Round robin takes the thread at the front to the back; the completely fair policy takes the first
        of those that have run least. */
    method PickNextEntity() returns (next: Choice)
      requires InQueue(state, runqueue, idle) && Runtimes()
      modifies this`runqueue
      ensures InQueue(state, runqueue, idle) && Members(runqueue) == Members(old(runqueue))
      ensures if old(runqueue) == [] then next == Nobody && runqueue == []
              else next.Thread? && next.entity in old(runqueue)
      ensures policy == RoundRobin ==>
                runqueue == Turned(old(runqueue)) && (runqueue != [] ==> next == Thread(old(runqueue)[0]))
      ensures policy == CompletelyFair ==>
                runqueue == old(runqueue)
                && (next.Thread? ==>
                Least(runqueue, runtime, next.entity) && FirstLeast(runqueue, runtime, next.entity))
    {
      if |runqueue| == 0 {
        return Nobody;
      }
      if policy == RoundRobin {
        var first := runqueue[0];
        runqueue := runqueue[1..];
        runqueue := runqueue + [first];
        TurnKeeps(old(runqueue));
        return Thread(first);
      }
      next := LeastRun();
    }

    /** The first of the threads in the queue that have run least. */
    method LeastRun() returns (next: Choice)
      requires InQueue(state, runqueue, idle) && Runtimes() && runqueue != []
      ensures next.Thread? && next.entity in runqueue && Least(runqueue, runtime, next.entity)
              && FirstLeast(runqueue, runtime, next.entity)
    {
      hide Least;
      hide FirstLeast;
      RunTimesKnown();
      hide InQueue;
      FirstOfOne(runqueue, runtime);
      if |runqueue| == 1 {
        return Thread(runqueue[0]);
      }
      next := Nobody;
      var least := 0;
      for i := 0 to |runqueue|
        invariant if i == 0 then next == Nobody
                  else next.Thread? && next.entity in runtime && least == runtime[next.entity]
        invariant i > 0 ==>
                    Least(runqueue[..i], runtime, next.entity) && FirstLeast(runqueue[..i], runtime, next.entity)
        modifies {}
      {
        var e := runqueue[i];
        assert e in runqueue && runqueue[..i + 1] == runqueue[..i] + [e];
        if i > 0 { FirstLeastMore(runqueue[..i], runtime, next.entity, e); }
        if next == Nobody || runtime[e] < least {
          next := Thread(e);
          least := runtime[e];
        }
      }
      assert runqueue[..|runqueue|] == runqueue;
      FirstIsMember(runqueue, runtime, next.entity);
    }

    lemma RunTimesKnown()
      requires InQueue(state, runqueue, idle) && Runtimes()
      ensures forall x | x in runqueue :: x in runtime
    {
    }

    /** Makes the chosen thread, or the idle thread, the current one. Its activation asserts that it is runnable:
        the assert fires exactly if another thread than the current one was chosen that has been marked running. */
    method Schedule() returns (next: Choice, fired: bool)
      requires InQueue(state, runqueue, idle) && Runtimes() && idle in state && state[idle] == Runnable
      modifies this`runqueue, this`current, this`execStart
      ensures InQueue(state, runqueue, idle) && Runtimes() && Members(runqueue) == Members(old(runqueue))
      ensures !active ==> !fired && current == old(current) && runqueue == old(runqueue) && execStart == old(execStart)
      ensures active ==> next.Thread? && next.entity in state && Picked(policy, old(runqueue), runtime, idle, next)
      ensures active ==> runqueue == if policy == RoundRobin then Turned(old(runqueue)) else old(runqueue)
      ensures fired <==> active && next != old(current) && state[next.entity] != Runnable
      ensures fired ==> current == old(current) && execStart == old(execStart)
      ensures active && !fired ==> current == next && execStart == old(execStart)[next.entity := now]
    {
      next, fired := Nobody, false;
      if !active { return; }
      SameEmptiness(runqueue);
      next := PickNextEntity();
      SameEmptiness(runqueue);
      if next == Nobody {
        next := Thread(idle);
      }
      if next != current {
        if state[next.entity] != Runnable {
          fired := true;
          return;
        }
        current := next;
      }
      execStart := execStart[current.entity := now];
    }

    /** From here on the timer and the threads themselves choose who runs. */
    method Run()
      modifies this`active
      ensures active
    {
      active := true;
    }

    // ----- Accounting -----

    /** Every tick's time was charged to the thread that was current then; ledger lists those, by tick. */
    ghost predicate Accounted(ledger: seq<Choice>)
      reads this
    {
      && Runtimes() && (current.Thread? ==> current.entity in state && execStart[current.entity] == now)
      && (active || current == Nobody)
      && Charged(runtime, ledger)
    }

    lemma CurrentIn(ledger: seq<Choice>)
      requires Accounted(ledger)
      ensures Runtimes() && (current.Thread? ==> current.entity in state && current.entity in runtime)
    {
    }

    method UpdateAccounting()
      requires Runtimes() && (current.Thread? ==> current.entity in state)
      modifies this`runtime, this`execStart
      ensures Runtimes()
      ensures if current == Nobody then runtime == old(runtime) && execStart == old(execStart)
              else var e := current.entity;
                && runtime == old(runtime)[e := old(runtime)[e] + (now - old(execStart)[e])]
                && execStart == old(execStart)[e := now]
    {
      if current != Nobody {
        var e := current.entity;
        var delta := now - execStart[e];
        runtime := runtime[e := runtime[e] + delta];
        execStart := execStart[e := now];
      }
    }

    /** The timer's interrupt: time goes on, the current thread is charged, and the next is chosen. */
    method Tick(ghost ledger: seq<Choice>)
      requires InQueue(state, runqueue, idle) && idle in state && state[idle] == Runnable && NoneRunning(state)
      requires Accounted(ledger)
      modifies this`now, this`runtime, this`runqueue, this`current, this`execStart
      ensures InQueue(state, runqueue, idle) && Accounted(ledger + [old(current)])
      ensures now == old(now) + TICK && (!active ==> current == old(current) && runqueue == old(runqueue))
      ensures runtime == if old(current) == Nobody then old(runtime) else
                var e := old(current.entity); old(runtime)[e := old(runtime)[e] + TICK]
      ensures active ==> Picked(policy, old(runqueue), runtime, idle, current)
      ensures active ==> runqueue == if policy == RoundRobin then Turned(old(runqueue)) else old(runqueue)
    {
      hide InQueue;
      hide Charged;
      hide Picked;
      ChargeOne(runtime, ledger, current);
      now := now + TICK;
      UpdateAccounting();
      var _, _ := Schedule();
    }

    /** Giving up the processor chooses again, without charge. */
    method Yield(ghost ledger: seq<Choice>)
      requires InQueue(state, runqueue, idle) && idle in state && state[idle] == Runnable && NoneRunning(state)
      requires Accounted(ledger)
      modifies this`runqueue, this`current, this`execStart
      ensures InQueue(state, runqueue, idle) && Accounted(ledger)
      ensures !active ==> current == old(current) && runqueue == old(runqueue)
      ensures active ==> Picked(policy, old(runqueue), runtime, idle, current)
      ensures active ==> runqueue == if policy == RoundRobin then Turned(old(runqueue)) else old(runqueue)
    {
      hide InQueue;
      hide Charged;
      hide Picked;
      var _, _ := Schedule();
    }

    /** Under the completely fair policy, with the same threads runnable: the run times stay within the larger of
        the gap at the start and one tick, at every one of the next n ticks, exactly if they do at the first; that
        is, if the thread that is current at the start is not too far ahead. In any case they stay within one tick
        more than the gap. The history holds the run times after each tick. */
    method Ticks(n: nat, ghost ledger: seq<Choice>, ghost gap: int)
        returns (ghost after: seq<Choice>, ghost history: seq<map<Entity, int>>)
      requires InQueue(state, runqueue, idle) && idle in state && state[idle] == Runnable && NoneRunning(state)
      requires Accounted(ledger) && active && policy == CompletelyFair && Within(runqueue, runtime, gap)
      modifies this`now, this`runtime, this`runqueue, this`current, this`execStart
      ensures Accounted(after) && |after| == |ledger| + n && ledger <= after && runqueue == old(runqueue)
      ensures |history| == n && (n > 0 ==> history[n - 1] == runtime)
      ensures forall i: nat | i < n :: history[i].Keys == runtime.Keys && Charged(history[i], after[..|ledger| + i + 1])
      ensures n > 0 ==>
                ((forall i: nat | i < n :: Within(runqueue, history[i], AtLeastTick(gap))) <==>
                    NotAhead(runqueue, old(runtime), old(current), AtLeastTick(gap)))
      ensures forall i: nat | i < n :: Within(runqueue, history[i], OneTickMore(gap))
    {
      hide *;
      after, history := ledger, [];
      ghost var q, r0, c0 := runqueue, runtime, current;
      CurrentIn(ledger);
      NothingYet(q, r0, c0, gap, ledger);
      for i := 0 to n
        invariant InQueue(state, runqueue, idle) && Accounted(after) && ledger <= after && runqueue == q
        invariant |history| == i && |after| == |ledger| + i && Recorded(history, after, |ledger|, r0.Keys)
        invariant if i == 0 then runtime == r0 && current == c0
                  else history[i - 1] == runtime && Picked(policy, q, runtime, idle, current)
        invariant Spread(q, r0, c0, gap, history)
      {
        ghost var r, c, before := runtime, current, after;
        CurrentIn(after);
        TickGap(policy, q, r0, c0, gap, history, r, c, idle);
        IsTicked(r, c);
        Tick(after);
        after := after + [c];
        ChargedNow(after);
        RecordedMore(history, before, |ledger|, r0.Keys, runtime, c);
        history := history + [runtime];
      }
      SpreadSays(q, r0, c0, gap, history);
      RecordedSays(history, after, |ledger|, r0.Keys);
    }

    function Snap(): Snapshot
      reads this
    {
      Snapshot(active, current, now, runtime, state, runqueue, waiters)
    }

    /** One step of a run. */
    method Take(step: Step, ghost ledger: seq<Choice>) returns (ghost after: seq<Choice>)
      requires Valid() && walked == {} && NoneRunning(state) && Accounted(ledger) && Admissible(step, state, idle)
      modifies this
      ensures Valid() && walked == {} && NoneRunning(state) && Accounted(after) && state.Keys == old(state).Keys
      ensures after == if step.Ticking? then ledger + [old(current)] else ledger
      ensures Does(policy, idle, step, old(Snap()), Snap())
    {
      hide InQueue;
      hide Known;
      hide WokeList;
      hide WakesItself;
      hide Queued;
      hide Charged;
      hide Picked;
      after := ledger;
      match step {
        case Change(e, s) =>
          TakeChange(e, s, ledger);
        case SleepingUntil(e, q) =>
          TakeSleep(e, q, ledger);
        case Waking(q) =>
          TakeWake(q, ledger);
        case Starting =>
          Run();
        case Ticking =>
          after := ledger + [current];
          Tick(ledger);
        case Yielding =>
          Yield(ledger);
      }
    }

    method TakeChange(e: Entity, s: EntityState, ghost ledger: seq<Choice>)
      requires Valid() && walked == {} && NoneRunning(state) && Accounted(ledger)
      requires e in state && e != idle && s != Running
      modifies this`state, this`runqueue, this`waiters, this`walked, this`torn
      ensures Valid() && walked == {} && NoneRunning(state) && Accounted(ledger) && state.Keys == old(state).Keys
      ensures Changes(old(Snap()), Snap(), e, s)
    {
      hide InQueue;
      hide Known;
      hide WokeList;
      hide WakesItself;
      hide Queued;
      hide Charged;
      hide Rejoined;
      ghost var s0, w0, rq0 := state, waiters, runqueue;
      SetEntityState(e, s);
      if s0[e] != s { WokeNoneRunning(s0[e := s], w0, state, waiters, ThreadChanged(e)); }
      NotRunning(s0, rq0, e, s);
    }

    method TakeSleep(e: Entity, q: Event, ghost ledger: seq<Choice>)
      requires Valid() && walked == {} && NoneRunning(state) && Accounted(ledger) && e in state && e != idle
      modifies this`state, this`runqueue, this`waiters, this`walked, this`torn
      ensures Valid() && walked == {} && NoneRunning(state) && Accounted(ledger) && state.Keys == old(state).Keys
      ensures Sleeps(old(Snap()), Snap(), e, q)
    {
      hide InQueue;
      hide Known;
      hide WokeList;
      hide WakesItself;
      hide Queued;
      hide Charged;
      ghost var s0, w0 := state, waiters;
      Sleep(e, q);
      if s0[e] != Sleeping {
        ghost var w1 := w0[q := Waiting(w0, q) + [e]];
        WokeNoneRunning(s0[e := Sleeping], w1, state, waiters, ThreadChanged(e));
      }
    }

    method TakeWake(q: Event, ghost ledger: seq<Choice>)
      requires Valid() && walked == {} && NoneRunning(state) && Accounted(ledger)
      modifies this`state, this`runqueue, this`waiters, this`walked, this`torn
      ensures Valid() && walked == {} && NoneRunning(state) && Accounted(ledger) && state.Keys == old(state).Keys
      ensures Wakes(old(Snap()), Snap(), q)
    {
      hide InQueue;
      hide Known;
      hide WokeList;
      hide WakesItself;
      hide Queued;
      hide Charged;
      ghost var s0, w0 := state, waiters;
      Wake(q);
      WokeNoneRunning(s0, w0, state, waiters, q);
    }

    /** Whatever changes of state, sleeps, wake-ups, ticks and yields follow each other from a state in which
        nobody has run: the run queue stays in step, and all run times together are the ticks that found
        any thread current. The source's own run is that of the model as long as no list is torn. */
    method Perform(steps: seq<Step>, ghost es: seq<Entity>)
        returns (ghost ledger: seq<Choice>, ghost trace: seq<Snapshot>)
      requires Valid() && walked == {} && NoneRunning(state) && Accounted([])
      requires forall step | step in steps :: Admissible(step, state, idle)
      requires Once(es) && Members(es) == state.Keys
      modifies this
      ensures Valid() && NoneRunning(state) && Accounted(ledger) && state.Keys == old(state).Keys
      ensures |ledger| == TicksAmong(steps)
      ensures Traced(policy, idle, steps, trace) && trace[0] == old(Snap()) && trace[|steps|] == Snap()
      ensures Members(es) == runtime.Keys && (forall x | x in es :: x in runtime)
              && Sum(runtime, es) == TICK * Busy(ledger)
    {
      hide InQueue;
      hide Known;
      hide Charged;
      hide Traced;
      hide Does;
      ledger, trace := [], [Snap()];
      NothingTraced(policy, idle, Snap());
      for i := 0 to |steps|
        invariant Valid() && walked == {} && NoneRunning(state) && Accounted(ledger) && state.Keys == old(state).Keys
        invariant |trace| == i + 1 && trace[0] == old(Snap()) && trace[i] == Snap()
        invariant Traced(policy, idle, steps[..i], trace)
        invariant |ledger| == TicksAmong(steps[..i]) && forall c | c in ledger :: c.Thread? ==> c.entity in es
      {
        SameKeys(steps[i], old(state), state, idle);
        CurrentAmong(ledger, es);
        ledger := Take(steps[i], ledger);
        TracedMore(policy, idle, steps, i, trace, Snap());
        trace := trace + [Snap()];
        TicksMore(steps, i);
      }
      assert steps[..|steps|] == steps;
      TracedAll(policy, idle, steps, trace);
      SumOfAll(ledger, es);
    }

    lemma CurrentAmong(ledger: seq<Choice>, es: seq<Entity>)
      requires Accounted(ledger) && Members(es) == state.Keys
      ensures current.Thread? ==> current.entity in es
    {
      assert current.Thread? ==> current.entity in state.Keys;
    }

    lemma SumOfAll(ledger: seq<Choice>, es: seq<Entity>)
      requires Accounted(ledger) && Once(es) && Members(es) == state.Keys && forall c | c in ledger ::
                 c.Thread? ==> c.entity in es
      ensures Members(es) == runtime.Keys && (forall x | x in es :: x in runtime)
              && Sum(runtime, es) == TICK * Busy(ledger)
    {
      forall x | x in es ensures x in runtime { assert x in Members(es); }
      TimeAddsUp(runtime, ledger, es);
      BusyIsAny(ledger, es);
    }

    lemma ChargedNow(ledger: seq<Choice>)
      requires Accounted(ledger)
      ensures Charged(runtime, ledger)
    {
    }
  }

  /** What can happen: a change of a thread's state, a thread that goes to sleep until an event, an event, the start
      of the scheduler, a tick of the timer, and a thread that gives up the processor. */
  datatype Step =
    | Change(e: Entity, s: EntityState)
    | SleepingUntil(sleeper: Entity, q: Event)
    | Waking(event: Event)
    | Starting
    | Ticking
    | Yielding

  /** What there is to see of the scheduler between two steps. */
  datatype Snapshot = Snapshot(active: bool, current: Choice, now: nat, runtime: map<Entity, int>, state: States,
                               runqueue: seq<Entity>, waiters: Waiters)

  /** What a change of e's state to s does, with no thread running: nothing if that is e's state; else e goes to the
      end of the run queue or out of it, and then those who wait for its change are woken, and join the run queue in
      order. */
  ghost predicate Changes(a: Snapshot, b: Snapshot, e: Entity, s: EntityState) {
    && b == a.(state := b.state, runqueue := b.runqueue, waiters := b.waiters)
    && e in a.state
    && if a.state[e] == s then b == a
       else
         var q, mid, rq := ThreadChanged(e), a.state[e := s],
           if s == Runnable then a.runqueue + [e] else Without(a.runqueue, e);
         && WokeList(mid, a.waiters, b.state, b.waiters, q)
         && Queued(mid, a.waiters, rq, b.state, b.runqueue, Waiting(a.waiters, q))
  }

  /** Going to sleep until q is waiting in its list, and then a change of state. */
  ghost predicate Sleeps(a: Snapshot, b: Snapshot, e: Entity, q: Event) {
    Changes(a.(waiters := a.waiters[q := Waiting(a.waiters, q) + [e]]), b, e, Sleeping)
  }

  ghost predicate Wakes(a: Snapshot, b: Snapshot, q: Event) {
    && b == a.(state := b.state, runqueue := b.runqueue, waiters := b.waiters)
    && WokeList(a.state, a.waiters, b.state, b.waiters, q)
    && Queued(a.state, a.waiters, a.runqueue, b.state, b.runqueue, Waiting(a.waiters, q))
  }

  /** Once the scheduler is active, the policy chooses who is current. */
  ghost predicate Chooses(policy: Policy, idle: Entity, a: Snapshot, b: Snapshot) {
    && b.active == a.active && b.state == a.state && b.waiters == a.waiters
    && if a.active
       then Picked(policy, a.runqueue, b.runtime, idle, b.current)
            && b.runqueue == if policy == RoundRobin then Turned(a.runqueue) else a.runqueue
       else b.current == a.current && b.runqueue == a.runqueue
  }

  /** What a step does to what there is to see. A tick is 10 ms, and is charged to the thread that was current. */
  ghost predicate Does(policy: Policy, idle: Entity, step: Step, a: Snapshot, b: Snapshot) {
    match step
    case Change(e, s) => Changes(a, b, e, s)
    case SleepingUntil(e, q) => Sleeps(a, b, e, q)
    case Waking(q) => Wakes(a, b, q)
    case Starting => b == a.(active := true)
    case Ticking =>
      && Chooses(policy, idle, a, b) && b.now == a.now + 10_000_000
      && (a.current == Nobody ==> b.runtime == a.runtime)
      && (a.current.Thread? ==>
           var e := a.current.entity;
           e in a.runtime && b.runtime == a.runtime[e := a.runtime[e] + 10_000_000])
    case Yielding =>
      Chooses(policy, idle, a, b) && b.now == a.now && b.runtime == a.runtime
  }

  /** Each step of a run does what it is to do. */
  ghost predicate Traced(policy: Policy, idle: Entity, steps: seq<Step>, trace: seq<Snapshot>) {
    && |trace| == |steps| + 1
    && forall i | 0 <= i < |steps| :: Does(policy, idle, steps[i], trace[i], trace[i + 1])
  }

  lemma NothingTraced(policy: Policy, idle: Entity, a: Snapshot)
    ensures Traced(policy, idle, [], [a])
  {
  }

  lemma TracedAll(policy: Policy, idle: Entity, steps: seq<Step>, trace: seq<Snapshot>)
    requires Traced(policy, idle, steps, trace)
    ensures |trace| == |steps| + 1
  {
  }

  lemma TracedMore(policy: Policy, idle: Entity, steps: seq<Step>, i: nat, trace: seq<Snapshot>, b: Snapshot)
    requires i < |steps| && Traced(policy, idle, steps[..i], trace) && Does(policy, idle, steps[i], trace[i], b)
    ensures Traced(policy, idle, steps[..i + 1], trace + [b])
  {
    hide Does;
  }

  lemma NotRunning(state: States, runqueue: seq<Entity>, e: Entity, s: EntityState)
    requires NoneRunning(state) && e in state && s != Running
    ensures Rejoined(state, runqueue, e, s) == if s == Runnable then runqueue + [e] else Without(runqueue, e)
  {
  }

  /** Steps are about known threads other than the idle one, and nothing marks a thread running. */
  ghost predicate Admissible(step: Step, state: States, idle: Entity) {
    && (step.Change? ==> step.e in state && step.e != idle && step.s != Running)
    && (step.SleepingUntil? ==> step.sleeper in state && step.sleeper != idle)
  }

  function TicksAmong(steps: seq<Step>): nat {
    if steps == [] then 0 else TicksAmong(steps[..|steps| - 1]) + if steps[|steps| - 1].Ticking? then 1 else 0
  }

  lemma TicksMore(steps: seq<Step>, i: nat)
    requires i < |steps|
    ensures TicksAmong(steps[..i + 1]) == TicksAmong(steps[..i]) + if steps[i].Ticking? then 1 else 0
  {
    assert steps[..i + 1][..i] == steps[..i];
  }

  lemma SameKeys(step: Step, s0: States, s1: States, idle: Entity)
    requires Admissible(step, s0, idle) && s1.Keys == s0.Keys
    ensures Admissible(step, s1, idle)
  {
    SameThreads(s1, s0);
  }

  lemma WokeNoneRunning(s0: States, w0: Waiters, s1: States, w1: Waiters, q: Event)
    requires WokeList(s0, w0, s1, w1, q) && NoneRunning(s0)
    ensures NoneRunning(s1) && s1.Keys == s0.Keys
  {
    forall x | x in s1 ensures s1[x] != Running {
      assert x in s1.Keys && x in s0.Keys;
      assert x in Changed(s0, s1) || s1[x] == s0[x];
    }
  }

  /** The ticks that found any thread current. */
  function Busy(ledger: seq<Choice>): nat {
    if ledger == [] then 0 else Busy(ledger[1..]) + if ledger[0].Thread? then 1 else 0
  }

  lemma {:induction false} BusyIsAny(ledger: seq<Choice>, es: seq<Entity>)
    requires forall c | c in ledger :: c.Thread? ==> c.entity in es
    ensures CountAny(ledger, es) == Busy(ledger)
  {
    if ledger != [] {
      assert ledger[0] in ledger;
      BusyIsAny(ledger[1..], es);
    }
  }

  /** Each thread has run one tick for every time it was found current. */
  ghost predicate Charged(runtime: map<Entity, int>, ledger: seq<Choice>) {
    forall x | x in runtime :: runtime[x] == TICK * Count(ledger, x)
  }

  lemma ChargeOne(runtime: map<Entity, int>, ledger: seq<Choice>, c: Choice)
    requires Charged(runtime, ledger) && (c.Thread? ==> c.entity in runtime)
    ensures Charged(if c == Nobody then runtime else runtime[c.entity := runtime[c.entity] + TICK], ledger + [c])
  {
    forall x
      ensures Count(ledger + [c], x) == Count(ledger, x) + if c == Thread(x) then 1 else 0
    {
      CountMore(ledger, c, x);
    }
  }

  /** The run times of all threads add up to the ticks that found any of them current. */
  lemma {:induction false} TimeAddsUp(runtime: map<Entity, int>, ledger: seq<Choice>, es: seq<Entity>)
    requires Charged(runtime, ledger) && Once(es) && forall x | x in es :: x in runtime
    ensures Sum(runtime, es) == TICK * CountAny(ledger, es)
  {
    if es != [] {
      OnceTail(es);
      TimeAddsUp(runtime, ledger, es[1..]);
      CountSplits(ledger, es);
    } else {
      CountNone(ledger);
    }
  }

  ghost function Sum(runtime: map<Entity, int>, es: seq<Entity>): int
    requires forall x | x in es :: x in runtime
  {
    if es == [] then 0 else runtime[es[0]] + Sum(runtime, es[1..])
  }

  /** How many of the ticks found one of the threads current. */
  function CountAny(ledger: seq<Choice>, es: seq<Entity>): nat {
    if ledger == [] then 0 else CountAny(ledger[1..], es) + if ledger[0].Thread? && ledger[0].entity in es then 1 else 0
  }

  lemma {:induction false} CountSplits(ledger: seq<Choice>, es: seq<Entity>)
    requires es != [] && es[0] !in es[1..]
    ensures CountAny(ledger, es) == Count(ledger, es[0]) + CountAny(ledger, es[1..])
  {
    if ledger != [] { CountSplits(ledger[1..], es); }
  }

  lemma {:induction false} CountNone(ledger: seq<Choice>)
    ensures CountAny(ledger, []) == 0
  {
    if ledger != [] { CountNone(ledger[1..]); }
  }

  /** Member e has run no longer than any other. */
  ghost predicate Least(q: seq<Entity>, runtime: map<Entity, int>, e: Entity) {
    e in runtime && forall x | x in q :: x in runtime && runtime[e] <= runtime[x]
  }

  /** Whom the policy chooses: the front under round robin, the first of those that have run least under the
      completely fair one, and the idle thread if the queue is empty. */
  ghost predicate Picked(policy: Policy, q: seq<Entity>, runtime: map<Entity, int>, idle: Entity, next: Choice) {
    if q == [] then next == Thread(idle)
    else if policy == RoundRobin then next == Thread(q[0])
    else next.Thread? && next.entity in q && Least(q, runtime, next.entity) && FirstLeast(q, runtime, next.entity)
  }

  /** No thread is marked running; nothing in the kernel ever does that. */
  ghost predicate NoneRunning(state: States) {
    forall x | x in state :: state[x] != Running
  }

  /** Those ahead of e in the queue have all run longer. */
  ghost predicate FirstLeast(q: seq<Entity>, runtime: map<Entity, int>, e: Entity) {
    e in runtime && exists i ::
        0 <= i < |q| && q[i] == e && forall j | 0 <= j < i :: q[j] in runtime && runtime[q[j]] > runtime[e]
  }

  lemma FirstOfOne(q: seq<Entity>, runtime: map<Entity, int>)
    requires q != [] && q[0] in runtime
    ensures Least(q[..1], runtime, q[0]) && FirstLeast(q[..1], runtime, q[0])
    ensures |q| == 1 ==> Least(q, runtime, q[0]) && FirstLeast(q, runtime, q[0])
  {
    assert q[..1][0] == q[0];
  }

  lemma FirstIsMember(q: seq<Entity>, runtime: map<Entity, int>, e: Entity)
    requires FirstLeast(q, runtime, e)
    ensures e in q
  {
  }

  lemma FirstLeastMore(q: seq<Entity>, runtime: map<Entity, int>, least: Entity, e: Entity)
    requires Least(q, runtime, least) && FirstLeast(q, runtime, least) && e in runtime
    ensures FirstLeast(q + [e], runtime, if runtime[e] < runtime[least] then e else least)
    ensures Least(q + [e], runtime, if runtime[e] < runtime[least] then e else least)
  {
    var r := q + [e];
    if runtime[e] < runtime[least] {
      assert r[|q|] == e;
      assert forall j | 0 <= j < |q| :: r[j] == q[j] && q[j] in q;
    } else {
      var i :| 0 <= i < |q| && q[i] == least && forall j | 0 <= j < i ::
          q[j] in runtime && runtime[q[j]] > runtime[least];
      assert r[i] == least;
    }
  }

  /** No two members' run times are further apart than gap. */
  ghost predicate Within(q: seq<Entity>, runtime: map<Entity, int>, gap: int) {
    forall x, y | x in q && y in q :: x in runtime && y in runtime && runtime[x] - runtime[y] <= gap
  }

  function AtLeastTick(gap: int): int {
    if gap > TICK then gap else TICK
  }

  function OneTickMore(gap: int): int {
    (if gap > 0 then gap else 0) + TICK
  }

  /** The run times after a tick that found c current. */
  ghost function Ticked(runtime: map<Entity, int>, c: Choice): map<Entity, int>
    requires c.Thread? ==> c.entity in runtime
  {
    if c == Nobody then runtime else runtime[c.entity := runtime[c.entity] + TICK]
  }

  /** Unless c is not in the queue, one more tick does not take it further ahead of anyone than gap. */
  ghost predicate NotAhead(q: seq<Entity>, runtime: map<Entity, int>, c: Choice, gap: int) {
    c.Thread? && c.entity in q ==>
        forall x | x in q :: c.entity in runtime && x in runtime && runtime[c.entity] + TICK - runtime[x] <= gap
  }

  /** A tick keeps a gap of one tick or more exactly if it does not take the current thread further ahead. */
  lemma LaterTick(q: seq<Entity>, runtime: map<Entity, int>, c: Choice, gap: int)
    requires gap >= TICK && (c.Thread? ==> c.entity in runtime)
    ensures Within(q, runtime, gap) ==> (Within(q, Ticked(runtime, c), gap) <==> NotAhead(q, runtime, c, gap))
  {
    if Within(q, runtime, gap) && c.Thread? && c.entity in q && !NotAhead(q, runtime, c, gap) {
      var x :| x in q && runtime[c.entity] + TICK - runtime[x] > gap;
      assert x != c.entity && Ticked(runtime, c)[c.entity] - Ticked(runtime, c)[x] > gap;
    }
  }

  lemma FirstTick(q: seq<Entity>, runtime: map<Entity, int>, c: Choice, gap: int)
    requires Within(q, runtime, gap) && (c.Thread? ==> c.entity in runtime)
    ensures Within(q, Ticked(runtime, c), AtLeastTick(gap)) <==> NotAhead(q, runtime, c, AtLeastTick(gap))
    ensures Within(q, Ticked(runtime, c), OneTickMore(gap))
  {
    LaterTick(q, runtime, c, AtLeastTick(gap));
    assert Within(q, runtime, AtLeastTick(gap));
  }

  /** What the run times after each tick have in common: they stay within one tick more than the gap, and within
      the larger of gap and tick exactly if the first tick kept to that. */
  ghost predicate Spread(q: seq<Entity>, r0: map<Entity, int>, c0: Choice, gap: int, history: seq<map<Entity, int>>) {
    && (forall r | r in history :: Within(q, r, OneTickMore(gap)))
    && (NotAhead(q, r0, c0, AtLeastTick(gap)) ==> forall r | r in history :: Within(q, r, AtLeastTick(gap)))
    && (!NotAhead(q, r0, c0, AtLeastTick(gap)) && history != [] ==> !Within(q, history[0], AtLeastTick(gap)))
  }

  /** The run times of the history are those charged by the ledger, tick by tick. */
  ghost predicate Recorded(history: seq<map<Entity, int>>, ledger: seq<Choice>, start: nat, known: set<Entity>) {
    && |ledger| == start + |history|
    && forall i: nat | i < |history| :: history[i].Keys == known && Charged(history[i], ledger[..start + i + 1])
  }

  lemma NothingYet(q: seq<Entity>, r0: map<Entity, int>, c0: Choice, gap: int, ledger: seq<Choice>)
    ensures Spread(q, r0, c0, gap, []) && Recorded([], ledger, |ledger|, r0.Keys)
  {
  }

  lemma RecordedMore(history: seq<map<Entity, int>>, ledger: seq<Choice>, start: nat, known: set<Entity>,
                     r: map<Entity, int>, c: Choice)
    requires Recorded(history, ledger, start, known) && r.Keys == known && Charged(r, ledger + [c])
    ensures Recorded(history + [r], ledger + [c], start, known)
  {
    hide Charged;
    var more := ledger + [c];
    assert more[..|more|] == more;
    assert forall k | 0 <= k <= |ledger| :: more[..k] == ledger[..k];
  }

  lemma RecordedSays(history: seq<map<Entity, int>>, ledger: seq<Choice>, start: nat, known: set<Entity>)
    requires Recorded(history, ledger, start, known)
    ensures forall i: nat | i < |history| ::
              start + i + 1 <= |ledger| && history[i].Keys == known && Charged(history[i], ledger[..start + i + 1])
    ensures history == [] || history[|history| - 1].Keys == known
  {
  }

  lemma SpreadSays(q: seq<Entity>, r0: map<Entity, int>, c0: Choice, gap: int, history: seq<map<Entity, int>>)
    requires Spread(q, r0, c0, gap, history)
    ensures history != [] ==>
              ((forall i: nat | i < |history| :: Within(q, history[i], AtLeastTick(gap))) <==>
                  NotAhead(q, r0, c0, AtLeastTick(gap)))
    ensures forall i: nat | i < |history| :: Within(q, history[i], OneTickMore(gap))
  {
    hide Within;
    hide NotAhead;
  }

  /** The next tick: the first is charged to whoever is current, and every later one to whom the policy chose. */
  lemma TickGap(policy: Policy, q: seq<Entity>, r0: map<Entity, int>, c0: Choice, gap: int, history: seq<map<Entity,
                int>>,
                r: map<Entity, int>, c: Choice, idle: Entity)
    requires Spread(q, r0, c0, gap, history) && Within(q, r0, gap) && (c.Thread? ==> c.entity in r)
    requires if history == [] then r == r0 && c == c0
             else history[|history| - 1] == r && policy == CompletelyFair && Picked(policy, q, r, idle, c)
    ensures Spread(q, r0, c0, gap, history + [Ticked(r, c)])
  {
    hide Ticked;
    hide NotAhead;
    if history == [] { FirstTick(q, r, c, gap); } else { NextTick(policy, q, r, idle, c, gap); }
    hide Within;
    hide Picked;
    var more := history + [Ticked(r, c)];
    assert forall x | x in more :: x in history || x == Ticked(r, c);
    assert history != [] ==> r in history && more[0] == history[0];
  }

  lemma IsTicked(runtime: map<Entity, int>, c: Choice)
    requires c.Thread? ==> c.entity in runtime
    ensures Ticked(runtime, c) == if c == Nobody then runtime else runtime[c.entity := runtime[c.entity] + TICK]
    ensures Ticked(runtime, c).Keys == runtime.Keys
  {
  }

  /** A thread the policy has chosen gets at most one tick ahead, which keeps the gaps. */
  lemma NextTick(policy: Policy, q: seq<Entity>, runtime: map<Entity, int>, idle: Entity, c: Choice, gap: int)
    requires policy == CompletelyFair && Picked(policy, q, runtime, idle, c) && (c.Thread? ==> c.entity in runtime)
    ensures Within(q, runtime, AtLeastTick(gap)) ==> Within(q, Ticked(runtime, c), AtLeastTick(gap))
    ensures Within(q, runtime, OneTickMore(gap)) ==> Within(q, Ticked(runtime, c), OneTickMore(gap))
  {
    assert forall g | g >= TICK :: NotAhead(q, runtime, c, g);
    LaterTick(q, runtime, c, AtLeastTick(gap));
    LaterTick(q, runtime, c, OneTickMore(gap));
  }

  /** A thread that was asleep while the current one ran for ten ticks, and is woken: at the next tick they are
      eleven ticks apart, more than the larger of the gap and one tick. */
  lemma LateWakerFallsBehind(current: Entity, woken: Entity)
    requires current != woken
    ensures var q, r, gap := [current, woken], map[current := 10 * TICK, woken := 0], 10 * TICK;
            && Within(q, r, gap) && !NotAhead(q, r, Thread(current), AtLeastTick(gap))
            && !Within(q, Ticked(r, Thread(current)), AtLeastTick(gap))
  {
    var q, r, gap := [current, woken], map[current := 10 * TICK, woken := 0], 10 * TICK;
    assert woken in q && current in q;
    LaterTick(q, r, Thread(current), gap);
  }

  /** The front goes to the back. */
  function Turned(q: seq<Entity>): seq<Entity> {
    if q == [] then [] else q[1..] + [q[0]]
  }

  lemma TurnKeeps(q: seq<Entity>)
    ensures forall x :: x in Turned(q) <==> x in q
    ensures Once(q) ==> Once(Turned(q))
    ensures Members(Turned(q)) == Members(q)
  {
    if q != [] {
      assert q == [q[0]] + q[1..];
      if Once(q) {
        var t := Turned(q);
        forall i, j | 0 <= i < j < |t| ensures t[i] != t[j] { assert t[i] == q[i + 1]; }
      }
    }
  }

  lemma SameEmptiness(q: seq<Entity>)
    ensures Members(q) == {} <==> q == []
    ensures forall x :: x in Members(q) <==> x in q
  {
    if q != [] { assert q[0] in Members(q); }
  }

  /** How many of the ticks found x current. */
  function Count(ledger: seq<Choice>, x: Entity): nat {
    if ledger == [] then 0 else Count(ledger[1..], x) + if ledger[0] == Thread(x) then 1 else 0
  }

  lemma {:induction false} CountMore(ledger: seq<Choice>, c: Choice, x: Entity)
    ensures Count(ledger + [c], x) == Count(ledger, x) + if c == Thread(x) then 1 else 0
  {
    if ledger == [] {
      assert ledger + [c] == [c];
    } else {
      assert (ledger + [c])[1..] == ledger[1..] + [c];
      CountMore(ledger[1..], c, x);
    }
  }

  lemma MoreWaiting(state: States, w0: Waiters, w1: Waiters, q: Event, e: Entity, idle: Entity)
    requires Known(state, w0, idle) && e in state && e != idle && w1 == w0[q := Waiting(w0, q) + [e]]
    ensures Known(state, w1, idle) && e in Waiting(w1, q)
  {
    assert forall p :: Waiting(w1, p) == if p == q then Waiting(w0, q) + [e] else Waiting(w0, p);
  }

  /** A thread is in the run queue, once, exactly if it is runnable or running; the idle thread never is. */
  ghost predicate InQueue(state: States, runqueue: seq<Entity>, idle: Entity) {
    && Once(runqueue) && (forall x | x in runqueue :: x in state && x != idle)
    && (forall x | x in state && x != idle :: x in runqueue <==> state[x] == Runnable || state[x] == Running)
  }

  /** The run queue once e, which does not have state s, is put in or taken out for it: a thread that becomes runnable
      goes to the end, unless it was running and so is in it. */
  function Rejoined(state: States, runqueue: seq<Entity>, e: Entity, s: EntityState): seq<Entity> {
    if s == Runnable then (if e in state && state[e] == Running then runqueue else runqueue + [e])
    else if s == Running then runqueue
    else Without(runqueue, e)
  }

  lemma JoinedAndWoken(s0: States, w0: Waiters, rq0: seq<Entity>, s1: States, rq1: seq<Entity>, e: Entity)
    requires e in s0 && s0[e] != Runnable
    requires Queued(s0[e := Runnable], w0, Rejoined(s0, rq0, e, Runnable), s1, rq1, Waiting(w0, ThreadChanged(e)))
    ensures Queued(s0, w0, rq0, s1, rq1, [e])
  {
    hide Queued;
    QueuedSelf(s0, w0, rq0, Rejoined(s0, rq0, e, Runnable), s1, rq1, e);
  }

  /** The lists of threads that still are not runnable are as they were. */
  lemma ListsKept(s0: States, w0: Waiters, s1: States, w1: Waiters, roots: set<Entity>)
    requires Woke(s0, w0, s1, w1, roots)
    ensures forall y | y in Resting(s1) :: Waiting(w1, ThreadChanged(y)) == Waiting(w0, ThreadChanged(y))
  {
  }

  lemma NoneRests(s0: States, w0: Waiters, s1: States, w1: Waiters, l: seq<Entity>)
    requires Woke(s0, w0, s1, w1, Members(l))
    ensures forall x | x in l :: x !in Resting(s1)
  {
    assert forall x | x in l :: x in Members(l);
  }

  lemma KnownKept(s0: States, s1: States, waiters: Waiters, idle: Entity)
    requires Known(s0, waiters, idle) && forall x | x in s0 :: x in s1
    ensures Known(s1, waiters, idle)
  {
  }

  /** Of the lists being gone through, those of the threads that changed were torn. */
  ghost predicate MoreTorn(t0: set<Event>, walked: set<Event>, changed: set<Entity>, t1: set<Event>) {
    forall p :: p in t1 <==> p in t0 || (p in walked && p.ThreadChanged? && p.entity in changed)
  }

  lemma NoneTorn(state: States, walked: set<Event>, torn: set<Event>)
    ensures MoreTorn(torn, walked, Changed(state, state), torn) && Changed(state, state) == {}
  {
  }

  lemma TornTwice(s0: States, w0: Waiters, s1: States, w1: Waiters, roots: set<Entity>, s2: States, w2: Waiters,
                  more: set<Entity>,
                  t0: set<Event>, walked: set<Event>, t1: set<Event>, t2: set<Event>)
    requires Woke(s0, w0, s1, w1, roots) && Woke(s1, w1, s2, w2, more)
    requires MoreTorn(t0, walked, Changed(s0, s1), t1) && MoreTorn(t1, walked, Changed(s1, s2), t2)
    ensures MoreTorn(t0, walked, Changed(s0, s2), t2)
  {
    SameThreads(s0, s1);
    SameThreads(s1, s2);
    assert Changed(s0, s2) == Changed(s0, s1) + Changed(s1, s2);
  }

  lemma StillKnown(state: States, waiters: Waiters, q: Event, idle: Entity, w: Entity)
    requires Known(state, waiters, idle) && w in Waiting(waiters, q)
    ensures w in state && w != idle
  {
  }

  /** A list changes only if it is of a thread that was woken, and then it is empty. */
  lemma ListAfter(s0: States, w0: Waiters, s1: States, w1: Waiters, roots: set<Entity>, q: Event)
    requires Woke(s0, w0, s1, w1, roots)
    ensures Waiting(w1, q) == if q.ThreadChanged? && q.entity in Changed(s0, s1) then [] else Waiting(w0, q)
  {
    if q.ThreadChanged? && q.entity in Changed(s0, s1) { assert Served(w0, s1, w1, q.entity); }
  }

  /** At the end of the walk everyone in the list has been woken, by it or by the walk that tore the list. */
  lemma AllWoken(s0: States, w0: Waiters, s1: States, w1: Waiters, roots: set<Entity>, q: Event, i: nat)
    requires Woke(s0, w0, s1, w1, roots) && roots <= Members(Waiting(w0, q))
    requires (q.ThreadChanged? && q.entity in Changed(s0, s1))
             || (i == |Waiting(w0, q)| && roots == Members(Waiting(w0, q)[..i]))
    ensures Woke(s0, w0, s1, w1, Members(Waiting(w0, q)))
  {
    var all := Members(Waiting(w0, q));
    if q.ThreadChanged? && q.entity in Changed(s0, s1) {
      assert Served(w0, s1, w1, q.entity);
      forall x | x in Changed(s0, s1) ensures Reached(s0, w0, all, x) { ReachedBefore(s0, w0, s0, w0, roots, all, x); }
    } else {
      assert Waiting(w0, q)[..i] == Waiting(w0, q);
    }
  }

  lemma Cleared(s0: States, w0: Waiters, s1: States, w1: Waiters, q: Event, idle: Entity)
    requires Woke(s0, w0, s1, w1, Members(Waiting(w0, q))) && Known(s1, w1, idle)
    ensures WokeList(s0, w0, s1, w1[q := []], q) && Known(s1, w1[q := []], idle)
  {
    var w2 := w1[q := []];
    assert forall p :: Waiting(w2, p) == if p == q then [] else Waiting(w1, p);
    ListAfter(s0, w0, s1, w1, Members(Waiting(w0, q)), q);
    if q.ThreadChanged? && q.entity in Changed(s0, s1) {
      SameWaiters(s0, w0, s1, w1, w2, Members(Waiting(w0, q)));
    } else {
      var w3 := w2[q := Waiting(w0, q)];
      assert forall p :: Waiting(w3, p) == if p == q then Waiting(w0, q) else Waiting(w2, p);
      SameWaiters(s0, w0, s1, w1, w3, Members(Waiting(w0, q)));
    }
  }

  lemma Unchanged(state: States, waiters: Waiters, e: Entity, s: EntityState, walked: set<Event>, torn: set<Event>)
    requires e in state && state[e] == s
    ensures !WakesItself(state, waiters, e, s)
    ensures MoreTorn(torn, walked, Changed(state, state), torn)
    ensures s == Runnable ==> Woke(state, waiters, state, waiters, {e})
  {
    NoneTorn(state, walked, torn);
    if s == Runnable { RunnableWoken(state, waiters, e); }
  }

  /** What a change of e's state to s, and the wake-ups it set off, have come to. */
  lemma AfterWake(s0: States, w0: Waiters, s1: States, w1: Waiters, e: Entity, s: EntityState,
                  t0: set<Event>, walked: set<Event>, t1: set<Event>)
    requires e in s0 && s0[e] != s && (s == Runnable || walked == {})
    requires WokeList(s0[e := s], w0, s1, w1, ThreadChanged(e))
    requires var q := ThreadChanged(e); MoreTorn(t0 + ({q} * walked), walked + {q}, Changed(s0[e := s], s1), t1)
    ensures s1.Keys == s0.Keys && (!WakesItself(s0, w0, e, s) ==> e in s1 && s1[e] == s)
    ensures s != Runnable ==> t1 == t0 + if WakesItself(s0, w0, e, s) then {ThreadChanged(e)} else {}
    ensures s == Runnable ==> Woke(s0, w0, s1, w1, {e}) && MoreTorn(t0, walked, Changed(s0, s1), t1)
  {
    var mid, q := s0[e := s], ThreadChanged(e);
    var roots := Members(Waiting(w0, q));
    var before := if e in Changed(mid, s1) then w1 else w1[q := Waiting(w0, q)];
    SameThreads(s1, mid);
    assert s1.Keys == s0.Keys by { assert mid.Keys == s0.Keys; }
    WokeIsReached(mid, w0, s1, before, roots, e);
    if s == Runnable {
      assert e !in Changed(mid, s1);
      SelfWoken(s0, w0, s1, w1, e);
      assert Changed(s0, s1) == Changed(mid, s1) + {e};
    } else {
      assert e in Changed(mid, s1) <==> WakesItself(s0, w0, e, s);
      forall p ensures p in t1 <==> p in t0 || (p == q && e in Changed(mid, s1)) {
      }
    }
  }

  /** Waking leaves fewer threads that are not runnable. */
  lemma RestingFewer(s0: States, w0: Waiters, s1: States, w1: Waiters, roots: set<Entity>)
    requires Woke(s0, w0, s1, w1, roots)
    ensures Resting(s1) <= Resting(s0) && s1.Keys == s0.Keys
  {
    SameThreads(s1, s0);
    assert forall x | x in s1 && s1[x] != s0[x] :: x in Changed(s0, s1);
  }

  /** Going to sleep does not empty the list the thread was just put on, unless the thread wakes itself. */
  lemma StillWaiting(s0: States, w1: Waiters, s2: States, w2: Waiters, e: Entity, q: Event)
    requires e in s0 && s0[e] != Sleeping && !WakesItself(s0, w1, e, Sleeping) && e in Waiting(w1, q)
    requires WokeList(s0[e := Sleeping], w1, s2, w2, ThreadChanged(e))
    ensures e in Waiting(w2, q)
  {
    var mid, p := s0[e := Sleeping], ThreadChanged(e);
    var roots := Members(Waiting(w1, p));
    var before := if e in Changed(mid, s2) then w2 else w2[p := Waiting(w1, p)];
    WokeIsReached(mid, w1, s2, before, roots, e);
    assert e !in Changed(mid, s2);
    ListAfter(mid, w1, s2, before, roots, q);
    assert q == p ==> Chain(mid, w1, roots, [e]);
    assert q != p;
    forall x | x in Changed(mid, s2) ensures e !in Waiting(w1, ThreadChanged(x)) { assert Served(w1, s2, before, x); }
  }

  /** The first of two threads goes to sleep until the second changes: nothing else happens. */
  lemma FirstSleeps(s0: States, w0: Waiters, s1: States, w1: Waiters, a: Entity, b: Entity)
    requires a != b && a in s0 && b in s0 && s0[a] == Runnable == s0[b]
    requires Waiting(w0, ThreadChanged(a)) == [] == Waiting(w0, ThreadChanged(b))
    requires var w := w0[ThreadChanged(b) := Waiting(w0, ThreadChanged(b)) + [a]];
             WokeList(s0[a := Sleeping], w, s1, w1, ThreadChanged(a))
    ensures s1 == s0[a := Sleeping]
            && !WakesItself(s0, w0[ThreadChanged(b) := Waiting(w0, ThreadChanged(b)) + [a]], a, Sleeping)
    ensures Waiting(w1, ThreadChanged(a)) == [] && Waiting(w1, ThreadChanged(b)) == [a]
  {
    var w, mid, q := w0[ThreadChanged(b) := Waiting(w0, ThreadChanged(b)) + [a]], s0[a := Sleeping], ThreadChanged(a);
    assert Waiting(w, q) == [];
    var before := if a in Changed(mid, s1) then w1 else w1[q := Waiting(w, q)];
    assert Members(Waiting(w, q)) == {};
    forall x ensures x !in Changed(mid, s1) {
      WokeIsReached(mid, w, s1, before, {}, x);
    }
    SameThreads(s1, mid);
    forall x | x in s1 ensures s1[x] == mid[x] { assert x !in Changed(mid, s1); }
    assert s1 == mid;
    ListAfter(mid, w, s1, before, {}, ThreadChanged(b));
  }
}
