/** Runs of the round-robin run queue: whoever stays in it is chosen before long. */
module RoundRobinRuns {
  import opened Scheduling
  import opened Sequences
  import opened Wakeups

  /** What is done to the run queue. */
  datatype Op = Add(e: Entity) | Remove(e: Entity) | Pick

  function After(q: seq<Entity>, op: Op): seq<Entity> {
    match op
    case Add(e) => q + [e]
    case Remove(e) => Without(q, e)
    case Pick => Turned(q)
  }

  /** What the picks of a run give, in order. */
  function Picks(q: seq<Entity>, ops: seq<Op>): seq<Choice>
    decreases ops
  {
    if ops == [] then []
    else (if ops[0] == Pick then [if q == [] then Nobody else Thread(q[0])] else []) + Picks(After(q, ops[0]), ops[1..])
  }

  /** How many are ahead of e in the queue. */
  function Ahead(q: seq<Entity>, e: Entity): nat
    requires e in q
  {
    if q[0] == e then 0 else 1 + Ahead(q[1..], e)
  }

  lemma {:induction false} AheadAppended(q: seq<Entity>, x: Entity, e: Entity)
    requires e in q
    ensures e in q + [x] && Ahead(q + [x], e) == Ahead(q, e)
  {
    if q[0] != e {
      AheadAppended(q[1..], x, e);
      assert (q + [x])[1..] == q[1..] + [x];
    }
  }

  lemma {:induction false} AheadWithout(q: seq<Entity>, x: Entity, e: Entity)
    requires e in q && x != e
    ensures e in Without(q, x) && Ahead(Without(q, x), e) <= Ahead(q, e)
  {
    WithoutMembers(q, x);
    if q[0] == x {
      assert q == [x] + q[1..];
    } else if q[0] != e {
      AheadWithout(q[1..], x, e);
      assert Without(q, x)[1..] == Without(q[1..], x);
    }
  }

  /** An entity with i others ahead of it that stays in the queue is given by one of the next i + 1
      picks, whatever is added and removed in between. */
  lemma {:induction false} BoundedWait(q: seq<Entity>, ops: seq<Op>, e: Entity, i: nat)
    requires e in q && Ahead(q, e) <= i && Remove(e) !in ops && |Picks(q, ops)| > i
    ensures Thread(e) in Picks(q, ops)[..i + 1]
    decreases ops
  {
    var op, rest := ops[0], ops[1..];
    if op != Pick { assert Picks(q, ops) == Picks(After(q, op), rest); }
    assert Remove(e) !in rest;
    match op
    case Add(x) =>
      AheadAppended(q, x, e);
      BoundedWait(After(q, op), rest, e, i);
    case Remove(x) =>
      AheadWithout(q, x, e);
      BoundedWait(After(q, op), rest, e, i);
    case Pick =>
      var later := Picks(Turned(q), rest);
      assert Picks(q, ops) == [Thread(q[0])] + later;
      assert Picks(q, ops)[..i + 1] == [Thread(q[0])] + later[..i];
      if q[0] != e {
        AheadAppended(q[1..], q[0], e);
        BoundedWait(Turned(q), rest, e, i - 1);
      }
  }
}
