/** Reference counts: a compare-and-swap loop over an atomic, run by any number of threads, and a counter under a lock.
    Both are one saturating counter. */
module RefCount {
  import opened Bytes

  const MAX: nat := 0xffff_ffff

  // The counter both implement.

  datatype Op = Inc | Dec

  /** An operation that has returned, and whether it says that it brought the count to zero. */
  datatype Event = Event(thread: nat, op: Op, zero: bool)

  function After(count: nat, op: Op): (r: nat)
    requires count <= MAX && (op.Dec? ==> count > 0)
    ensures r <= MAX
  {
    if count == MAX then MAX else if op.Inc? then count + 1 else count - 1
  }

  /** The count after whole operations one after another; nothing if one of them decrements zero, or says something else
      than that it took the count from one to zero. */
  function Replay(start: nat, events: seq<Event>): (r: Option<nat>)
    requires start <= MAX
    ensures r.Some? ==> r.value <= MAX
  {
    if |events| == 0 then Some(start)
    else
      var before, e := Replay(start, events[..|events| - 1]), events[|events| - 1];
      if before.None? || (e.op.Dec? && before.value == 0) || e.zero != (e.op.Dec? && before.value == 1) then None
      else Some(After(before.value, e.op))
  }

  function Count(events: seq<Event>, op: Op): nat {
    if |events| == 0 then 0 else Count(events[..|events| - 1], op) + if events[|events| - 1].op == op then 1 else 0
  }

  /** As long as the count is below the maximum, it is the start plus the increments minus the decrements. */
  lemma {:induction false} CountsBelowMax(start: nat, events: seq<Event>)
    requires start <= MAX && Replay(start, events).Some? && Replay(start, events).value < MAX
    ensures Replay(start, events).value + Count(events, Dec) == start + Count(events, Inc)
    decreases |events|
  {
    if |events| > 0 {
      CountsBelowMax(start, events[..|events| - 1]);
    }
  }

  /** Once at the maximum the count stays there, and no operation says it reached zero. */
  lemma {:induction false} StaysAtMax(start: nat, events: seq<Event>, n: nat)
    requires start <= MAX && n <= |events| && Replay(start, events[..n]) == Some(MAX) && Replay(start, events).Some?
    ensures Replay(start, events) == Some(MAX)
    ensures forall k :: n <= k < |events| ==> !events[k].zero
    decreases |events|
  {
    if n == |events| {
      assert events[..n] == events;
    } else {
      var front := events[..|events| - 1];
      assert front[..n] == events[..n];
      StaysAtMax(start, front, n);
    }
  }

  // The compare-and-swap loop.

  /** A thread outside the two functions, or inside one with the value it expects the atomic to have. */
  datatype Status = Outside | Inside(op: Op, expected: nat)

  datatype State = State(count: nat, threads: seq<Status>, log: seq<Event>, aborted: bool)

  /** A thread enters a function and loads the atomic; or it goes once through the loop, where a weak compare-and-swap may
      fail for no reason. */
  datatype Move = Enter(thread: nat, op: Op) | Attempt(thread: nat, spurious: bool)

  function Return(s: State, t: nat, count: nat, zero: bool): State
    requires t < |s.threads| && s.threads[t].Inside?
  {
    State(count, s.threads[t := Outside], s.log + [Event(t, s.threads[t].op, zero)], false)
  }

  function Next(s: State, m: Move): State {
    if s.aborted || m.thread >= |s.threads| then s
    else
      match (m, s.threads[m.thread])
      case (Enter(t, op), Outside) => s.(threads := s.threads[t := Inside(op, s.count)])
      case (Attempt(t, spurious), Inside(op, expected)) =>
        if op.Dec? && expected == 0 then s.(aborted := true)
        else if expected == MAX then Return(s, t, s.count, false)
        else if !spurious && s.count == expected then
          if op.Inc? then Return(s, t, expected + 1, false) else Return(s, t, expected - 1, expected - 1 == 0)
        else s.(threads := s.threads[t := Inside(op, s.count)])
      case _ => s
  }

  function Run(s: State, moves: seq<Move>): State {
    if |moves| == 0 then s else Next(Run(s, moves[..|moves| - 1]), moves[|moves| - 1])
  }

  function Start(count: nat, threads: nat): State {
    State(count, seq(threads, i => Outside), [], false)
  }

  /** The log is a history of whole operations that leads to the count; a thread that saw the maximum was right. */
  predicate Inv(start: nat, s: State) {
    && start <= MAX && Replay(start, s.log) == Some(s.count)
    && forall t :: 0 <= t < |s.threads| && s.threads[t].Inside? ==>
         s.threads[t].expected <= MAX && (s.threads[t].expected == MAX ==> s.count == MAX)
  }

  lemma ReplayStep(start: nat, events: seq<Event>, e: Event)
    requires start <= MAX
    ensures Replay(start, events + [e]) ==
            var before := Replay(start, events);
            if before.None? || (e.op.Dec? && before.value == 0) || e.zero != (e.op.Dec? && before.value == 1) then None
            else Some(After(before.value, e.op))
  {
    assert (events + [e])[..|events|] == events;
  }

  lemma StepKeepsInv(start: nat, s: State, m: Move)
    requires Inv(start, s)
    ensures Inv(start, Next(s, m))
  {
    hide Replay;
    if !s.aborted && m.Attempt? && m.thread < |s.threads| && s.threads[m.thread].Inside? {
      var op, expected := s.threads[m.thread].op, s.threads[m.thread].expected;
      ReplayStep(start, s.log, Event(m.thread, op, op.Dec? && expected == 1));
    }
  }

  /** In every run, with any number of threads and any spurious failures, the operations that have returned are whole
      operations of the saturating counter in the order of their returns, with just these results, and they lead to the
      count that the atomic holds. */
  lemma {:induction false} Linearizes(start: nat, threads: nat, moves: seq<Move>)
    requires start <= MAX
    ensures Inv(start, Run(Start(start, threads), moves))
    decreases |moves|
  {
    hide Next;
    if |moves| > 0 {
      Linearizes(start, threads, moves[..|moves| - 1]);
      StepKeepsInv(start, Run(Start(start, threads), moves[..|moves| - 1]), moves[|moves| - 1]);
    }
  }

  /** A thread that expects zero loaded it while the count was zero. */
  lemma {:induction false} ZeroWasThere(start: nat, threads: nat, moves: seq<Move>, t: nat)
    requires start <= MAX
    requires var s := Run(Start(start, threads), moves);
             s.aborted || (t < |s.threads| && s.threads[t].Inside? && s.threads[t].expected == 0)
    ensures exists k: nat :: k <= |moves| && Run(Start(start, threads), moves[..k]).count == 0
    decreases |moves|
  {
    var s := Run(Start(start, threads), moves);
    if |moves| > 0 {
      var front, m := moves[..|moves| - 1], moves[|moves| - 1];
      var was := Run(Start(start, threads), front);
      assert s == Next(was, m);
      var u := if s.aborted && !was.aborted then m.thread else t;
      if was.aborted || (u < |was.threads| && was.threads[u].Inside? && was.threads[u].expected == 0) {
        ZeroWasThere(start, threads, front, u);
        var k: nat :| k <= |front| && Run(Start(start, threads), front[..k]).count == 0;
        assert moves[..k] == front[..k];
      } else {
        assert front == moves[..|moves| - 1] && was.count == 0;
      }
    }
  }

  /** The functions abort only if the count was zero at some moment of the run. */
  lemma AbortsOnlyAfterZero(start: nat, threads: nat, moves: seq<Move>)
    requires start <= MAX && Run(Start(start, threads), moves).aborted
    ensures exists k: nat :: k <= |moves| && Run(Start(start, threads), moves[..k]).count == 0
  {
    hide Run, Next;
    ZeroWasThere(start, threads, moves, 0);
  }

  /** A thread that is left alone for two moves gets its operation done: the count moves on by it, and the answer is right.
      An attempt fails only for no reason, or because another thread has changed the count since it was loaded. */
  lemma AloneReturns(s: State, t: nat, op: Op)
    requires !s.aborted && t < |s.threads| && s.threads[t].Outside? && s.count <= MAX && (op.Dec? ==> s.count > 0)
    ensures Next(Next(s, Enter(t, op)), Attempt(t, false))
            == s.(count := After(s.count, op), log := s.log + [Event(t, op, op.Dec? && s.count == 1)])
  {
    assert s.threads[t := Inside(op, s.count)][t := Outside] == s.threads;
  }

  lemma FailsOnlyIf(s: State, t: nat, spurious: bool)
    requires !s.aborted && t < |s.threads| && s.threads[t].Inside?
    ensures var s', status := Next(s, Attempt(t, spurious)), s.threads[t];
            if status.op.Dec? && status.expected == 0 then s'.aborted
            else if status.expected != MAX && (spurious || s.count != status.expected) then
              s'.count == s.count && s'.log == s.log && s'.threads[t] == Inside(status.op, s.count) && !s'.aborted
            else |s'.log| == |s.log| + 1 && s'.log[|s.log|].thread == t && s'.threads[t].Outside? && !s'.aborted
  {
  }

  // The counter under a lock.

  /** Holding the lock, a thread runs a whole operation. */
  class LockedCount {
    var count: nat

    constructor (start: nat)
      requires start <= MAX
      ensures count == start
    {
      count := start;
    }

    method Increment()
      requires count <= MAX
      modifies this
      ensures count == After(old(count), Inc)
    {
      if count < MAX {
        count := count + 1;
      }
    }

    /** The caller must not decrement zero: that aborts. */
    method DecrementAndTestZero() returns (zero: bool)
      requires 0 < count <= MAX
      modifies this
      ensures count == After(old(count), Dec)
      ensures zero <==> old(count) == 1
    {
      if count < MAX {
        count := count - 1;
      }
      zero := count == 0;
    }
  }
}
