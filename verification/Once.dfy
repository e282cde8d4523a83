/**
 `Once::call_once_try` under `OnceCell`, as steps of any number of threads.
 Every atomic access, the run of an initialiser and its write to the cell are
 steps of their own; initialisers may fail.
 */
module Once {
  import opened Common

  datatype Phase = Incomplete | Running | Complete

  /** What a thread asks for: `get`, `set(v)` or `get_or_try_init`. */
  datatype Op<V> = Get | Set(v: V) | TryInit

  /** What a call returned. */
  datatype Answer<V> = Missing | Present(v: V) | Accepted | Refused(v: V) | Failed

  datatype Pc<V> =
    | Outside
    | Entered(op: Op<V>)          // about to test for COMPLETE
    | Trying(op: Op<V>)           // about to compare-and-exchange
    | Initialising(op: Op<V>)     // has won; its initialiser runs
    | Failing(op: Op<V>)          // the initialiser failed; the guard has not rolled back yet
    | Wrote(op: Op<V>)            // the cell is written; COMPLETE not stored yet
    | Spinning(op: Op<V>)         // someone else is running
    | Retrying(op: Op<V>)         // that is over; about to test how it ended
    | Reading(op: Op<V>)          // COMPLETE was seen; about to read the cell
    | Answered(op: Op<V>, answer: Answer<V>)

  /** The atomic, the cell, the threads, and the values that successful initialisers have produced. */
  datatype State<V> = State(phase: Phase, cell: Option<V>, pcs: seq<Pc<V>>, produced: seq<V>)

  /** A new cell, or one made with a value. */
  predicate Init<V(==)>(s: State<V>) {
    && (forall t :: 0 <= t < |s.pcs| ==> s.pcs[t].Outside?)
    && if s.phase.Complete? then s.cell.Some? && s.produced == [s.cell.value]
       else s.phase.Incomplete? && s.cell == None && s.produced == []
  }

  datatype Choice<V> = Call(op: Op<V>) | Succeed(v: V) | Fail | Go

  /** Callers choose the operation and initialisers their outcome; `set` stores its own value and cannot fail. */
  predicate Enabled<V(==)>(s: State<V>, t: nat, c: Choice<V>) {
    && t < |s.pcs|
    && match s.pcs[t]
       case Outside => c.Call?
       case Answered(_, _) => c.Call?
       case Initialising(op) => if op.Set? then c == Succeed(op.v) else c.Succeed? || c.Fail?
       case _ => c.Go?
  }

  function At<V>(s: State<V>, t: nat, pc: Pc<V>): State<V>
    requires t < |s.pcs|
  {
    s.(pcs := s.pcs[t := pc])
  }

  /** A call that finds the work done: `set` did not get its turn, the others read. */
  function Done<V>(op: Op<V>): Pc<V> {
    if op.Set? then Answered(op, Refused(op.v)) else Reading(op)
  }

  function Apply<V(==)>(s: State<V>, t: nat, c: Choice<V>): State<V>
    requires Enabled(s, t, c)
  {
    match s.pcs[t]
    case Outside => At(s, t, Entered(c.op))
    case Answered(_, _) => At(s, t, Entered(c.op))
    case Entered(op) =>
      if s.phase.Complete? then At(s, t, Done(op))
      else if op.Get? then At(s, t, Answered(op, Missing))
      else At(s, t, Trying(op))
    case Trying(op) =>
      (match s.phase
       case Incomplete => At(s, t, Initialising(op)).(phase := Running)
       case Running => At(s, t, Spinning(op))
       case Complete => At(s, t, Done(op)))
    case Initialising(op) => if c.Fail? then At(s, t, Failing(op)) else At(s, t, Wrote(op)).(cell := Some(c.v))
    case Failing(op) => At(s, t, Answered(op, Answer.Failed)).(phase := Incomplete)
    case Wrote(op) =>
      At(s, t, if op.Set? then Answered(op, Accepted) else Reading(op))
      .(phase := Complete, produced := if s.cell.Some? then s.produced + [s.cell.value] else s.produced)
    case Spinning(op) => if s.phase.Running? then s else At(s, t, Retrying(op))
    case Retrying(op) => At(s, t, if s.phase.Complete? then Done(op) else Trying(op))
    case Reading(op) => At(s, t, Answered(op, if s.cell.Some? then Present(s.cell.value) else Missing))
  }

  ghost predicate Step<V(!new)>(s: State<V>, s': State<V>) {
    exists t: nat, c :: Enabled(s, t, c) && s' == Apply(s, t, c)
  }

  ghost predicate Run<V(!new)>(run: seq<State<V>>) {
    && run != [] && Init(run[0])
    && forall i :: 0 <= i < |run| - 1 ==> Step(run[i], run[i + 1])
  }

  // -------------------------------------------------------------- the invariant

  ghost predicate Runs<V>(s: State<V>, t: nat) {
    t < |s.pcs| && (s.pcs[t].Initialising? || s.pcs[t].Failing? || s.pcs[t].Wrote?)
  }

  /** What a thread's position says about the cell. */
  ghost predicate PcOk<V>(s: State<V>, pc: Pc<V>) {
    match pc
    case Trying(op) => !op.Get?
    case Initialising(op) => s.cell == None && !op.Get?
    case Failing(op) => s.cell == None && op.TryInit?
    case Wrote(op) => s.cell.Some? && (op.Set? ==> s.cell == Some(op.v)) && !op.Get?
    case Spinning(op) => !op.Get?
    case Retrying(op) => !op.Get?
    case Reading(op) => s.phase.Complete? && !op.Set?
    case Answered(op, Present(v)) => s.phase.Complete? && s.cell == Some(v) && !op.Set?
    case Answered(op, Accepted) => s.phase.Complete? && op.Set? && s.cell == Some(op.v)
    case Answered(op, Refused(v)) => s.phase.Complete? && op == Set(v)
    case Answered(op, Missing) => op.Get?
    case Answered(op, Failed) => op.TryInit?
    case _ => true
  }

  ghost predicate Inv<V>(s: State<V>) {
    && (s.phase.Running? <==> exists t: nat :: Runs(s, t))
    && (forall t: nat, u: nat :: Runs(s, t) && Runs(s, u) ==> t == u)
    && (s.phase.Incomplete? ==> s.cell == None)
    && (s.phase.Complete? ==> s.cell.Some?)
    && s.produced == (if s.phase.Complete? && s.cell.Some? then [s.cell.value] else [])
    && (forall t: nat :: t < |s.pcs| ==> PcOk(s, s.pcs[t]))
  }

  /** From one step to the next: COMPLETE and the value then in the cell are final. */
  ghost predicate Final<V>(s: State<V>, s': State<V>) {
    && (s.phase.Complete? ==> s'.phase.Complete? && s'.cell == s.cell)
    && s.produced <= s'.produced
  }

  lemma {:induction false} Keeps<V>(s: State<V>, t: nat, c: Choice<V>)
    requires Inv(s) && Enabled(s, t, c)
    ensures Inv(Apply(s, t, c)) && Final(s, Apply(s, t, c))
  {
    var s' := Apply(s, t, c);
    assert PcOk(s, s.pcs[t]);
    assert s'.pcs == s.pcs[t := s'.pcs[t]];
    forall u: nat | u != t ensures Runs(s', u) <==> Runs(s, u) {}
    assert Runs(s, t) <==> s.pcs[t].Initialising? || s.pcs[t].Failing? || s.pcs[t].Wrote?;
    assert Runs(s', t) <==> s'.pcs[t].Initialising? || s'.pcs[t].Failing? || s'.pcs[t].Wrote?;
    forall u: nat | u < |s'.pcs| ensures PcOk(s', s'.pcs[u]) {
      assert PcOk(s, s.pcs[u]);
      assert Runs(s, u) <==> s.pcs[u].Initialising? || s.pcs[u].Failing? || s.pcs[u].Wrote?;
    }
  }

  lemma {:induction false} RunInv<V(!new)>(run: seq<State<V>>, i: nat)
    requires Run(run) && i < |run|
    ensures Inv(run[i])
  {
    hide Apply, Enabled;
    if i == 0 {
      assert forall t: nat :: !Runs(run[0], t);
    } else {
      RunInv(run, i - 1);
      hide Inv;
      assert Step(run[i - 1], run[i - 1 + 1]);
      var t: nat, c :| Enabled(run[i - 1], t, c) && run[i] == Apply(run[i - 1], t, c);
      Keeps(run[i - 1], t, c);
    }
  }

  // ------------------------------------------------------------------ what it is for

  /** At most one initialiser runs at a time. */
  lemma {:induction false} OneRunner<V(!new)>(run: seq<State<V>>, i: nat, t: nat, u: nat)
    requires Run(run) && i < |run| && Runs(run[i], t) && Runs(run[i], u)
    ensures t == u && run[i].phase.Running?
  {
    RunInv(run, i);
  }

  /** Completion is permanent, with the one value that was ever produced. */
  lemma {:induction false} CompleteForEver<V(!new)>(run: seq<State<V>>, i: nat, j: nat)
    requires Run(run) && i <= j < |run| && run[i].phase.Complete?
    ensures run[j].phase.Complete? && run[j].cell == run[i].cell && run[i].cell.Some?
    ensures run[j].produced == [run[i].cell.value]
    decreases j - i
  {
    hide Apply, Enabled;
    RunInv(run, j);
    if i < j {
      CompleteForEver(run, i, j - 1);
      RunInv(run, j - 1);
      assert Step(run[j - 1], run[j - 1 + 1]);
      var t: nat, c :| Enabled(run[j - 1], t, c) && run[j] == Apply(run[j - 1], t, c);
      Keeps(run[j - 1], t, c);
    }
  }

  /**
   Any two answers that carry or confirm a value, given anywhere in a run,
   agree: whoever reads gets the value that the one accepted `set` or the one
   successful initialiser left there.
   */
  lemma {:induction false} AnswersAgree<V(!new)>(run: seq<State<V>>, i: nat, j: nat, t: nat, u: nat)
    requires Run(run) && i <= j < |run| && t < |run[i].pcs| && u < |run[j].pcs|
    requires run[i].pcs[t].Answered? && run[j].pcs[u].Answered?
    requires (run[i].pcs[t].answer.Present? || run[i].pcs[t].answer.Accepted?) && run[j].pcs[u].answer.Present?
    ensures run[i].pcs[t].answer.Present? ==> run[j].pcs[u].answer.v == run[i].pcs[t].answer.v
    ensures run[i].pcs[t].answer.Accepted? ==> run[i].pcs[t].op == Set(run[j].pcs[u].answer.v)
  {
    hide Run;
    RunInv(run, i);
    RunInv(run, j);
    assert PcOk(run[i], run[i].pcs[t]) && PcOk(run[j], run[j].pcs[u]);
    CompleteForEver(run, i, j);
  }

  /** `get_or_try_init` never finds a completed cell empty, and a call returns success only once COMPLETE is stored. */
  lemma {:induction false} OkOnlyAfterCompletion<V(!new)>(run: seq<State<V>>, i: nat, t: nat)
    requires Run(run) && i < |run| && t < |run[i].pcs| && run[i].pcs[t].Answered?
    ensures run[i].pcs[t].answer.Missing? ==> run[i].pcs[t].op.Get?
    ensures !run[i].pcs[t].answer.Missing? && !run[i].pcs[t].answer.Failed? ==>
      run[i].phase.Complete? && run[i].cell.Some?
    ensures run[i].pcs[t].answer.Failed? ==> run[i].pcs[t].op.TryInit?
  {
    hide Run;
    RunInv(run, i);
    assert PcOk(run[i], run[i].pcs[t]);
  }

  /** A failed initialiser leaves the cell as new: the next attempt wins the exchange. */
  lemma {:induction false} FailureReopens<V(!new)>(run: seq<State<V>>, i: nat, t: nat, u: nat)
    requires Run(run) && i < |run| && t < |run[i].pcs| && run[i].pcs[t].Failing?
    requires u < |run[i].pcs| && run[i].pcs[u].Trying?
    ensures var s := Apply(run[i], t, Go);
      && s.phase.Incomplete? && s.cell == None && s.produced == []
      && s.pcs[u] == run[i].pcs[u] && Apply(s, u, Go).pcs[u].Initialising?
  {
    hide Run;
    RunInv(run, i);
    assert Runs(run[i], t);
    assert PcOk(run[i], run[i].pcs[t]);
  }

  /** The answer that the rest of the call can only confirm: that of the winner, of the failure, or of a latecomer. */
  ghost function Decided<V>(s: State<V>, t: nat): Option<Answer<V>>
    requires t < |s.pcs|
  {
    if s.pcs[t].Answered? then Some(s.pcs[t].answer)
    else if s.pcs[t].Failing? then Some(Answer.Failed)
    else if s.pcs[t].Wrote? && s.pcs[t].op.Set? then Some(Accepted)
    else if s.pcs[t].Wrote? && s.cell.Some? then Some(Present(s.cell.value))
    else if s.phase.Complete? && s.cell.Some? && !s.pcs[t].Outside? && !s.pcs[t].Initialising? then
      Some(if s.pcs[t].op.Set? then Refused(s.pcs[t].op.v) else Present(s.cell.value))
    else None
  }

  lemma {:induction false} DecidedStays<V>(s: State<V>, u: nat, c: Choice<V>, t: nat)
    requires Inv(s) && Enabled(s, u, c) && t < |s.pcs| && Decided(s, t).Some? && (u == t ==> !s.pcs[t].Answered?)
    ensures |Apply(s, u, c).pcs| == |s.pcs| && Decided(Apply(s, u, c), t) == Decided(s, t)
  {
    assert PcOk(s, s.pcs[t]) && PcOk(s, s.pcs[u]);
    assert Runs(s, u) <==> s.pcs[u].Initialising? || s.pcs[u].Failing? || s.pcs[u].Wrote?;
    assert Runs(s, t) <==> s.pcs[t].Initialising? || s.pcs[t].Failing? || s.pcs[t].Wrote?;
  }

  /**
   What a call answers: Accepted or its own value if its initialiser has
   succeeded, Failed if that has failed, and once the cell is complete, the value
   in the cell, or Refused for `set`.  So a `get` that starts after completion
   answers the value.
   */
  lemma {:induction false} CallsAnswer<V(!new)>(run: seq<State<V>>, i: nat, j: nat, t: nat)
    requires Run(run) && i <= j < |run| && t < |run[i].pcs| && Decided(run[i], t).Some?
    requires forall k :: i <= k < j ==> t < |run[k].pcs| && !run[k].pcs[t].Answered?
    ensures t < |run[j].pcs| && Decided(run[j], t) == Decided(run[i], t)
    ensures run[j].pcs[t].Answered? ==> Some(run[j].pcs[t].answer) == Decided(run[i], t)
    decreases j - i
  {
    hide Apply, Enabled, Decided;
    if i < j {
      CallsAnswer(run, i, j - 1, t);
      RunInv(run, j - 1);
      assert Step(run[j - 1], run[j - 1 + 1]);
      var u: nat, c :| Enabled(run[j - 1], u, c) && run[j] == Apply(run[j - 1], u, c);
      DecidedStays(run[j - 1], u, c, t);
    }
    AnswerIsDecided(run[j], t);
  }

  lemma {:induction false} AnswerIsDecided<V>(s: State<V>, t: nat)
    requires t < |s.pcs|
    ensures s.pcs[t].Answered? ==> Decided(s, t) == Some(s.pcs[t].answer)
  {
  }

  /** A `get` answers Missing exactly if the cell is not complete when it looks. */
  lemma {:induction false} GetLooksOnce<V(!new)>(run: seq<State<V>>, i: nat, t: nat)
    requires Run(run) && i < |run| && t < |run[i].pcs| && run[i].pcs[t] == Entered(Get)
    ensures Enabled(run[i], t, Go) && (Decided(run[i], t).Some? <==> run[i].phase.Complete?)
    ensures run[i].phase.Complete? ==> run[i].cell.Some? && Decided(run[i], t) == Some(Present(run[i].cell.value))
    ensures !run[i].phase.Complete? ==> Apply(run[i], t, Go).pcs[t] == Answered(Get, Missing)
  {
    hide Run;
    RunInv(run, i);
  }

  /** A thread inside a call can always make a step, unless it spins while another runs. */
  lemma {:induction false} CallsGoOn<V(!new)>(run: seq<State<V>>, i: nat, t: nat)
    requires Run(run) && i < |run| && t < |run[i].pcs| && !run[i].pcs[t].Outside? && !run[i].pcs[t].Answered?
    requires !(run[i].pcs[t].Spinning? && run[i].phase.Running?)
    ensures exists c :: Enabled(run[i], t, c) && Apply(run[i], t, c).pcs[t] != run[i].pcs[t]
  {
    hide Run;
    var s := run[i];
    var c: Choice<V> :=
      if s.pcs[t].Initialising? then (if s.pcs[t].op.Set? then Succeed(s.pcs[t].op.v) else Fail) else Go;
    assert Enabled(s, t, c);
    assert Apply(s, t, c).pcs[t] != s.pcs[t];
  }

  /** Whoever spins does so because some thread is running, and that thread can go on. */
  lemma {:induction false} NobodyWaitsInVain<V(!new)>(run: seq<State<V>>, i: nat, t: nat)
    requires Run(run) && i < |run| && t < |run[i].pcs| && run[i].pcs[t].Spinning? && run[i].phase.Running?
    ensures exists u: nat, c :: Runs(run[i], u) && Enabled(run[i], u, c) && Apply(run[i], u, c) != run[i]
  {
    hide Run;
    var s := run[i];
    RunInv(run, i);
    var u: nat :| Runs(s, u);
    var c: Choice<V> :=
      if s.pcs[u].Initialising? then (if s.pcs[u].op.Set? then Succeed(s.pcs[u].op.v) else Fail) else Go;
    assert Enabled(s, u, c);
    assert Apply(s, u, c).pcs[u] != s.pcs[u];
  }
}
