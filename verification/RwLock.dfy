/**
 `RwLock` as steps of any number of threads.  Every atomic access is one step,
 and a weak compare-and-exchange may fail although the value matches.
 */
module RwLock {
  import opened Common

  const WRITER: nat := 0x8000_0000
  const MAX_READERS: nat := 0x7FFF_FFFF
  const U32: nat := 0x1_0000_0000

  datatype Pc =
    | Outside
    | HasState(once: bool, state: nat)   // read (or try_read, if once): `state` loaded
    | MayRead(once: bool, state: nat)    // ... and no writer was waiting
    | Announced                          // write: counted in `waiting_writers`
    | Taking                             // write: state is WRITER, still counted as waiting
    | MayWrite                           // try_write: no writer was waiting
    | Panicked                           // read: too many readers

  /** Who has the write lock: no one, the thread still in `Taking`, or a returned guard. */
  datatype Owner = Nobody | Thread(t: nat) | Guard

  /** The two atomics, the threads, and the guards they have produced. */
  datatype State = State(
    state: nat, waiting: nat, pcs: seq<Pc>, readGuards: nat, owner: Owner, gained: seq<nat>)

  predicate Init(s: State) {
    && s.state == 0 && s.waiting == 0 && s.readGuards == 0 && s.owner == Nobody
    && |s.pcs| < U32 && |s.gained| == |s.pcs|
    && forall t :: 0 <= t < |s.pcs| ==> s.pcs[t] == Outside
  }

  datatype Event =
    | LoadState(t: nat, once: bool)
    | CheckWaiting(t: nat)
    | CasRead(t: nat, spurious: bool)
    | Announce(t: nat)
    | CasWrite(t: nat, spurious: bool)
    | Withdraw(t: nat)
    | CheckTryWrite(t: nat)
    | CasTryWrite(t: nat)
    | DropRead
    | DropWrite

  predicate Enabled(s: State, e: Event) {
    match e
    case LoadState(t, _) => t < |s.pcs| && s.pcs[t].Outside?
    case CheckWaiting(t) => t < |s.pcs| && s.pcs[t].HasState?
    case CasRead(t, spurious) => t < |s.pcs| && s.pcs[t].MayRead? && (s.pcs[t].once ==> !spurious)
    case Announce(t) => t < |s.pcs| && s.pcs[t].Outside?
    case CasWrite(t, _) => t < |s.pcs| && s.pcs[t].Announced?
    case Withdraw(t) => t < |s.pcs| && s.pcs[t].Taking?
    case CheckTryWrite(t) => t < |s.pcs| && s.pcs[t].Outside?
    case CasTryWrite(t) => t < |s.pcs| && s.pcs[t].MayWrite?
    case DropRead => s.readGuards > 0
    case DropWrite => s.owner == Guard
  }

  function At(s: State, t: nat, pc: Pc): State
    requires t < |s.pcs|
  {
    s.(pcs := s.pcs[t := pc])
  }

  /** `read` starts over after a refusal and `try_read` returns; both are outside again. */
  function Apply(s: State, e: Event): State
    requires Enabled(s, e) && |s.gained| == |s.pcs|
  {
    match e
    case LoadState(t, once) => At(s, t, HasState(once, s.state))
    case CheckWaiting(t) =>
      var HasState(once, st) := s.pcs[t];
      if s.waiting > 0 || st >= WRITER then At(s, t, Outside)
      else if st == MAX_READERS then At(s, t, if once then Outside else Panicked)
      else At(s, t, MayRead(once, st))
    case CasRead(t, spurious) =>
      var st := s.pcs[t].state;
      if s.state == st && !spurious then
        At(s, t, Outside).(
          state := (st + 1) % U32, readGuards := s.readGuards + 1, gained := s.gained[t := s.gained[t] + 1])
      else At(s, t, Outside)
    case Announce(t) => At(s, t, Announced).(waiting := (s.waiting + 1) % U32)
    case CasWrite(t, spurious) =>
      if s.state == 0 && !spurious then At(s, t, Taking).(state := WRITER, owner := Thread(t)) else s
    case Withdraw(t) => At(s, t, Outside).(waiting := (s.waiting + U32 - 1) % U32, owner := Guard)
    case CheckTryWrite(t) => At(s, t, if s.waiting > 0 then Outside else MayWrite)
    case CasTryWrite(t) =>
      if s.state == 0 then At(s, t, Outside).(state := WRITER, owner := Guard) else At(s, t, Outside)
    case DropRead => s.(state := (s.state + U32 - 1) % U32, readGuards := s.readGuards - 1)
    case DropWrite => s.(state := 0, owner := Nobody)
  }

  ghost predicate Step(s: State, s': State) {
    |s.gained| == |s.pcs| && exists e :: Enabled(s, e) && s' == Apply(s, e)
  }

  ghost predicate Run(run: seq<State>) {
    && run != [] && Init(run[0])
    && forall i :: 0 <= i < |run| - 1 ==> Step(run[i], run[i + 1])
  }

  // -------------------------------------------------------------- the invariant

  predicate Waits(pc: Pc) { pc.Announced? || pc.Taking? }

  ghost function Waiters(s: State): set<nat> { set t | 0 <= t < |s.pcs| && Waits(s.pcs[t]) }

  /** WRITER means one writer and no reader; otherwise the state is the number of read guards. */
  ghost predicate StateOk(s: State) {
    if s.owner != Nobody then s.state == WRITER && s.readGuards == 0
    else s.state == s.readGuards <= MAX_READERS
  }

  ghost predicate OwnerOk(s: State) {
    && (forall t: nat :: t < |s.pcs| ==> (s.pcs[t].Taking? <==> s.owner == Thread(t)))
    && (s.owner.Thread? ==> s.owner.t < |s.pcs|)
  }

  ghost predicate Inv(s: State) {
    && |s.gained| == |s.pcs| < U32
    && StateOk(s)
    && s.waiting == |Waiters(s)|
    && OwnerOk(s)
    && (forall t: nat :: t < |s.pcs| && s.pcs[t].MayRead? ==> s.pcs[t].state < MAX_READERS)
  }

  lemma {:induction false} FewWaiters(s: State)
    ensures |Waiters(s)| <= |s.pcs|
  {
    Below(Waiters(s), |s.pcs|);
  }

  lemma {:induction false} Below(a: set<nat>, n: nat)
    requires forall t :: t in a ==> t < n
    ensures |a| <= n
  {
    if n > 0 {
      Below(a - {n - 1}, n - 1);
      assert a <= (a - {n - 1}) + {n - 1};
      assert n - 1 in a ==> |a| == |a - {n - 1}| + 1;
      assert n - 1 !in a ==> a == a - {n - 1};
    } else {
      assert a == {};
    }
  }

  /** Moving one thread changes the waiters by at most that thread. */
  lemma {:induction false} Moved(s: State, t: nat, pc: Pc)
    requires t < |s.pcs|
    ensures |Waiters(At(s, t, pc))| == |Waiters(s)| + (if Waits(pc) then 1 else 0) - if Waits(s.pcs[t]) then 1 else 0
    ensures Waits(s.pcs[t]) ==> |Waiters(s)| > 0
  {
    hide Waits;
    var a, b := Waiters(s), Waiters(At(s, t, pc));
    assert Waits(s.pcs[t]) <==> t in a;
    assert Waits(pc) <==> t in b;
    assert a - {t} == b - {t};
    assert t in a ==> |a| == |a - {t}| + 1;
    assert t !in a ==> a == a - {t};
    assert t in b ==> |b| == |b - {t}| + 1;
    assert t !in b ==> b == b - {t};
  }

  lemma {:induction false} Keeps(s: State, e: Event)
    requires Inv(s) && Enabled(s, e)
    ensures Inv(Apply(s, e))
  {
    hide Waiters, StateOk, OwnerOk;
    FewWaiters(s);
    var s' := Apply(s, e);
    KeepsState(s, e);
    SameWaiters(s, s');
    if e.DropRead? || e.DropWrite? || s'.pcs == s.pcs {
      assert |Waiters(s')| == |Waiters(s)|;
    } else {
      var t := e.t;
      Moved(s, t, s'.pcs[t]);
      SameWaiters(At(s, t, s'.pcs[t]), s');
      FewWaiters(s');
    }
  }

  lemma {:induction false} KeepsState(s: State, e: Event)
    requires Inv(s) && Enabled(s, e)
    ensures var s' := Apply(s, e); StateOk(s') && OwnerOk(s')
  {
    hide Waiters;
  }

  lemma {:induction false} SameWaiters(s: State, s': State)
    ensures s.pcs == s'.pcs ==> Waiters(s) == Waiters(s')
  {
  }

  lemma {:induction false} RunInv(run: seq<State>, i: nat)
    requires Run(run) && i < |run|
    ensures Inv(run[i])
  {
    if i == 0 {
      assert Waiters(run[0]) == {};
    } else {
      RunInv(run, i - 1);
      hide Inv, Apply, Enabled;
      assert Step(run[i - 1], run[i - 1 + 1]);
      var e :| Enabled(run[i - 1], e) && run[i] == Apply(run[i - 1], e);
      Keeps(run[i - 1], e);
    }
  }

  // ------------------------------------------------------------------ what it is for

  /** In every reachable state readers and a writer exclude each other, and `state` says which it is. */
  lemma {:induction false} Exclusion(run: seq<State>, i: nat)
    requires Run(run) && i < |run|
    ensures var s := run[i];
      && (s.state == WRITER <==> s.owner != Nobody)
      && (s.owner != Nobody ==> s.readGuards == 0)
      && (s.owner == Nobody ==> s.state == s.readGuards)
  {
    RunInv(run, i);
  }

  /** A thread that has passed the check for writers may still get one read lock. */
  function Credit(pc: Pc): (c: nat)
    ensures c <= 1
  {
    if pc.MayRead? then 1 else 0
  }

  lemma {:induction false} NoNewCredit(s: State, e: Event, t: nat)
    requires Inv(s) && Enabled(s, e) && Waiters(s) != {} && t < |s.pcs|
    ensures |Apply(s, e).gained| == |Apply(s, e).pcs| == |s.pcs|
    ensures Apply(s, e).gained[t] + Credit(Apply(s, e).pcs[t]) <= s.gained[t] + Credit(s.pcs[t])
  {
    hide Waiters, StateOk;
  }

  /** While some writer stays announced, each thread gains at most one further read lock. */
  lemma {:induction false} WritersAreNotStarved(run: seq<State>, i: nat, j: nat, t: nat)
    requires Run(run) && i <= j < |run| && t < |run[i].pcs|
    requires forall k :: i <= k < j ==> Waiters(run[k]) != {}
    ensures t < |run[j].pcs| && |run[i].gained| == |run[i].pcs| && |run[j].gained| == |run[j].pcs|
    ensures run[j].gained[t] + Credit(run[j].pcs[t]) <= run[i].gained[t] + Credit(run[i].pcs[t]) <= run[i].gained[t] + 1
    decreases j - i
  {
    hide Apply, Enabled, StateOk, Credit, Waiters, Init;
    RunInv(run, i);
    if i < j {
      WritersAreNotStarved(run, i, j - 1, t);
      RunInv(run, j - 1);
      var s := run[j - 1];
      assert Step(s, run[j - 1 + 1]);
      var e :| Enabled(s, e) && run[j] == Apply(s, e);
      NoNewCredit(s, e, t);
    }
  }

  // ------------------------------------------------------------------------ progress

  /** No writer has the lock and no reader does. */
  ghost predicate Free(s: State) { s.owner == Nobody && s.readGuards == 0 }

  /** An announced thread takes the lock exactly if it is free and the exchange does not fail spuriously. */
  lemma {:induction false} WriteTakesFreeLock(run: seq<State>, i: nat, t: nat, spurious: bool)
    requires Run(run) && i < |run| && t < |run[i].pcs| && run[i].pcs[t].Announced?
    ensures Enabled(run[i], CasWrite(t, spurious)) && |run[i].gained| == |run[i].pcs|
    ensures var s' := Apply(run[i], CasWrite(t, spurious));
      if Free(run[i]) && !spurious then
        && s'.owner == Thread(t) && Enabled(s', Withdraw(t)) && |s'.gained| == |s'.pcs|
        && var s'' := Apply(s', Withdraw(t));
        s''.owner == Guard && s''.pcs[t] == Outside && s''.waiting == run[i].waiting - 1
      else s' == run[i]
  {
    RunInv(run, i);
    Moved(run[i], t, Outside);
    FewWaiters(run[i]);
  }

  /** `try_write` gets a guard exactly if no writer waits at its check and the lock is free at its exchange. */
  lemma {:induction false} TryWriteAnswers(run: seq<State>, i: nat, t: nat)
    requires Run(run) && i < |run| && t < |run[i].pcs|
    ensures |run[i].gained| == |run[i].pcs|
    ensures run[i].pcs[t].Outside? ==>
      Apply(run[i], CheckTryWrite(t)).pcs[t] == if Waiters(run[i]) == {} then MayWrite else Outside
    ensures run[i].pcs[t].MayWrite? ==> var s' := Apply(run[i], CasTryWrite(t));
      && s'.pcs[t] == Outside && s'.readGuards == run[i].readGuards
      && s'.owner == if Free(run[i]) then Guard else run[i].owner
  {
    RunInv(run, i);
    hide Waiters;
    NoWaiters(run[i]);
  }

  lemma {:induction false} NoWaiters(s: State)
    ensures |Waiters(s)| == 0 <==> Waiters(s) == {}
  {
  }

  /**
   A reader that has loaded the state goes on exactly if no writer waits and the
   state was not WRITER; it panics, or with `try_read` gives up, exactly at the
   largest number of readers.
   */
  lemma {:induction false} ReadChecks(run: seq<State>, i: nat, t: nat)
    requires Run(run) && i < |run| && t < |run[i].pcs| && run[i].pcs[t].HasState?
    ensures |run[i].gained| == |run[i].pcs|
    ensures var s, pc, pc' := run[i], run[i].pcs[t], Apply(run[i], CheckWaiting(t)).pcs[t];
      && (pc'.MayRead? <==> Waiters(s) == {} && pc.state < MAX_READERS)
      && (pc'.MayRead? ==> pc' == MayRead(pc.once, pc.state))
      && (pc'.Panicked? <==> Waiters(s) == {} && pc.state == MAX_READERS && !pc.once)
  {
    RunInv(run, i);
    hide Waiters;
    NoWaiters(run[i]);
  }

  /** It gets a guard exactly if the number of readers is as loaded, without a writer, and no failure is spurious. */
  lemma {:induction false} ReadTakesLock(run: seq<State>, i: nat, t: nat, spurious: bool)
    requires Run(run) && i < |run| && t < |run[i].pcs| && run[i].pcs[t].MayRead?
    requires Enabled(run[i], CasRead(t, spurious))
    ensures |run[i].gained| == |run[i].pcs|
    ensures var s, s' := run[i], Apply(run[i], CasRead(t, spurious));
      var gets := s.owner == Nobody && s.readGuards == s.pcs[t].state && !spurious;
      && s'.pcs[t] == Outside && s'.owner == s.owner
      && s'.readGuards == s.readGuards + (if gets then 1 else 0)
      && |s'.gained| == |s.gained| && s'.gained[t] == s.gained[t] + if gets then 1 else 0
  {
    RunInv(run, i);
    hide Waiters;
  }

  /** Undisturbed, `read` takes three steps to its guard when no writer waits or has the lock. */
  lemma {:induction false} ReadGoesThrough(run: seq<State>, i: nat, t: nat, once: bool)
    requires Run(run) && i < |run| && t < |run[i].pcs| && run[i].pcs[t].Outside?
    requires Waiters(run[i]) == {} && run[i].owner == Nobody && run[i].readGuards < MAX_READERS
    ensures |run[i].gained| == |run[i].pcs|
    ensures var s1 := Apply(run[i], LoadState(t, once));
      && Enabled(s1, CheckWaiting(t)) && |s1.gained| == |s1.pcs|
      && var s2 := Apply(s1, CheckWaiting(t));
      && Enabled(s2, CasRead(t, false)) && |s2.gained| == |s2.pcs|
      && var s3 := Apply(s2, CasRead(t, false));
      s3.pcs[t] == Outside && s3.readGuards == run[i].readGuards + 1
  {
    RunInv(run, i);
    hide Waiters;
  }

  /** A dropped guard is gone: the last one leaves the lock free. */
  lemma {:induction false} DropsRelease(run: seq<State>, i: nat)
    requires Run(run) && i < |run|
    ensures |run[i].gained| == |run[i].pcs|
    ensures run[i].owner == Guard ==> Enabled(run[i], DropWrite) && Free(Apply(run[i], DropWrite))
    ensures run[i].readGuards > 0 ==>
      && Enabled(run[i], DropRead)
      && (Free(Apply(run[i], DropRead)) <==> run[i].readGuards == 1)
  {
    RunInv(run, i);
    hide Waiters;
  }

  /** A finite sequence of steps from its first state. */
  ghost predicate Path(p: seq<State>) {
    p != [] && forall i :: 0 <= i < |p| - 1 ==> Step(p[i], p[i + 1])
  }

  lemma {:induction false} Prepend(s: State, e: Event, p: seq<State>)
    requires |s.gained| == |s.pcs| && Enabled(s, e) && Path(p) && p[0] == Apply(s, e)
    ensures Path([s] + p)
  {
    hide Apply, Enabled;
    var q := [s] + p;
    forall i | 0 <= i < |q| - 1 ensures Step(q[i], q[i + 1]) {
      if i > 0 { assert q[i] == p[i - 1] && q[i + 1] == p[i - 1 + 1]; }
    }
  }

  /** How many guards, and steps of a writer on its way out, stand between a writer and the lock. */
  ghost function Ahead(s: State): nat {
    s.readGuards + match s.owner case Nobody => 0 case Guard => 1 case Thread(_) => 2
  }

  /** From every such state an announced thread can get its guard, once those before it let go. */
  lemma {:induction false} WriterCanEnter(s: State, t: nat) returns (p: seq<State>)
    requires Inv(s) && t < |s.pcs| && s.pcs[t].Announced?
    ensures Path(p) && p[0] == s && |p| <= Ahead(s) + 3
    ensures var last := p[|p| - 1]; last.owner == Guard && |last.pcs| == |s.pcs| && last.pcs[t] == Outside
    decreases Ahead(s)
  {
    hide Waiters;
    if Free(s) {
      var s1 := Apply(s, CasWrite(t, false));
      Keeps(s, CasWrite(t, false));
      var s2 := Apply(s1, Withdraw(t));
      p := [s, s1, s2];
      assert Step(s, s1) && Step(s1, s2);
    } else {
      var e := if s.readGuards > 0 then DropRead else if s.owner == Guard then DropWrite else Withdraw(s.owner.t);
      OwnerIsThere(s);
      Keeps(s, e);
      var rest := WriterCanEnter(Apply(s, e), t);
      Prepend(s, e, rest);
      p := [s] + rest;
    }
  }

  lemma {:induction false} OwnerIsThere(s: State)
    requires Inv(s)
    ensures s.owner.Thread? ==> s.owner.t < |s.pcs| && s.pcs[s.owner.t].Taking?
  {
  }

  /** The same over runs: whatever has happened, an announced writer is a few steps away from its guard. */
  lemma {:induction false} WritersCanEnter(run: seq<State>, i: nat, t: nat) returns (p: seq<State>)
    requires Run(run) && i < |run| && t < |run[i].pcs| && run[i].pcs[t].Announced?
    ensures Path(p) && p[0] == run[i] && |p| <= Ahead(run[i]) + 3
    ensures var last := p[|p| - 1]; last.owner == Guard && |last.pcs| == |run[i].pcs| && last.pcs[t] == Outside
  {
    RunInv(run, i);
    p := WriterCanEnter(run[i], t);
  }

  /** Unless every thread has panicked and no guard is left, some step changes the state. */
  lemma {:induction false} NeverStuck(run: seq<State>, i: nat)
    requires Run(run) && i < |run|
    requires
      || run[i].readGuards > 0 || run[i].owner == Guard
      || exists t :: 0 <= t < |run[i].pcs| && !run[i].pcs[t].Panicked?
    ensures |run[i].gained| == |run[i].pcs|
    ensures exists e :: Enabled(run[i], e) && Apply(run[i], e) != run[i]
  {
    RunInv(run, i);
    var s := run[i];
    if s.readGuards > 0 {
      Changes(s, DropRead);
    } else if s.owner == Guard {
      Changes(s, DropWrite);
    } else {
      var t :| 0 <= t < |s.pcs| && !s.pcs[t].Panicked?;
      OwnerIsThere(s);
      match s.pcs[t]
      case Outside => Changes(s, LoadState(t, false));
      case HasState(_, _) => Changes(s, CheckWaiting(t));
      case MayRead(_, _) => Changes(s, CasRead(t, false));
      case Announced =>
        if s.owner.Thread? { Changes(s, Withdraw(s.owner.t)); } else { Changes(s, CasWrite(t, false)); }
      case Taking => Changes(s, Withdraw(t));
      case MayWrite => Changes(s, CasTryWrite(t));
    }
  }

  lemma {:induction false} Changes(s: State, e: Event)
    requires Inv(s) && Enabled(s, e) && !e.CheckTryWrite? && (e.CasWrite? ==> Free(s) && !e.spurious)
    ensures Apply(s, e) != s
  {
    hide Waiters;
    var s' := Apply(s, e);
    if !e.DropRead? && !e.DropWrite? { assert s'.pcs[e.t] != s.pcs[e.t]; }
  }
}
