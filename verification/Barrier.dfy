/**
 `Barrier::wait` as steps of n threads that call it again and again.  Every
 atomic load, store and read-modify-write is one step.
 */
module Barrier {
  import opened Common

  const U64: nat := 0x1_0000_0000_0000_0000

  datatype Pc =
    | Outside
    | Loaded(generation: nat)   // has read the generation
    | Leading                   // arrived last; `count` not yet reset
    | Resetting                 // `count` reset; generation not yet advanced
    | Waiting(generation: nat)

  /** A thread and the results of the waits it has returned from (true: it was the leader). */
  datatype Thread = Thread(pc: Pc, results: seq<bool>)

  datatype State = State(threads: seq<Thread>, count: nat, generation: nat)

  predicate Init(s: State) {
    && 0 < |s.threads| <= U32_MAX && s.count == 0 && s.generation == 0
    && forall t :: 0 <= t < |s.threads| ==> s.threads[t] == Thread(Outside, [])
  }

  function To(s: State, t: nat, pc: Pc): State
    requires t < |s.threads|
  {
    s.(threads := s.threads[t := s.threads[t].(pc := pc)])
  }

  function Return(s: State, t: nat, leader: bool): State
    requires t < |s.threads|
  {
    s.(threads := s.threads[t := Thread(Outside, s.threads[t].results + [leader])])
  }

  /** The next step of thread t. */
  function Next(s: State, t: nat): State
    requires t < |s.threads|
  {
    match s.threads[t].pc
    case Outside => To(s, t, Loaded(s.generation))
    case Loaded(g) =>
      var arrived := s.count + 1;
      To(s, t, if arrived == |s.threads| then Leading else Waiting(g)).(count := arrived % (U32_MAX + 1))
    case Leading => To(s, t, Resetting).(count := 0)
    case Resetting => Return(s, t, true).(generation := (s.generation + 1) % U64)
    case Waiting(g) => if s.generation == g then s else Return(s, t, false)
  }

  ghost predicate Run(run: seq<State>) {
    && run != [] && Init(run[0])
    && forall i :: 0 <= i < |run| - 1 ==> exists t :: 0 <= t < |run[i].threads| && run[i + 1] == Next(run[i], t)
  }

  // -------------------------------------------------------------- the invariant

  /** How many waits the thread has begun by counting itself. */
  function Arrivals(th: Thread): nat {
    |th.results| + if th.pc.Waiting? || th.pc.Leading? || th.pc.Resetting? then 1 else 0
  }

  /** Where a thread can be while round r is being assembled. */
  ghost predicate ThreadOk(th: Thread, r: nat) {
    match th.pc
    case Outside => |th.results| == r
    case Loaded(g) => |th.results| == r && g == r % U64
    case Leading => |th.results| == r
    case Resetting => |th.results| == r
    case Waiting(g) => |th.results| <= r <= |th.results| + 1 && g == |th.results| % U64
  }

  /** The threads that have arrived in round r. */
  ghost function Arrived(s: State, r: nat): set<nat> {
    set t | 0 <= t < |s.threads| && Arrivals(s.threads[t]) == r + 1
  }

  ghost predicate Last(s: State, t: nat) {
    t < |s.threads| && (s.threads[t].pc.Leading? || s.threads[t].pc.Resetting?)
  }

  ghost predicate Led(s: State, k: nat, t: nat) {
    t < |s.threads| && k < |s.threads[t].results| && s.threads[t].results[k]
  }

  /** Round k, once over, was led by one thread and one only. */
  ghost predicate OneLeader(s: State, k: nat) {
    && (exists t :: Led(s, k, t))
    && (forall t, u :: Led(s, k, t) && Led(s, k, u) ==> t == u)
  }

  ghost predicate Resets(s: State, t: nat) { t < |s.threads| && s.threads[t].pc.Resetting? }

  /** Round r is being assembled: who has arrived, what the counters hold, who leads. */
  ghost predicate Inv(s: State, r: nat) {
    && 0 < |s.threads| <= U32_MAX && s.generation == r % U64
    && (forall t :: 0 <= t < |s.threads| ==> ThreadOk(s.threads[t], r))
    && (forall t: nat, u: nat :: Last(s, t) && Last(s, u) ==> t == u)
    && ((exists t: nat :: Last(s, t)) <==> |Arrived(s, r)| == |s.threads|)
    && s.count == (if exists t: nat :: Resets(s, t) then 0 else |Arrived(s, r)|)
    && (forall k: nat :: k < r ==> OneLeader(s, k))
  }

  // ------------------------------------------------------------------- counting

  ghost function All(n: nat): (a: set<nat>)
    ensures |a| == n && forall t: nat :: t in a <==> t < n
  {
    if n == 0 then {} else All(n - 1) + {n - 1}
  }

  lemma {:induction false} ArrivedBounds(s: State, r: nat)
    ensures |Arrived(s, r)| <= |s.threads|
    ensures |Arrived(s, r)| == |s.threads| <==> forall t: nat :: t < |s.threads| ==> t in Arrived(s, r)
  {
    var a, all := Arrived(s, r), All(|s.threads|);
    SubsetSize(a, all);
    if forall t: nat :: t < |s.threads| ==> t in a { assert a == all; }
  }

  lemma {:induction false} SubsetSize(a: set<nat>, b: set<nat>)
    requires a <= b
    ensures |a| <= |b| && (|a| == |b| ==> a == b)
  {
    assert b == a + (b - a);
    assert |b| == |a| + |b - a|;
  }

  // ----------------------------------------------------------------------- steps

  lemma {:induction false} Loads(s: State, r: nat, t: nat)
    requires Inv(s, r) && t < |s.threads| && s.threads[t].pc.Outside?
    ensures Inv(Next(s, t), r)
  {
    var s' := Next(s, t);
    assert Arrived(s', r) == Arrived(s, r);
    SameResults(s, s');
    forall u: nat ensures (Last(s', u) <==> Last(s, u)) && (Resets(s', u) <==> Resets(s, u)) {}
  }

  /** A step that leaves the results alone leaves the leaders of past rounds alone. */
  lemma {:induction false} SameResults(s: State, s': State)
    requires |s'.threads| == |s.threads|
    requires forall t :: 0 <= t < |s.threads| ==> s'.threads[t].results == s.threads[t].results
    ensures forall k: nat :: OneLeader(s, k) ==> OneLeader(s', k)
  {
    forall k: nat | OneLeader(s, k) ensures OneLeader(s', k) {
      var t: nat :| Led(s, k, t);
      assert Led(s', k, t);
      forall x: nat, y: nat | Led(s', k, x) && Led(s', k, y) ensures x == y { assert Led(s, k, x) && Led(s, k, y); }
    }
  }

  lemma {:induction false} Arrives(s: State, r: nat, t: nat)
    requires Inv(s, r) && t < |s.threads| && s.threads[t].pc.Loaded?
    ensures Inv(Next(s, t), r)
  {
    hide OneLeader;
    var s' := Next(s, t);
    ArrivedBounds(s, r);
    assert t !in Arrived(s, r);
    assert forall u: nat :: !Last(s, u) && !Resets(s, u) by {
      forall u: nat ensures !Last(s, u) && !Resets(s, u) {}
    }
    assert Arrived(s', r) == Arrived(s, r) + {t};
    ArrivedBounds(s', r);
    SameResults(s, s');
    assert Last(s', t) <==> |Arrived(s', r)| == |s'.threads|;
    assert forall u: nat :: u != t ==> !Last(s', u) by {
      forall u: nat | u != t ensures !Last(s', u) { assert !Last(s, u); }
    }
    assert forall u: nat :: !Resets(s', u) by {
      forall u: nat ensures !Resets(s', u) { assert !Resets(s, u); }
    }
  }

  lemma {:induction false} ResetsCount(s: State, r: nat, t: nat)
    requires Inv(s, r) && t < |s.threads| && s.threads[t].pc.Leading?
    ensures Inv(Next(s, t), r)
  {
    hide OneLeader;
    var s' := Next(s, t);
    assert Arrived(s', r) == Arrived(s, r);
    SameResults(s, s');
    assert Last(s, t) && Last(s', t) && Resets(s', t);
    forall u: nat ensures Last(s', u) <==> Last(s, u) {}
  }

  lemma {:induction false} Opens(s: State, r: nat, t: nat)
    requires Inv(s, r) && t < |s.threads| && s.threads[t].pc.Resetting?
    ensures Inv(Next(s, t), r + 1)
  {
    hide OneLeader;
    var s' := Next(s, t);
    assert Last(s, t) && Resets(s, t);
    ArrivedBounds(s, r);
    forall u: nat | u < |s.threads| ensures ThreadOk(s'.threads[u], r + 1) && !Last(s', u) && u !in Arrived(s', r + 1) {
      assert u in Arrived(s, r);
      assert Last(s, u) ==> u == t;
    }
    assert Arrived(s', r + 1) == {};
    forall u: nat ensures !Last(s', u) && !Resets(s', u) {}
    forall k: nat | k < r + 1 ensures OneLeader(s', k) { NewLeader(s, r, t, k); }
  }

  lemma {:induction false} NewLeader(s: State, r: nat, t: nat, k: nat)
    requires Inv(s, r) && t < |s.threads| && s.threads[t].pc.Resetting? && k <= r
    ensures OneLeader(Next(s, t), k)
  {
    var s' := Next(s, t);
    if k < r {
      assert OneLeader(s, k);
      var u: nat :| Led(s, k, u);
      assert Led(s', k, u);
      forall x: nat | Led(s', k, x) ensures Led(s, k, x) {}
    } else {
      assert Led(s', r, t);
      forall x: nat | Led(s', r, x) ensures x == t { assert x < |s.threads| && ThreadOk(s.threads[x], r); }
    }
  }

  lemma {:induction false} Leaves(s: State, r: nat, t: nat)
    requires Inv(s, r) && t < |s.threads| && s.threads[t].pc.Waiting? && s.generation != s.threads[t].pc.generation
    ensures Inv(Next(s, t), r)
  {
    hide OneLeader;
    var s' := Next(s, t);
    assert ThreadOk(s.threads[t], r);
    assert Arrived(s', r) == Arrived(s, r);
    forall u: nat ensures (Last(s', u) <==> Last(s, u)) && (Resets(s', u) <==> Resets(s, u)) {}
    forall k: nat | k < r ensures OneLeader(s', k) { Follower(s, t, k); }
  }

  lemma {:induction false} Follower(s: State, t: nat, k: nat)
    requires t < |s.threads| && OneLeader(s, k)
    ensures OneLeader(Return(s, t, false), k)
  {
    var s' := Return(s, t, false);
    var u: nat :| Led(s, k, u);
    assert Led(s', k, u);
    forall x: nat | Led(s', k, x) ensures Led(s, k, x) {}
  }

  lemma {:induction false} Steps(s: State, r: nat, t: nat) returns (r': nat)
    requires Inv(s, r) && t < |s.threads|
    ensures Inv(Next(s, t), r')
  {
    hide Inv;
    r' := r;
    match s.threads[t].pc
    case Outside => Loads(s, r, t);
    case Loaded(_) => Arrives(s, r, t);
    case Leading => ResetsCount(s, r, t);
    case Resetting => Opens(s, r, t); r' := r + 1;
    case Waiting(g) => if s.generation != g { Leaves(s, r, t); }
  }

  lemma {:induction false} RunInv(run: seq<State>, i: nat) returns (r: nat)
    requires Run(run) && i < |run|
    ensures Inv(run[i], r)
  {
    hide Next;
    if i == 0 {
      r := 0;
      assert Arrived(run[0], 0) == {};
      assert forall t: nat :: !Last(run[0], t) && !Resets(run[0], t);
    } else {
      var q := RunInv(run, i - 1);
      hide Inv;
      var s := run[i - 1];
      var t :| 0 <= t < |s.threads| && run[i - 1 + 1] == Next(s, t);
      r := Steps(s, q, t);
    }
  }

  // ------------------------------------------------------------------ what it is for

  /** No thread has returned from its k-th wait unless every thread has arrived at its own k-th. */
  lemma {:induction false} NobodyPassesEarly(run: seq<State>, i: nat, t: nat, u: nat)
    requires Run(run) && i < |run| && t < |run[i].threads| && u < |run[i].threads|
    ensures |run[i].threads[u].results| <= Arrivals(run[i].threads[t])
  {
    hide Run, OneLeader, Arrived;
    var r := RunInv(run, i);
    assert ThreadOk(run[i].threads[t], r) && ThreadOk(run[i].threads[u], r);
  }

  /** A round that anyone has returned from was led by exactly one thread. */
  lemma {:induction false} OneLeaderARound(run: seq<State>, i: nat, t: nat, k: nat)
    requires Run(run) && i < |run| && t < |run[i].threads| && k < |run[i].threads[t].results|
    ensures OneLeader(run[i], k)
  {
    hide Run, Arrived, OneLeader;
    var r := RunInv(run, i);
    assert ThreadOk(run[i].threads[t], r);
  }

  /** The generation a thread has read is still the current one when it counts itself. */
  lemma {:induction false} LoadedStaysCurrent(run: seq<State>, i: nat, t: nat)
    requires Run(run) && i < |run| && t < |run[i].threads| && run[i].threads[t].pc.Loaded?
    ensures run[i].threads[t].pc.generation == run[i].generation
  {
    hide Run, Arrived, OneLeader;
    var r := RunInv(run, i);
    assert ThreadOk(run[i].threads[t], r);
  }

  /** Some thread can always make a step that is not a spin. */
  lemma {:induction false} NeverStuck(run: seq<State>, i: nat)
    requires Run(run) && i < |run|
    ensures exists t: nat :: t < |run[i].threads| && Next(run[i], t) != run[i]
  {
    hide Run, OneLeader;
    var s := run[i];
    var r := RunInv(run, i);
    if forall t: nat :: t < |s.threads| ==> Next(s, t) == s {
      forall t: nat | t < |s.threads| ensures t in Arrived(s, r) && !Last(s, t) {
        assert ThreadOk(s.threads[t], r);
        assert Next(s, t) == s;
        Spinning(s, t);
      }
      ArrivedBounds(s, r);
    }
  }

  lemma {:induction false} Spinning(s: State, t: nat)
    requires t < |s.threads| && Next(s, t) == s
    ensures s.threads[t].pc == Waiting(s.generation)
  {
    var th := s.threads[t];
    assert Next(s, t).threads[t] == th;
  }

  /** A thread alone leads its round. */
  lemma {:induction false} AloneRound()
    ensures var s0 := State([Thread(Outside, [])], 0, 0);
      var s1 := Next(s0, 0); var s2 := Next(s1, 0); var s3 := Next(s2, 0); var s4 := Next(s3, 0);
      Run([s0, s1, s2, s3, s4]) && s4 == State([Thread(Outside, [true])], 0, 1)
  {
    var s0 := State([Thread(Outside, [])], 0, 0);
    var s1 := Next(s0, 0);
    var s2 := Next(s1, 0);
    var s3 := Next(s2, 0);
    var s4 := Next(s3, 0);
    var run := [s0, s1, s2, s3, s4];
    assert s1 == State([Thread(Loaded(0), [])], 0, 0);
    assert s2 == State([Thread(Leading, [])], 1, 0);
    assert s3 == State([Thread(Resetting, [])], 0, 0);
    assert s3.threads[0].results + [true] == [true];
    assert s4.threads == [Thread(Outside, [true])];
    forall i | 0 <= i < 4 ensures exists t :: 0 <= t < |run[i].threads| && run[i + 1] == Next(run[i], t) {
      assert run[i + 1] == Next(run[i], 0);
    }
  }
}
