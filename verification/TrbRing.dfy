/**
 An xHCI command or transfer ring: the driver's stores one by one, against a
 controller that follows the cycle bit and the link TRB (sections 4.9.2 to
 4.9.3 of the xHCI specification).
 */
module TrbRing {
  import opened Common

  const TRB_TYPE_LINK: nat := 6
  const LINK_CONTROL: nat := 6 * 1024 + 2     // type Link, Toggle Cycle

  datatype Trb = Trb(parameter: nat, status: nat, control: nat)

  function Cycle(t: Trb): nat { t.control % 2 }

  function Type(t: Trb): nat { t.control / 1024 % 64 }

  function WithCycle(t: Trb, c: nat): Trb { t.(control := t.control - t.control % 2 + c) }

  /** The TRB apart from its cycle bit. */
  function Plain(t: Trb): Trb { WithCycle(t, 0) }

  /** Equal apart from the cycle bit: the same parameter, the same status and the same control bits above bit 0. */
  lemma {:induction false} PlainMeans(a: Trb, b: Trb)
    ensures Plain(a) == Plain(b) <==>
      a.parameter == b.parameter && a.status == b.status && a.control / 2 == b.control / 2
    ensures Plain(a).parameter == a.parameter && Plain(a).status == a.status && Plain(a).control / 2 == a.control / 2
    ensures Type(Plain(a)) == Type(a) && Cycle(Plain(a)) == 0
  {
    assert Plain(a).control == a.control / 2 * 2 && Plain(b).control == b.control / 2 * 2;
    assert a.control / 1024 == a.control / 2 / 512;
  }

  /** Where the driver is in `enqueue`. */
  datatype Pc = Ready | Link(store: nat) | Body(store: nat)

  /** Ring memory and driver state, the controller's dequeue pointer, and what went in and came out. */
  datatype Sys = Sys(
    phys: nat, trbs: seq<Trb>, idx: nat, cycle: nat, pc: Pc, job: Trb,
    deq: nat, ccs: nat, sent: seq<Trb>, got: seq<Trb>)

  /** Zeroed memory; the link TRB may already be there, with its cycle bit clear. */
  predicate Init(s: Sys) {
    && |s.trbs| == 256 && s.idx == 0 && s.cycle == 1 && s.pc == Ready && s.deq == 0 && s.ccs == 1
    && s.sent == [] && s.got == [] && (forall i :: 0 <= i < 256 ==> Cycle(s.trbs[i]) == 0)
  }

  /** At most 255 TRBs outstanding, and no caller enqueues a link. */
  predicate CanBegin(s: Sys, t: Trb) { s.pc == Ready && |s.sent| - |s.got| < 255 && Type(t) != TRB_TYPE_LINK }

  function Begin(s: Sys, t: Trb): Sys { s.(pc := if s.idx == 255 then Link(0) else Body(0), job := t) }

  /** The next store of `enqueue`; the control word, with the cycle bit, comes last. */
  function Write(s: Sys): Sys
    requires |s.trbs| == 256 && s.idx < 256
  {
    var t := s.trbs[if s.pc.Link? then 255 else s.idx];
    match s.pc
    case Ready => s
    case Link(n) =>
      if n == 0 then s.(trbs := s.trbs[255 := t.(parameter := s.phys)], pc := Link(1))
      else if n == 1 then s.(trbs := s.trbs[255 := t.(status := 0)], pc := Link(2))
      else s.(
        trbs := s.trbs[255 := t.(control := LINK_CONTROL + s.cycle)], cycle := (s.cycle + 1) % 2,
        idx := 0, pc := Body(0))
    case Body(n) =>
      if n == 0 then s.(trbs := s.trbs[s.idx := t.(parameter := s.job.parameter)], pc := Body(1))
      else if n == 1 then s.(trbs := s.trbs[s.idx := t.(status := s.job.status)], pc := Body(2))
      else
        s.(trbs := s.trbs[s.idx := t.(control := WithCycle(s.job, s.cycle).control)], idx := s.idx + 1, pc := Ready,
           sent := s.sent + [Plain(s.job)])
  }

  /** The controller looks at the TRB it points to: it waits, follows a link, or executes it. */
  function Fetch(s: Sys): Sys
    requires |s.trbs| == 256 && s.deq < 256
  {
    var t := s.trbs[s.deq];
    if Cycle(t) != s.ccs then s
    else if Type(t) == TRB_TYPE_LINK then s.(deq := 0, ccs := if t.control / 2 % 2 == 1 then (s.ccs + 1) % 2 else s.ccs)
    else s.(deq := s.deq + 1, got := s.got + [Plain(t)])
  }

  ghost predicate Step(s: Sys, s': Sys) {
    && |s.trbs| == 256 && s.deq < 256
    && ((s.idx < 256 && s.pc != Ready && s' == Write(s)) || s' == Fetch(s) ||
        exists t :: CanBegin(s, t) && s' == Begin(s, t))
  }

  ghost predicate Run(run: seq<Sys>) {
    && run != [] && Init(run[0])
    && forall i :: 0 <= i < |run| - 1 ==> Step(run[i], run[i + 1])
  }

  // -------------------------------------------------------------- the invariant

  /** How often slot i has been filled when p TRBs have been sent. */
  function Laps(p: nat, i: nat): nat
    requires i < 255
  {
    (p + 254 - i) / 255
  }

  /** l links written: the next one is written just before TRB 255 * (l + 1). */
  ghost predicate DriverOk(s: Sys, l: nat) {
    var p := |s.sent|;
    && s.idx == p - 255 * l && s.cycle == (l + 1) % 2
    && match s.pc
       case Ready => 0 <= s.idx <= 255 && (p > 0 ==> s.idx > 0)
       case Link(n) => n <= 2 && s.idx == 255
       case Body(n) => n <= 2 && 0 <= s.idx < 255
  }

  /** m links followed. */
  ghost predicate ControllerOk(s: Sys, m: nat) {
    |s.got| == 255 * m + s.deq && s.deq <= 255 && s.ccs == (m + 1) % 2
  }

  ghost predicate CyclesOk(s: Sys, l: nat)
    requires |s.trbs| == 256
  {
    && (forall i :: 0 <= i < 255 ==> Cycle(s.trbs[i]) == Laps(|s.sent|, i) % 2)
    && Cycle(s.trbs[255]) == l % 2
    && (l > 0 ==> s.trbs[255].control == LINK_CONTROL + l % 2 && s.trbs[255].parameter == s.phys)
  }

  /** Sent and not yet fetched: TRB n lies in its slot, whole. */
  ghost predicate Lies(s: Sys, n: nat)
    requires |s.trbs| == 256 && n < |s.sent|
  {
    Plain(s.trbs[n % 255]) == s.sent[n] && Type(s.trbs[n % 255]) != TRB_TYPE_LINK
  }

  ghost predicate BodyOk(s: Sys)
    requires |s.trbs| == 256
  {
    match s.pc
    case Ready => true
    case Link(n) => Type(s.job) != TRB_TYPE_LINK && (n > 0 ==> s.trbs[255].parameter == s.phys)
    case Body(n) =>
      && Type(s.job) != TRB_TYPE_LINK
      && (n > 0 && s.idx < 256 ==> s.trbs[s.idx].parameter == s.job.parameter)
      && (n > 1 && s.idx < 256 ==> s.trbs[s.idx].status == s.job.status)
  }

  ghost predicate Inv(s: Sys, l: nat, m: nat) {
    && |s.trbs| == 256 && DriverOk(s, l) && ControllerOk(s, m) && CyclesOk(s, l) && BodyOk(s)
    && |s.got| <= |s.sent| <= |s.got| + (if s.pc == Ready then 255 else 254)
    && m <= l <= m + 1
    && s.got == s.sent[..|s.got|]
    && (forall n :: |s.got| <= n < |s.sent| ==> Lies(s, n))
  }

  // ----------------------------------------------------------------------- steps

  lemma {:induction false} Begins(s: Sys, t: Trb, l: nat, m: nat)
    requires Inv(s, l, m) && CanBegin(s, t)
    ensures Inv(Begin(s, t), l, m)
  {
    var s' := Begin(s, t);
    forall n | |s'.got| <= n < |s'.sent| ensures Lies(s', n) { assert Lies(s, n); }
  }

  lemma {:induction false} WritesLink(s: Sys, l: nat, m: nat)
    requires Inv(s, l, m) && s.pc.Link?
    ensures Inv(Write(s), if s.pc.store == 2 then l + 1 else l, m)
  {
    var s' := Write(s);
    LinkBits(s.cycle);
    assert l <= m;
    assert (l + 2) % 2 == ((l + 1) % 2 + 1) % 2;
    forall n | |s'.got| <= n < |s'.sent| ensures Lies(s', n) { assert Lies(s, n); }
  }

  lemma {:induction false} LinkBits(c: nat)
    requires c <= 1
    ensures (LINK_CONTROL + c) % 2 == c && (LINK_CONTROL + c) / 1024 % 64 == TRB_TYPE_LINK
    ensures (LINK_CONTROL + c) / 2 % 2 == 1
  {
  }

  /** The slot being filled is none of those still to be fetched. */
  lemma {:induction false} SlotIsFree(s: Sys, l: nat, m: nat, n: nat)
    requires Inv(s, l, m) && s.pc.Body? && |s.got| <= n < |s.sent|
    ensures n % 255 != s.idx == |s.sent| % 255
  {
    hide CyclesOk, BodyOk, Lies;
    SlotOf(|s.sent|, l, s.idx);
    Distinct(n, |s.sent|);
  }

  lemma {:induction false} SlotOf(p: nat, l: nat, i: nat)
    requires p == 255 * l + i && i < 255
    ensures p % 255 == i && p / 255 == l
  {
  }

  lemma {:induction false} Distinct(n: nat, p: nat)
    requires n < p < n + 255
    ensures n % 255 != p % 255
  {
  }

  lemma {:induction false} WritesBody(s: Sys, l: nat, m: nat)
    requires Inv(s, l, m) && s.pc.Body? && s.pc.store < 2
    ensures Inv(Write(s), l, m)
  {
    var s' := Write(s);
    assert s'.sent == s.sent && s'.got == s.got;
    forall n | |s'.got| <= n < |s'.sent| ensures Lies(s', n) {
      SlotIsFree(s, l, m, n);
      assert Lies(s, n);
    }
  }

  lemma {:induction false} Publishes(s: Sys, l: nat, m: nat)
    requires Inv(s, l, m) && s.pc.Body? && s.pc.store == 2
    ensures Inv(Write(s), l, m)
  {
    hide DriverOk, ControllerOk;
    assert s.idx < 255 && s.cycle == (l + 1) % 2 by { Position(s, l); }
    var s', p := Write(s), |s.sent|;
    assert DriverOk(s', l) && ControllerOk(s', m) by { Advanced(s, l, m); }
    CycleBits(s.job, s.cycle);
    forall i | 0 <= i < 255 ensures Cycle(s'.trbs[i]) == Laps(|s'.sent|, i) % 2 {
      Position(s, l);
      OneMore(p, l, s.idx, i);
    }
    forall n | |s'.got| <= n < |s'.sent| ensures Lies(s', n) {
      if n < p {
        SlotIsFree(s, l, m, n);
        assert Lies(s, n);
      } else {
        Position(s, l);
        SlotOf(p, l, s.idx);
      }
    }
  }

  lemma {:induction false} Position(s: Sys, l: nat)
    requires DriverOk(s, l) && s.pc.Body?
    ensures |s.sent| == 255 * l + s.idx && s.idx < 255 && s.cycle == (l + 1) % 2
  {
  }

  lemma {:induction false} Advanced(s: Sys, l: nat, m: nat)
    requires |s.trbs| == 256 && DriverOk(s, l) && ControllerOk(s, m) && s.pc == Body(2)
    ensures DriverOk(Write(s), l) && ControllerOk(Write(s), m)
  {
  }

  lemma {:induction false} CycleBits(t: Trb, c: nat)
    requires c <= 1
    ensures Cycle(WithCycle(t, c)) == c && Type(WithCycle(t, c)) == Type(t) && Plain(WithCycle(t, c)) == Plain(t)
  {
    var h := t.control / 2;
    Halved(h, t.control % 2);
    Halved(h, c);
    assert t.control - t.control % 2 + c == 2 * h + c;
  }

  lemma {:induction false} Halved(h: nat, b: nat)
    requires b <= 1
    ensures (2 * h + b) % 2 == b && (2 * h + b) / 1024 == h / 512
  {
    var q, r := h / 512, h % 512;
    assert 2 * h + b == 1024 * q + (2 * r + b);
    Quotient(2 * h + b, q);
  }

  lemma {:induction false} Quotient(a: nat, q: nat)
    requires 1024 * q <= a < 1024 * q + 1024
    ensures a / 1024 == q
  {
  }

  /** One more TRB fills one slot once more. */
  lemma {:induction false} OneMore(p: nat, l: nat, idx: nat, i: nat)
    requires p == 255 * l + idx && idx < 255 && i < 255
    ensures Laps(p + 1, i) == Laps(p, i) + if i == idx then 1 else 0
    ensures Laps(p + 1, idx) == l + 1
  {
    var a, b := p + 254 - i, p + 255 - i;
    if i <= idx { DivIs(a, if i < idx then l + 1 else l); DivIs(b, l + 1); } else { DivIs(a, l); DivIs(b, l); }
    DivIs(p + 255 - idx, l + 1);
  }

  lemma {:induction false} DivIs(a: nat, q: nat)
    requires 255 * q <= a < 255 * q + 255
    ensures a / 255 == q
  {
  }

  /** What the controller sees at a data slot: a match means TRB |got|, and none means there is none. */
  lemma {:induction false} SlotSeen(s: Sys, l: nat, m: nat)
    requires Inv(s, l, m) && s.deq < 255
    ensures Cycle(s.trbs[s.deq]) == s.ccs <==> |s.got| < |s.sent|
    ensures |s.got| % 255 == s.deq
  {
    hide DriverOk, BodyOk, Lies;
    var p, c := |s.sent|, |s.got|;
    SlotOf(c, m, s.deq);
    DivIs(p + 254 - s.deq, if c < p then m + 1 else m);
  }

  /** What it sees at the link slot: a match means a link not yet followed. */
  lemma {:induction false} LinkSeen(s: Sys, l: nat, m: nat)
    requires Inv(s, l, m) && s.deq == 255
    ensures Cycle(s.trbs[255]) == s.ccs <==> l == m + 1
    ensures |s.got| < |s.sent| ==> l == m + 1
    ensures l == m + 1 ==>
      Type(s.trbs[255]) == TRB_TYPE_LINK && s.trbs[255].control / 2 % 2 == 1 && s.trbs[255].parameter == s.phys
  {
    hide BodyOk, Lies;
    LinkBits(l % 2);
  }

  lemma {:induction false} Fetches(s: Sys, l: nat, m: nat) returns (m': nat)
    requires Inv(s, l, m)
    ensures Inv(Fetch(s), l, m')
  {
    var s' := Fetch(s);
    m' := m;
    if s.deq == 255 {
      LinkSeen(s, l, m);
      if l == m + 1 { m' := m + 1; }
      forall n | |s'.got| <= n < |s'.sent| ensures Lies(s', n) { assert Lies(s, n); }
    } else {
      SlotSeen(s, l, m);
      if |s.got| < |s.sent| { assert Lies(s, |s.got|); }
      forall n | |s'.got| <= n < |s'.sent| ensures Lies(s', n) { assert Lies(s, n); }
    }
  }

  lemma {:induction false} RunInv(run: seq<Sys>, i: nat) returns (l: nat, m: nat)
    requires Run(run) && i < |run|
    ensures Inv(run[i], l, m)
  {
    l, m := 0, 0;
    if i == 0 {
      assert forall j :: 0 <= j < 255 ==> Laps(0, j) == 0;
    } else {
      l, m := RunInv(run, i - 1);
      hide Inv, Init, Write, Fetch, Begin, CanBegin;
      var s, s' := run[i - 1], run[i - 1 + 1];
      assert Step(s, s');
      StepKeeps(s, s', l, m);
      l, m :| Inv(s', l, m);
    }
  }

  lemma {:induction false} StepKeeps(s: Sys, s': Sys, l: nat, m: nat)
    requires Inv(s, l, m) && Step(s, s')
    ensures exists l': nat, m': nat :: Inv(s', l', m')
  {
    hide Inv, Init, Write, Fetch, Begin, CanBegin;
    if s' == Fetch(s) {
      var m' := Fetches(s, l, m);
    } else if s.pc != Ready && s.idx < 256 && s' == Write(s) {
      if s.pc.Link? {
        WritesLink(s, l, m);
      } else {
        StoreBound(s, l, m);
        if s.pc.store < 2 { WritesBody(s, l, m); } else { Publishes(s, l, m); }
      }
    } else {
      var t :| CanBegin(s, t) && s' == Begin(s, t);
      Begins(s, t, l, m);
    }
  }

  lemma {:induction false} StoreBound(s: Sys, l: nat, m: nat)
    requires Inv(s, l, m) && s.pc.Body?
    ensures s.pc.store <= 2
  {
  }

  // ------------------------------------------------------------------ what it is for

  /** In every run, across any number of wraps, what the controller has executed is a prefix of what was enqueued. */
  lemma {:induction false} FetchedInOrder(run: seq<Sys>, i: nat)
    requires Run(run) && i < |run|
    ensures run[i].got <= run[i].sent
  {
    hide Run, CyclesOk, DriverOk, ControllerOk, BodyOk;
    var l, m := RunInv(run, i);
  }

  /** And it is never stuck: with TRBs outstanding it executes the next one, after at most one link. */
  lemma {:induction false} NextIsFetched(run: seq<Sys>, i: nat)
    requires Run(run) && i < |run| && |run[i].got| < |run[i].sent|
    ensures var s := run[i]; |s.trbs| == 256 && s.deq < 256
    ensures var f := Fetch(run[i]); |f.trbs| == 256 && f.deq < 256
    ensures var s := run[i]; var next := s.got + [s.sent[|s.got|]];
      if s.deq < 255 then Fetch(s).got == next else Fetch(Fetch(s)).got == next
  {
    hide Run;
    var s := run[i];
    var l, m := RunInv(run, i);
    if s.deq < 255 {
      SlotSeen(s, l, m);
      assert Lies(s, |s.got|);
    } else {
      LinkSeen(s, l, m);
      var m' := Fetches(s, l, m);
      SlotSeen(Fetch(s), l, m');
      assert Lies(Fetch(s), |s.got|);
    }
  }

  /** With nothing outstanding it executes nothing, however far the driver is in an enqueue. */
  lemma {:induction false} NothingTorn(run: seq<Sys>, i: nat)
    requires Run(run) && i < |run| && run[i].got == run[i].sent
    ensures |run[i].trbs| == 256 && run[i].deq < 256 && Fetch(run[i]).got == run[i].got
  {
    hide Run;
    var l, m := RunInv(run, i);
    if run[i].deq < 255 { SlotSeen(run[i], l, m); } else { LinkSeen(run[i], l, m); }
  }

  // -------------------------------------------------------------- the driver's code

  /** All stores of one enqueue, with nothing in between. */
  function Writes(s: Sys, n: nat): (s': Sys)
    requires |s.trbs| == 256 && s.idx < 256
    decreases n
  {
    if n == 0 then s
    else
      var s' := Write(s);
      if |s'.trbs| == 256 && s'.idx < 256 then Writes(s', n - 1) else s'
  }

  /** `RingState`, and `enqueue_transfer` (or `enqueue_command`, or the re-queueing of a finished transfer) on it. */
  class RingState {
    const phys: nat
    var trbs: seq<Trb>
    var enqueueIdx: nat
    var cycleState: nat

    ghost predicate Valid()
      reads this
    {
      |trbs| == 256 && enqueueIdx <= 255 && cycleState <= 1
    }

    ghost predicate Shows(s: Sys)
      reads this
    {
      s.phys == phys && s.trbs == trbs && s.idx == enqueueIdx && s.cycle == cycleState && s.pc == Ready
    }

    /** Zeroed DMA memory with a link TRB at the end. */
    constructor (base: nat)
      ensures Valid()
      ensures forall s: Sys :: Shows(s) && s.deq == 0 && s.ccs == 1 && s.sent == [] && s.got == [] ==> Init(s)
    {
      phys, enqueueIdx, cycleState := base, 0, 1;
      trbs := seq(255, i => Trb(0, 0, 0)) + [Trb(base, 0, LINK_CONTROL)];
    }

    /** Exactly the stores of the step machine, in its order: 3, or 6 with a link. */
    method Enqueue(trb: Trb, ghost s: Sys)
      requires Valid() && Shows(s)
      modifies this
      ensures Valid()
      ensures Shows(Writes(Begin(s, trb), if s.idx == 255 then 6 else 3))
      ensures Writes(Begin(s, trb), if s.idx == 255 then 6 else 3).sent == s.sent + [Plain(trb)]
    {
      var idx := enqueueIdx;
      if idx == 255 {
        LinkStores(s, trb);
        trbs := trbs[255 := trbs[255].(parameter := phys)];
        trbs := trbs[255 := trbs[255].(status := 0)];
        trbs := trbs[255 := trbs[255].(control := LINK_CONTROL + cycleState)];
        cycleState := (cycleState + 1) % 2;
        idx := 0;
      }
      BodyStores(s.(trbs := trbs, idx := idx, cycle := cycleState, pc := Body(0), job := trb));
      trbs := trbs[idx := trbs[idx].(parameter := trb.parameter)];
      trbs := trbs[idx := trbs[idx].(status := trb.status)];
      trbs := trbs[idx := trbs[idx].(control := WithCycle(trb, cycleState).control)];
      enqueueIdx := idx + 1;
    }
  }

  function Filled(s: Sys): Sys
    requires |s.trbs| == 256 && s.idx < 255
  {
    s.(trbs := s.trbs[s.idx := WithCycle(s.job, s.cycle)], idx := s.idx + 1, pc := Ready,
       sent := s.sent + [Plain(s.job)])
  }

  lemma {:induction false} BodyStores(s: Sys)
    requires |s.trbs| == 256 && s.idx < 255 && s.pc == Body(0)
    ensures Writes(s, 3) == Filled(s)
  {
    var a := Write(s);
    var b := Write(a);
    var c := Write(b);
    assert c.trbs == Filled(s).trbs;
    assert Writes(s, 3) == Writes(a, 2) == Writes(b, 1) == Writes(c, 0);
  }

  lemma {:induction false} LinkStores(s: Sys, t: Trb)
    requires |s.trbs| == 256 && s.idx == 255 && s.pc == Ready
    ensures Writes(Begin(s, t), 6) == Writes(
      s.(trbs := s.trbs[255 := Trb(s.phys, 0, LINK_CONTROL + s.cycle)], cycle := (s.cycle + 1) % 2,
         idx := 0, pc := Body(0), job := t), 3)
  {
    var z := Begin(s, t);
    var a := Write(z);
    var b := Write(a);
    var c := Write(b);
    assert c.trbs == s.trbs[255 := Trb(s.phys, 0, LINK_CONTROL + s.cycle)];
    assert Writes(z, 6) == Writes(a, 5) == Writes(b, 4) == Writes(c, 3);
  }
}
