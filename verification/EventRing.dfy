/** The xHCI event ring: the controller produces, `poll_event` consumes (section 4.9.4 of the xHCI specification). */
module EventRing {
  import opened Common
  import opened TrbRing

  const EVENT_HANDLER_BUSY: nat := 8

  class EventRing {
    const phys: nat
    var trbs: seq<Trb>
    var dequeueIdx: nat
    var cycleState: nat
    var erdp: nat
    var producerIdx: nat      // the controller's enqueue pointer and cycle state
    var producerCycle: nat
    ghost var produced: seq<Trb>
    ghost var polled: seq<Trb>

    /** Slot of the next event to poll and the cycle bit it will carry follow from how many were polled. */
    ghost predicate Valid()
      reads this
    {
      var p, c := |produced|, |polled|;
      && |trbs| == 256
      && producerIdx == p % 256 && producerCycle == (p / 256 + 1) % 2
      && dequeueIdx == c % 256 && cycleState == (c / 256 + 1) % 2
      && c <= p <= c + 256 && polled == produced[..c]
      && (forall i :: 0 <= i < 256 ==> Cycle(trbs[i]) == TimesFilled(p, i) % 2)
      && (forall n :: c <= n < p ==> Plain(trbs[n % 256]) == produced[n])
    }

    constructor (base: nat)
      ensures Valid() && produced == [] && polled == []
    {
      phys, dequeueIdx, cycleState, erdp := base, 0, 1, base;
      producerIdx, producerCycle := 0, 1;
      trbs := seq(256, i => Trb(0, 0, 0));
      produced, polled := [], [];
    }

    /** The controller writes the next event with its own cycle bit; it must not overrun the driver. */
    method Produce(event: Trb)
      requires Valid() && |produced| < |polled| + 256
      modifies this`trbs, this`produced, this`producerIdx, this`producerCycle
      ensures Valid() && produced == old(produced) + [Plain(event)]
    {
      hide TimesFilled, WithCycle, Plain, Cycle, Type;
      ghost var p, c := |produced|, |polled|;
      CycleBits(event, producerCycle);
      Written(trbs, produced, c, event, WithCycle(event, producerCycle));
      trbs := trbs[producerIdx := WithCycle(event, producerCycle)];
      producerIdx := producerIdx + 1;
      if producerIdx == 256 {
        producerIdx := 0;
        producerCycle := (producerCycle + 1) % 2;
      }
      Onward(p);
      produced := produced + [Plain(event)];
    }

    /** The oldest event not yet polled, if there is one; the controller is told how far the driver got. */
    method PollEvent() returns (r: Option<Trb>)
      requires Valid()
      modifies this`dequeueIdx, this`cycleState, this`erdp, this`polled
      ensures Valid()
      ensures r == None <==> |old(polled)| == |produced|
      ensures r == None ==> polled == old(polled) && erdp == old(erdp)
      ensures r.Some? ==>
        && |old(polled)| < |produced| && Plain(r.value) == produced[|old(polled)|]
        && polled == old(polled) + [Plain(r.value)]
        && erdp == phys + 16 * (|polled| % 256) + EVENT_HANDLER_BUSY
    {
      hide TimesFilled, WithCycle, Plain, Cycle, Type;
      ghost var p, c := |produced|, |polled|;
      var trb := trbs[dequeueIdx];
      EventSeen(p, c);
      if Cycle(trb) != cycleState {
        return None;
      }
      dequeueIdx := dequeueIdx + 1;
      if dequeueIdx == 256 {
        dequeueIdx := 0;
        cycleState := (cycleState + 1) % 2;
      }
      erdp := phys + dequeueIdx * 16 + EVENT_HANDLER_BUSY;
      polled := polled + [Plain(trb)];
      Onward(c);
      r := Some(trb);
    }
  }

  /** How often slot i has been filled by the first p events. */
  function TimesFilled(p: nat, i: nat): nat
    requires i < 256
  {
    (p + 255 - i) / 256
  }

  /** The ring after one more event: cycle bits and the events not yet polled. */
  lemma {:induction false} Written(trbs: seq<Trb>, produced: seq<Trb>, c: nat, event: Trb, t: Trb)
    requires |trbs| == 256 && c <= |produced| < c + 256
    requires forall i :: 0 <= i < 256 ==> Cycle(trbs[i]) == TimesFilled(|produced|, i) % 2
    requires forall n :: c <= n < |produced| ==> Plain(trbs[n % 256]) == produced[n]
    requires Cycle(t) == (|produced| / 256 + 1) % 2 && Plain(t) == Plain(event)
    ensures var trbs', produced' := trbs[|produced| % 256 := t], produced + [Plain(event)];
      && (forall i :: 0 <= i < 256 ==> Cycle(trbs'[i]) == TimesFilled(|produced'|, i) % 2)
      && (forall n :: c <= n < |produced'| ==> Plain(trbs'[n % 256]) == produced'[n])
  {
    hide TimesFilled, Plain, Cycle;
    var p := |produced|;
    var trbs', produced' := trbs[p % 256 := t], produced + [Plain(event)];
    forall i | 0 <= i < 256 ensures Cycle(trbs'[i]) == TimesFilled(p + 1, i) % 2 { OneMoreEvent(p, i); }
    forall n | c <= n < p + 1 ensures Plain(trbs'[n % 256]) == produced'[n] {
      if n < p { Apart(n, p); }
    }
  }

  lemma {:induction false} OneMoreEvent(p: nat, i: nat)
    requires i < 256
    ensures TimesFilled(p + 1, i) == TimesFilled(p, i) + if i == p % 256 then 1 else 0
    ensures TimesFilled(p + 1, p % 256) == p / 256 + 1
  {
  }

  lemma {:induction false} Apart(n: nat, p: nat)
    requires n < p < n + 256
    ensures n % 256 != p % 256
  {
  }

  /** The slot to poll carries the expected cycle bit exactly when its event has been produced. */
  lemma {:induction false} EventSeen(p: nat, c: nat)
    requires c <= p <= c + 256
    ensures TimesFilled(p, c % 256) % 2 == (c / 256 + 1) % 2 <==> c < p
  {
    var q := c / 256;
    assert TimesFilled(p, c % 256) == if c < p then q + 1 else q;
  }

  lemma {:induction false} Onward(c: nat)
    ensures (c + 1) % 256 == if c % 256 == 255 then 0 else c % 256 + 1
    ensures (c + 1) / 256 == if c % 256 == 255 then c / 256 + 1 else c / 256
  {
  }
}
