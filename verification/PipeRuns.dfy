/** Runs of descriptor operations from an empty table, and what holds in all of them. */
module PipeRuns {
  import opened Common
  import opened PipeModel

  /** What the callers of `FsState` can do to the open files and pipes. */
  datatype Event =
    | OpenFile(k: Key, f: File)
    | SetFlags(k: Key, f: File)
    | MakePipe(r: Key, w: Key, nonblocking: bool, cloexec: bool)
    | Duplicate(k: Key, from: Key, cloexec: bool)
    | Replace(k: Key, from: Key, cloexec: bool)
    | CloseFd(k: Key)
    | ReadPipe(k: Key, n: nat)
    | WritePipe(k: Key, bytes: seq<Byte>)
    | Exit(pid: nat)

  function Copy(v: View, from: Key, cloexec: bool): File
    requires from in v.fds
  {
    v.fds[from].(cloexec := cloexec)
  }

  ghost predicate Enabled(v: View, e: Event) {
    match e
    case OpenFile(k, f) => k !in v.fds && k.1 >= 0 && (f.Vfs? || f.Dir?)
    case SetFlags(k, f) => k in v.fds && forall id, w :: IsEnd(f, id, w) == IsEnd(v.fds[k], id, w)
    case MakePipe(r, w, _, _) => r !in v.fds && w !in v.fds && r != w && r.1 >= 0 && w.1 >= 0 && v.nextId < U64_MAX
    case Duplicate(k, from, _) => k !in v.fds && k.1 >= 0 && from in v.fds && NotSaturated(v.pipes, v.fds[from])
    case Replace(k, from, _) =>
      k in v.fds && from in v.fds && k != from && NotSaturated(Closed(v, k).pipes, v.fds[from])
    case CloseFd(k) => k in v.fds
    case ReadPipe(k, n) =>
      && k in v.fds && v.fds[k].PipeRead? && v.fds[k].id in v.pipes && v.fds[k].id in v.taken
      && ReadOutcome(v, k, n, Err(EBADF)).Ok?
    case WritePipe(k, bytes) =>
      && k in v.fds && v.fds[k].PipeWrite? && v.fds[k].id in v.pipes && v.fds[k].id in v.written
      && WriteOutcome(v, k, |bytes|).Ok?
    case Exit(_) => true
  }

  ghost function Apply(v: View, e: Event): View
    requires Enabled(v, e)
  {
    match e
    case OpenFile(k, f) => v.(fds := v.fds[k := f])
    case SetFlags(k, f) => v.(fds := v.fds[k := f])
    case MakePipe(r, w, nonblocking, cloexec) => WithPipe(v, r, w, nonblocking, cloexec)
    case Duplicate(k, from, cloexec) => Opened(v, k, Copy(v, from, cloexec))
    case Replace(k, from, cloexec) => Opened(Closed(v, k), k, Copy(v, from, cloexec))
    case CloseFd(k) => Closed(v, k)
    case ReadPipe(k, n) => Taken(v, v.fds[k].id, Min(n, |v.pipes[v.fds[k].id].data|))
    case WritePipe(k, bytes) => Appended(v, v.fds[k].id, bytes)
    case Exit(pid) => Exited(v, pid)
  }

  /** One call: it does one of these things, or nothing. */
  ghost predicate Step(v: View, v': View) {
    v' == v || exists e :: Enabled(v, e) && v' == Apply(v, e)
  }

  const EMPTY := View(map[], map[], 1, map[], map[])

  ghost predicate Run(trace: seq<View>) {
    && trace != [] && trace[0] == EMPTY
    && forall n :: 0 <= n < |trace| - 1 ==> Step(trace[n], trace[n + 1])
  }

  // ------------------------------------------------------------------------- steps

  lemma {:induction false} ReplaceKeeps(v: View, k: Key, from: Key, cloexec: bool)
    requires Inv(v) && Enabled(v, Replace(k, from, cloexec))
    ensures var v' := Apply(v, Replace(k, from, cloexec)); Inv(v') && Advance(v, v')
  {
    hide Inv, Advance, Released, Acquired;
    CloseKeeps(v, k);
    var u, f := Closed(v, k), Copy(v, from, cloexec);
    assert k.1 >= 0 by { NonNegative(v, k); }
    SameEnd(u.pipes, v.fds[from], f);
    OpenKeeps(u, k, f, from);
    AdvanceTrans(v, u, Opened(u, k, f));
  }

  lemma {:induction false} ReadKeeps(v: View, k: Key, n: nat)
    requires Inv(v) && Enabled(v, ReadPipe(k, n))
    ensures var v' := Apply(v, ReadPipe(k, n)); Inv(v') && Advance(v, v')
  {
    hide Inv, Advance;
    TakeKeeps(v, v.fds[k].id, Min(n, |v.pipes[v.fds[k].id].data|));
  }

  lemma {:induction false} WriteKeeps(v: View, k: Key, bytes: seq<Byte>)
    requires Inv(v) && Enabled(v, WritePipe(k, bytes))
    ensures var v' := Apply(v, WritePipe(k, bytes)); Inv(v') && Advance(v, v')
  {
    hide Inv, Advance;
    NamedEnd(v, k);
    if bytes == [] {
      AppendNothing(v, v.fds[k].id);
      AdvanceStays(v);
    } else {
      AppendKeeps(v, v.fds[k].id, bytes);
    }
  }

  lemma {:induction false} AppendNothing(v: View, id: nat)
    requires id in v.pipes && id in v.written
    ensures Appended(v, id, []) == v
  {
    var p, w := v.pipes[id], v.written[id];
    assert p.data + [] == p.data && w + [] == w;
    assert v.pipes[id := p] == v.pipes && v.written[id := w] == v.written;
  }

  /** Every operation keeps the counts and the bytes, and revives nothing. */
  lemma {:induction false} EventKeeps(v: View, e: Event)
    requires Inv(v) && Enabled(v, e)
    ensures Inv(Apply(v, e)) && Advance(v, Apply(v, e))
  {
    hide Inv, Advance, Exited, WithPipe, Closed, Opened, Taken, Appended, ReadOutcome, WriteOutcome, NotSaturated;
    match e
    case OpenFile(k, f) => PutKeeps(v, k, f);
    case SetFlags(k, f) => NonNegative(v, k); PutKeeps(v, k, f);
    case MakePipe(r, w, nonblocking, cloexec) => PipeKeeps(v, r, w, nonblocking, cloexec);
    case Duplicate(k, from, cloexec) =>
      SameEnd(v.pipes, v.fds[from], Copy(v, from, cloexec));
      OpenKeeps(v, k, Copy(v, from, cloexec), from);
    case Replace(k, from, cloexec) => ReplaceKeeps(v, k, from, cloexec);
    case CloseFd(k) => CloseKeeps(v, k);
    case ReadPipe(k, n) => ReadKeeps(v, k, n);
    case WritePipe(k, bytes) => WriteKeeps(v, k, bytes);
    case Exit(pid) => ExitKeeps(v, pid);
  }

  lemma {:induction false} NonNegative(v: View, k: Key)
    requires Inv(v) && k in v.fds
    ensures k.1 >= 0
  {
    assert FileOk(v, k);
  }

  lemma {:induction false} SameEnd(pipes: Pipes, f: File, g: File)
    requires g == f.(cloexec := g.cloexec) && NotSaturated(pipes, f)
    ensures NotSaturated(pipes, g)
  {
  }

  lemma {:induction false} RunInv(trace: seq<View>, i: nat)
    requires Run(trace) && i < |trace|
    ensures Inv(trace[i])
    ensures i > 0 ==> Inv(trace[i - 1]) && Advance(trace[i - 1], trace[i])
  {
    hide Apply, Enabled, Advance;
    if i > 0 {
      RunInv(trace, i - 1);
      hide Inv;
      var v, v' := trace[i - 1], trace[i - 1 + 1];
      assert Step(v, v');
      AdvanceStays(v);
      if v' != v {
        var e :| Enabled(v, e) && v' == Apply(v, e);
        EventKeeps(v, e);
      }
    }
  }

  lemma {:induction false} RunAdvances(trace: seq<View>, i: nat, j: nat)
    requires Run(trace) && i <= j < |trace|
    ensures Advance(trace[i], trace[j])
    decreases j - i
  {
    hide Inv, Advance, Step;
    if i == j {
      AdvanceStays(trace[i]);
    } else {
      RunAdvances(trace, i, j - 1);
      RunInv(trace, i);
      RunInv(trace, j);
      AdvanceTrans(trace[i], trace[j - 1], trace[j]);
    }
  }

  // ------------------------------------------------------------------ what it is for

  /**
   In every run: a pipe exists exactly as long as some descriptor of some
   process names it, its counters are the numbers of descriptors naming each
   end, and what was written to it is what was read followed by what is
   buffered.
   */
  lemma {:induction false} PipesAreCounted(trace: seq<View>, i: nat, id: nat)
    requires Run(trace) && i < |trace|
    ensures var v := trace[i]; var p, q := Refs(v.fds, id, false), Refs(v.fds, id, true);
      && (id in v.pipes <==> p + q > 0)
      && (id in v.pipes ==>
          && v.pipes[id].readers == p && v.pipes[id].writers == q
          && id in v.written && id in v.taken && v.written[id] == v.taken[id] + v.pipes[id].data)
  {
    hide Refs, Step;
    RunInv(trace, i);
    AliveIff(trace[i], id);
    if id in trace[i].pipes { assert PipeOk(trace[i], id); }
  }

  /**
   In every run: once a pipe has no writer it never has one again; what is
   still to be read is what was buffered then, no read is told to try again,
   and an empty buffer reads as end of file.
   */
  lemma {:induction false} EofIsPermanent(trace: seq<View>, i: nat, j: nat, id: nat)
    requires Run(trace) && i <= j < |trace| && id in trace[i].pipes && trace[i].pipes[id].writers == 0
    ensures id in trace[i].taken && id in trace[j].taken
    ensures id in trace[j].pipes ==>
      && trace[j].pipes[id].writers == 0
      && trace[i].taken[id] + trace[i].pipes[id].data == trace[j].taken[id] + trace[j].pipes[id].data
    ensures forall k, n: nat :: k in trace[j].fds && trace[j].fds[k].PipeRead? && trace[j].fds[k].id == id && n > 0 ==>
      id in trace[j].pipes && ReadOutcome(trace[j], k, n, Err(EBADF)) == Ok(Min(n, |trace[j].pipes[id].data|))
  {
    hide Refs, Step;
    RunAdvances(trace, i, j);
    RunInv(trace, i);
    RunInv(trace, j);
    assert PipeOk(trace[i], id);
    assert PipeAdvances(trace[i], trace[j], id);
    if id in trace[j].pipes { assert PipeOk(trace[j], id); }
    forall k | k in trace[j].fds && trace[j].fds[k].PipeRead? && trace[j].fds[k].id == id ensures id in trace[j].pipes {
      assert FileOk(trace[j], k);
    }
  }

  /** In every run: once a pipe has no reader it never has one again, every write to it fails and none adds a byte. */
  lemma {:induction false} EpipeIsPermanent(trace: seq<View>, i: nat, j: nat, id: nat)
    requires Run(trace) && i <= j < |trace| && id in trace[i].pipes && trace[i].pipes[id].readers == 0
    ensures id in trace[j].pipes ==> trace[j].pipes[id].readers == 0
    ensures id in trace[i].written && id in trace[j].written && trace[j].written[id] == trace[i].written[id]
    ensures forall k, n: nat :: k in trace[j].fds && trace[j].fds[k].PipeWrite? && trace[j].fds[k].id == id && n > 0 ==>
      WriteOutcome(trace[j], k, n) == Err(EPIPE)
  {
    hide Refs, Step;
    RunAdvances(trace, i, j);
    RunInv(trace, i);
    RunInv(trace, j);
    assert PipeOk(trace[i], id);
    assert PipeAdvances(trace[i], trace[j], id);
    forall k | k in trace[j].fds && trace[j].fds[k].PipeWrite? && trace[j].fds[k].id == id
      ensures id in trace[j].pipes
    {
      assert FileOk(trace[j], k);
    }
  }

  /** A read end moved to descriptor 0: with something typed, poll calls the empty pipe readable. */
  lemma {:induction false} PollExample()
    ensures var v := WithPipe(EMPTY, (1, 3), (1, 4), false, false);
      var f := PipeRead(1, false, false);
      Run([EMPTY, v, Opened(v, (1, 0), f)]) && !PredictsRead(Opened(v, (1, 0), f), (1, 0), 1, true)
  {
    var v := WithPipe(EMPTY, (1, 3), (1, 4), false, false);
    var u := Opened(v, (1, 0), PipeRead(1, false, false));
    var trace := [EMPTY, v, u];
    var e, d := MakePipe((1, 3), (1, 4), false, false), Duplicate((1, 0), (1, 3), false);
    assert Enabled(EMPTY, e) && v == Apply(EMPTY, e);
    assert v.fds[(1, 3)] == PipeRead(1, false, false) && v.pipes[1] == Pipe([], 1, 1);
    assert Enabled(v, d) && u == Apply(v, d);
    assert Step(trace[0], trace[1]) && Step(trace[1], trace[2]);
  }
}
