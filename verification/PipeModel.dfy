/** Open files and pipes as values: what each file-descriptor operation does to them. */
module PipeModel {
  import opened Common

  datatype File =
    | Vfs(cloexec: bool)
    | Dir(cloexec: bool)
    | PipeRead(id: nat, nonblocking: bool, cloexec: bool)
    | PipeWrite(id: nat, nonblocking: bool, cloexec: bool)

  datatype Pipe = Pipe(data: seq<Byte>, readers: nat, writers: nat)

  datatype Errno = EBADF | EAGAIN | EPIPE | EISDIR | EINVAL | FromVfs(code: int)

  type Pipes = map<nat, Pipe>

  /** A process and one of its file descriptors. */
  type Key = (nat, int)

  /** All open files, all pipes, and per pipe every byte ever written to it and read from it. */
  datatype View = View(
    fds: map<Key, File>, pipes: Pipes, nextId: nat, written: map<nat, seq<Byte>>, taken: map<nat, seq<Byte>>)

  predicate IsEnd(f: File, id: nat, writer: bool) {
    if writer then f.PipeWrite? && f.id == id else f.PipeRead? && f.id == id
  }

  ghost function EndsOf(fds: map<Key, File>, id: nat, writer: bool): set<Key> {
    set k | k in fds && IsEnd(fds[k], id, writer)
  }

  ghost function Refs(fds: map<Key, File>, id: nat, writer: bool): nat { |EndsOf(fds, id, writer)| }

  // -------------------------------------------------------------- the invariant

  ghost predicate PipeOk(v: View, id: nat)
    requires id in v.pipes
  {
    var p := v.pipes[id];
    && id < v.nextId
    && p.readers == Refs(v.fds, id, false) && p.writers == Refs(v.fds, id, true) && p.readers + p.writers > 0
    && id in v.written && id in v.taken && v.written[id] == v.taken[id] + p.data
  }

  ghost predicate FileOk(v: View, k: Key)
    requires k in v.fds
  {
    && k.1 >= 0
    && match v.fds[k]
       case PipeRead(id, _, _) => id in v.pipes
       case PipeWrite(id, _, _) => id in v.pipes
       case _ => true
  }

  ghost predicate Inv(v: View) {
    && (forall id :: id in v.pipes ==> PipeOk(v, id))
    && (forall k :: k in v.fds ==> FileOk(v, k))
  }

  /** A pipe exists exactly as long as some descriptor names it. */
  lemma {:induction false} AliveIff(v: View, id: nat)
    requires Inv(v)
    ensures id in v.pipes <==> Refs(v.fds, id, false) + Refs(v.fds, id, true) > 0
  {
    if id in v.pipes {
      assert PipeOk(v, id);
    } else {
      forall w: bool ensures EndsOf(v.fds, id, w) == {} {
        forall k | k in v.fds ensures !IsEnd(v.fds[k], id, w) { assert FileOk(v, k); }
      }
    }
  }

  // ------------------------------------------------------------- what never comes back

  /** No step revives a pipe or an end, or takes back a byte; nothing is written to a pipe without both ends. */
  ghost predicate PipeAdvances(v: View, v': View, id: nat) {
    && (id !in v.pipes ==> id !in v'.pipes)
    && (id in v.pipes && id in v'.pipes && v.pipes[id].writers == 0 ==> v'.pipes[id].writers == 0)
    && (id in v.pipes && id in v'.pipes && v.pipes[id].readers == 0 ==> v'.pipes[id].readers == 0)
    && (id in v.written ==> id in v'.written && v.written[id] <= v'.written[id])
    && (id in v.taken ==> id in v'.taken && v.taken[id] <= v'.taken[id])
    && (id in v.written && (id in v.pipes ==> v.pipes[id].writers == 0 || v.pipes[id].readers == 0) ==>
          v'.written[id] == v.written[id])
  }

  ghost predicate Advance(v: View, v': View) {
    v.nextId <= v'.nextId && forall id: nat :: id < v.nextId ==> PipeAdvances(v, v', id)
  }

  lemma {:induction false} AdvanceStays(v: View)
    ensures Advance(v, v)
  {
  }

  lemma {:induction false} AdvanceTrans(a: View, b: View, c: View)
    requires Inv(a) && Inv(b) && Advance(a, b) && Advance(b, c)
    ensures Advance(a, c)
  {
    hide PipeOk, FileOk, Refs;
    forall id: nat | id < a.nextId ensures PipeAdvances(a, c, id) {
      assert PipeAdvances(a, b, id) && PipeAdvances(b, c, id);
    }
  }

  // ----------------------------------------------------------------- counting ends

  lemma {:induction false} RefsAdd(fds: map<Key, File>, k: Key, f: File, id: nat, w: bool)
    requires k !in fds
    ensures Refs(fds[k := f], id, w) == Refs(fds, id, w) + if IsEnd(f, id, w) then 1 else 0
  {
    hide IsEnd;
    var a, b := EndsOf(fds, id, w), EndsOf(fds[k := f], id, w);
    if IsEnd(f, id, w) { assert b == a + {k}; } else { assert b == a; }
  }

  lemma {:induction false} RefsDrop(fds: map<Key, File>, k: Key, id: nat, w: bool)
    requires k in fds
    ensures Refs(fds - {k}, id, w) == Refs(fds, id, w) - if IsEnd(fds[k], id, w) then 1 else 0
    ensures Refs(fds, id, w) >= if IsEnd(fds[k], id, w) then 1 else 0
  {
    hide IsEnd;
    var a, b := EndsOf(fds, id, w), EndsOf(fds - {k}, id, w);
    if IsEnd(fds[k], id, w) { assert k in a && b == a - {k}; } else { assert b == a; }
  }

  // -------------------------------------------------------------------- operations

  function SatInc(n: nat): nat { if n >= U32_MAX then n else n + 1 }

  function SatDec(n: nat): nat { if n == 0 then 0 else n - 1 }

  /** `duplicate_open_file`: one more descriptor names this end. */
  function Acquired(pipes: Pipes, f: File): Pipes {
    match f
    case PipeRead(id, _, _) =>
      if id in pipes then pipes[id := pipes[id].(readers := SatInc(pipes[id].readers))] else pipes
    case PipeWrite(id, _, _) =>
      if id in pipes then pipes[id := pipes[id].(writers := SatInc(pipes[id].writers))] else pipes
    case _ => pipes
  }

  function Kept(pipes: Pipes, id: nat, p: Pipe): Pipes {
    if p.readers == 0 && p.writers == 0 then pipes - {id} else pipes[id := p]
  }

  /** One descriptor less names this end; a pipe without ends goes away. */
  function Released(pipes: Pipes, f: File): Pipes {
    match f
    case PipeRead(id, _, _) =>
      if id in pipes then Kept(pipes, id, pipes[id].(readers := SatDec(pipes[id].readers))) else pipes
    case PipeWrite(id, _, _) =>
      if id in pipes then Kept(pipes, id, pipes[id].(writers := SatDec(pipes[id].writers))) else pipes
    case _ => pipes
  }

  function Closed(v: View, k: Key): View
    requires k in v.fds
  {
    v.(fds := v.fds - {k}, pipes := Released(v.pipes, v.fds[k]))
  }

  function Opened(v: View, k: Key, f: File): View { v.(fds := v.fds[k := f], pipes := Acquired(v.pipes, f)) }

  /** Room for one more reference to the end f names. */
  predicate NotSaturated(pipes: Pipes, f: File) {
    match f
    case PipeRead(id, _, _) => id in pipes ==> pipes[id].readers < U32_MAX
    case PipeWrite(id, _, _) => id in pipes ==> pipes[id].writers < U32_MAX
    case _ => true
  }

  lemma {:induction false} CloseKeeps(v: View, k: Key)
    requires Inv(v) && k in v.fds
    ensures Inv(Closed(v, k)) && Advance(v, Closed(v, k))
  {
    hide Refs;
    var v' := Closed(v, k);
    assert FileOk(v, k);
    forall id | id in v'.pipes ensures PipeOk(v', id) {
      assert PipeOk(v, id);
      RefsDrop(v.fds, k, id, false);
      RefsDrop(v.fds, k, id, true);
    }
    forall q | q in v'.fds ensures FileOk(v', q) {
      assert FileOk(v, q);
      OtherEnd(v, k, q);
    }
  }

  /** A pipe that another descriptor names survives a close. */
  lemma {:induction false} OtherEnd(v: View, k: Key, q: Key)
    requires Inv(v) && k in v.fds && q in v.fds && q != k
    ensures v.fds[q].PipeRead? || v.fds[q].PipeWrite? ==> v.fds[q].id in Released(v.pipes, v.fds[k])
  {
    hide Refs;
    if v.fds[q].PipeRead? || v.fds[q].PipeWrite? {
      var id, w := v.fds[q].id, v.fds[q].PipeWrite?;
      assert FileOk(v, q) && FileOk(v, k) && PipeOk(v, id);
      RefsDrop(v.fds, k, id, w);
      RefsDrop(v.fds, k, id, !w);
      RefsDrop(v.fds - {k}, q, id, w);
    }
  }

  lemma {:induction false} OpenKeeps(v: View, k: Key, f: File, from: Key)
    requires Inv(v) && k !in v.fds && k.1 >= 0 && NotSaturated(v.pipes, f)
    requires from in v.fds && f == v.fds[from].(cloexec := f.cloexec)
    ensures Inv(Opened(v, k, f)) && Advance(v, Opened(v, k, f))
  {
    hide Refs;
    var v' := Opened(v, k, f);
    assert FileOk(v, from);
    forall id | id in v'.pipes ensures PipeOk(v', id) {
      assert PipeOk(v, id);
      RefsAdd(v.fds, k, f, id, false);
      RefsAdd(v.fds, k, f, id, true);
    }
    forall q | q in v'.fds ensures FileOk(v', q) {
      if q != k { assert FileOk(v, q); }
    }
    forall id: nat | id < v.nextId ensures PipeAdvances(v, v', id) { OpenAdvances(v, k, f, from, id); }
  }

  /** Duplicating an end cannot revive it: the original is still there. */
  lemma {:induction false} OpenAdvances(v: View, k: Key, f: File, from: Key, id: nat)
    requires Inv(v) && from in v.fds && f == v.fds[from].(cloexec := f.cloexec)
    ensures PipeAdvances(v, Opened(v, k, f), id)
  {
    hide Refs;
    assert FileOk(v, from);
    if id in v.pipes {
      assert PipeOk(v, id);
      RefsDrop(v.fds, from, id, false);
      RefsDrop(v.fds, from, id, true);
    }
  }

  /** A descriptor may take a file that names no pipe, or new flags for the file it has. */
  lemma {:induction false} PutKeeps(v: View, k: Key, f: File)
    requires Inv(v) && k.1 >= 0
    requires if k in v.fds then forall id, w :: IsEnd(f, id, w) == IsEnd(v.fds[k], id, w) else f.Vfs? || f.Dir?
    ensures var v' := v.(fds := v.fds[k := f]); Inv(v') && Advance(v, v')
  {
    var v' := v.(fds := v.fds[k := f]);
    forall id, w ensures EndsOf(v'.fds, id, w) == EndsOf(v.fds, id, w) {
      if k !in v.fds { assert !IsEnd(f, id, w); }
    }
    forall id | id in v'.pipes ensures PipeOk(v', id) { assert PipeOk(v, id); }
    forall q | q in v'.fds ensures FileOk(v', q) {
      if q in v.fds { assert FileOk(v, q); }
      if q == k && f.PipeRead? { assert IsEnd(f, f.id, false); }
      if q == k && f.PipeWrite? { assert IsEnd(f, f.id, true); }
    }
  }

  const U64_MAX: nat := 0xFFFF_FFFF_FFFF_FFFF

  /** The pipe number saturates. */
  function NextId(id: nat): nat { if id < U64_MAX then id + 1 else id }

  /** A new pipe; if both descriptors were the same, the write end would replace the read end. */
  function WithPipe(v: View, r: Key, w: Key, nonblocking: bool, cloexec: bool): View {
    var id := v.nextId;
    View(v.fds[r := PipeRead(id, nonblocking, cloexec)][w := PipeWrite(id, nonblocking, cloexec)],
         v.pipes[id := Pipe([], 1, 1)], NextId(id), v.written[id := []], v.taken[id := []])
  }

  /** The number of the last pipe would be given out again. */
  lemma {:induction false} LastPipe(v: View, r: Key, w: Key, nonblocking: bool, cloexec: bool)
    requires v.nextId >= U64_MAX
    ensures !Inv(WithPipe(v, r, w, nonblocking, cloexec))
  {
    var v' := WithPipe(v, r, w, nonblocking, cloexec);
    assert v.nextId in v'.pipes && !PipeOk(v', v.nextId);
  }

  lemma {:induction false} PipeKeeps(v: View, r: Key, w: Key, nonblocking: bool, cloexec: bool)
    requires Inv(v) && r !in v.fds && w !in v.fds && r != w && r.1 >= 0 && w.1 >= 0 && v.nextId < U64_MAX
    ensures var v' := WithPipe(v, r, w, nonblocking, cloexec); Inv(v') && Advance(v, v')
  {
    hide Refs;
    var v' := WithPipe(v, r, w, nonblocking, cloexec);
    var f, g := PipeRead(v.nextId, nonblocking, cloexec), PipeWrite(v.nextId, nonblocking, cloexec);
    AliveIff(v, v.nextId);
    assert v.nextId !in v.pipes;
    forall id | id in v'.pipes ensures PipeOk(v', id) {
      if id in v.pipes { assert PipeOk(v, id); }
      RefsAdd(v.fds, r, f, id, false);
      RefsAdd(v.fds, r, f, id, true);
      RefsAdd(v.fds[r := f], w, g, id, false);
      RefsAdd(v.fds[r := f], w, g, id, true);
    }
    forall q | q in v'.fds ensures FileOk(v', q) {
      if q in v.fds { assert FileOk(v, q); }
    }
  }

  /** One descriptor for both ends leaves a reader counted that does not exist. */
  lemma {:induction false} OneFdPipe(v: View, r: Key, nonblocking: bool, cloexec: bool)
    requires Inv(v) && r !in v.fds
    ensures !Inv(WithPipe(v, r, r, nonblocking, cloexec))
  {
    hide Refs;
    var v', id := WithPipe(v, r, r, nonblocking, cloexec), v.nextId;
    AliveIff(v, id);
    var f, g := PipeRead(id, nonblocking, cloexec), PipeWrite(id, nonblocking, cloexec);
    assert v.fds[r := f][r := g] == v.fds[r := g];
    RefsAdd(v.fds, r, g, id, false);
    assert v'.pipes[id].readers != Refs(v'.fds, id, false);
  }

  /** A saturated counter misses the new reference. */
  lemma {:induction false} OpenSaturated(v: View, k: Key, f: File)
    requires Inv(v) && k !in v.fds && !NotSaturated(v.pipes, f)
    ensures !Inv(Opened(v, k, f))
  {
    hide Refs;
    var v', id := Opened(v, k, f), f.id;
    assert PipeOk(v, id);
    RefsAdd(v.fds, k, f, id, f.PipeWrite?);
    assert !PipeOk(v', id);
  }

  // ------------------------------------------------------------------ process exit

  ghost function OthersOf(fds: map<Key, File>, pid: nat): map<Key, File> {
    map k | k in fds && k.0 != pid :: fds[k]
  }

  /** Without the process, every pipe that is still named has the references that are left. */
  ghost function Exited(v: View, pid: nat): View {
    var fds := OthersOf(v.fds, pid);
    v.(fds := fds,
       pipes := map id | id in v.pipes && Refs(fds, id, false) + Refs(fds, id, true) > 0 ::
         Pipe(v.pipes[id].data, Refs(fds, id, false), Refs(fds, id, true)))
  }

  lemma {:induction false} RefsOfOthers(fds: map<Key, File>, pid: nat, id: nat, w: bool)
    ensures Refs(OthersOf(fds, pid), id, w) <= Refs(fds, id, w)
  {
    var a, b := EndsOf(OthersOf(fds, pid), id, w), EndsOf(fds, id, w);
    assert a <= b;
    assert b == a + (b - a);
  }

  lemma {:induction false} ExitKeeps(v: View, pid: nat)
    requires Inv(v)
    ensures Inv(Exited(v, pid)) && Advance(v, Exited(v, pid))
  {
    hide Refs;
    var v' := Exited(v, pid);
    forall id | id in v'.pipes ensures PipeOk(v', id) { assert PipeOk(v, id); }
    forall q | q in v'.fds ensures FileOk(v', q) {
      assert FileOk(v, q);
      if v.fds[q].PipeRead? || v.fds[q].PipeWrite? { RefsDrop(v'.fds, q, v.fds[q].id, v.fds[q].PipeWrite?); }
    }
    forall id: nat | id < v.nextId ensures PipeAdvances(v, v', id) {
      if id in v.pipes {
        assert PipeOk(v, id);
        RefsOfOthers(v.fds, pid, id, false);
        RefsOfOthers(v.fds, pid, id, true);
      }
    }
  }

  /** Counts and buffers leave no choice: this is what releasing the process's files one by one comes to. */
  lemma {:induction false} ExitIsExited(v: View, pid: nat, v': View)
    requires Inv(v) && Inv(v') && v'.fds == OthersOf(v.fds, pid)
    requires v'.nextId == v.nextId && v'.written == v.written && v'.taken == v.taken
    requires forall id :: id in v'.pipes ==> id in v.pipes && v'.pipes[id].data == v.pipes[id].data
    ensures v' == Exited(v, pid)
  {
    hide Refs;
    var x := Exited(v, pid);
    forall id: nat ensures id in v'.pipes <==> id in x.pipes { AliveIff(v', id); AliveIff(v, id); Left(v, pid, id); }
    forall id | id in v'.pipes ensures v'.pipes[id] == x.pipes[id] { assert PipeOk(v', id); }
    assert v'.pipes == x.pipes;
  }

  lemma {:induction false} Left(v: View, pid: nat, id: nat)
    requires Inv(v)
    ensures Refs(OthersOf(v.fds, pid), id, false) + Refs(OthersOf(v.fds, pid), id, true) > 0 ==> id in v.pipes
  {
    hide Refs;
    RefsOfOthers(v.fds, pid, id, false);
    RefsOfOthers(v.fds, pid, id, true);
    AliveIff(v, id);
  }

  // ---------------------------------------------------------------- reading and writing

  /** What reading n bytes answers; `vfs` is the answer of the file system for a regular file. */
  function ReadOutcome(v: View, k: Key, n: nat, vfs: Result<nat, Errno>): Result<nat, Errno> {
    if k !in v.fds then Err(EBADF)
    else if n == 0 then Ok(0)
    else
      match v.fds[k]
      case Vfs(_) => vfs
      case Dir(_) => Err(EISDIR)
      case PipeWrite(_, _, _) => Err(EBADF)
      case PipeRead(id, _, _) =>
        if id !in v.pipes then Err(EBADF)
        else if v.pipes[id].data != [] then Ok(Min(n, |v.pipes[id].data|))
        else if v.pipes[id].writers == 0 then Ok(0)
        else Err(EAGAIN)
  }

  /** What writing n bytes answers. */
  function WriteOutcome(v: View, k: Key, n: nat): Result<nat, Errno> {
    if k !in v.fds then Err(EBADF)
    else if n == 0 then Ok(0)
    else
      match v.fds[k]
      case PipeWrite(id, _, _) =>
        if id !in v.pipes then Err(EBADF) else if v.pipes[id].readers == 0 then Err(EPIPE) else Ok(n)
      case Dir(_) => Err(EISDIR)
      case _ => Err(EBADF)
  }

  /** n bytes move from the front of the buffer to the reader. */
  function Taken(v: View, id: nat, n: nat): View
    requires id in v.pipes && n <= |v.pipes[id].data| && id in v.taken
  {
    var p := v.pipes[id];
    v.(pipes := v.pipes[id := p.(data := p.data[n..])], taken := v.taken[id := v.taken[id] + p.data[..n]])
  }

  function Appended(v: View, id: nat, bytes: seq<Byte>): View
    requires id in v.pipes && id in v.written
  {
    var p := v.pipes[id];
    v.(pipes := v.pipes[id := p.(data := p.data + bytes)], written := v.written[id := v.written[id] + bytes])
  }

  lemma {:induction false} TakeKeeps(v: View, id: nat, n: nat)
    requires Inv(v) && id in v.pipes && id in v.taken && n <= |v.pipes[id].data|
    ensures Inv(Taken(v, id, n)) && Advance(v, Taken(v, id, n))
  {
    hide Refs;
    var v' := Taken(v, id, n);
    forall i | i in v'.pipes ensures PipeOk(v', i) {
      assert PipeOk(v, i);
      if i == id {
        var t, d := v.taken[id], v.pipes[id].data;
        assert d == d[..n] + d[n..];
        assert t + d == (t + d[..n]) + d[n..];
      }
    }
    forall q | q in v'.fds ensures FileOk(v', q) { assert FileOk(v, q); }
  }

  lemma {:induction false} AppendKeeps(v: View, id: nat, bytes: seq<Byte>)
    requires Inv(v) && id in v.pipes && id in v.written && v.pipes[id].readers > 0 && v.pipes[id].writers > 0
    ensures Inv(Appended(v, id, bytes)) && Advance(v, Appended(v, id, bytes))
  {
    hide Refs;
    var v' := Appended(v, id, bytes);
    forall i | i in v'.pipes ensures PipeOk(v', i) {
      assert PipeOk(v, i);
      assert i == id ==> (v.taken[id] + v.pipes[id].data) + bytes == v.taken[id] + (v.pipes[id].data + bytes);
    }
    forall q | q in v'.fds ensures FileOk(v', q) { assert FileOk(v, q); }
  }

  /** The end a descriptor names is counted. */
  lemma {:induction false} NamedEnd(v: View, k: Key)
    requires Inv(v) && k in v.fds
    ensures v.fds[k].PipeRead? ==> v.fds[k].id in v.pipes && v.pipes[v.fds[k].id].readers > 0
    ensures v.fds[k].PipeWrite? ==> v.fds[k].id in v.pipes && v.pipes[v.fds[k].id].writers > 0
    ensures (v.fds[k].PipeRead? || v.fds[k].PipeWrite?) ==> v.fds[k].id in v.written && v.fds[k].id in v.taken
  {
    hide Refs;
    assert FileOk(v, k);
    if v.fds[k].PipeRead? || v.fds[k].PipeWrite? {
      assert PipeOk(v, v.fds[k].id);
      RefsDrop(v.fds, k, v.fds[k].id, v.fds[k].PipeWrite?);
    }
  }

  lemma {:induction false} ReleaseKeepsData(pipes: Pipes, g: File)
    ensures forall id :: id in Released(pipes, g) ==> id in pipes && Released(pipes, g)[id].data == pipes[id].data
  {
  }

  // ------------------------------------------------------------ what the caller sees

  /** Every descriptor not among ks is as it was. */
  ghost predicate OthersStay(fds: map<Key, File>, fds': map<Key, File>, ks: set<Key>) {
    forall k :: k !in ks ==> (k in fds' <==> k in fds) && (k in fds ==> fds'[k] == fds[k])
  }

  /** Every pipe but one is as it was. */
  ghost predicate OtherPipesStay(v: View, v': View, id: nat) {
    forall i :: i != id ==> (i in v'.pipes <==> i in v.pipes) && (i in v.pipes ==> v'.pipes[i] == v.pipes[i])
  }

  /** f is an end of the pipe with these flags. */
  ghost predicate EndWith(f: File, id: nat, writer: bool, nonblocking: bool, cloexec: bool) {
    && (if writer then f.PipeWrite? else f.PipeRead?)
    && f.id == id && f.nonblocking == nonblocking && f.cloexec == cloexec
  }

  lemma {:induction false} NewEnds(v: View, r: Key, w: Key, nonblocking: bool, cloexec: bool)
    ensures var v' := WithPipe(v, r, w, nonblocking, cloexec);
      && r in v'.fds && w in v'.fds
      && (r != w ==> EndWith(v'.fds[r], v.nextId, false, nonblocking, cloexec))
      && EndWith(v'.fds[w], v.nextId, true, nonblocking, cloexec)
      && v.nextId in v'.pipes && v'.pipes[v.nextId].data == []
      && OthersStay(v.fds, v'.fds, {r, w}) && OtherPipesStay(v, v', v.nextId)
  {
  }

  /** f under another name: the same end of the same pipe, or the same kind of file, with its own cloexec flag. */
  ghost predicate SameFile(f: File, g: File, cloexec: bool) {
    && g.cloexec == cloexec && (f.Vfs? <==> g.Vfs?) && (f.Dir? <==> g.Dir?)
    && (f.PipeRead? <==> g.PipeRead?) && (f.PipeWrite? <==> g.PipeWrite?)
    && (f.PipeRead? || f.PipeWrite? ==> g.id == f.id && g.nonblocking == f.nonblocking)
  }

  lemma {:induction false} OpenedEntry(v: View, k: Key, f: File)
    ensures var v' := Opened(v, k, f);
      && k in v'.fds && v'.fds[k] == f && OthersStay(v.fds, v'.fds, {k})
      && (forall i :: i in v'.pipes <==> i in v.pipes)
      && (forall i :: i in v.pipes ==> v'.pipes[i].data == v.pipes[i].data)
  {
  }

  lemma {:induction false} ClosedEntry(v: View, k: Key)
    requires k in v.fds
    ensures var v' := Closed(v, k);
      && k !in v'.fds && OthersStay(v.fds, v'.fds, {k})
      && (forall i :: i in v'.pipes ==> i in v.pipes && v'.pipes[i].data == v.pipes[i].data)
  {
    ReleaseKeepsData(v.pipes, v.fds[k]);
  }

  // -------------------------------------------------------------------------- poll

  datatype Revents = Revents(pollin: bool, pollout: bool, pollerr: bool, pollhup: bool, pollnval: bool)

  const NOTHING := Revents(false, false, false, false, false)

  /**
   `poll_revents`.  Descriptors 0 to 2 stand for the terminal, whatever the
   table says; `typed` and `readable` are the terminal's and the file system's
   answers.
   */
  function Poll(v: View, k: Key, wantIn: bool, wantOut: bool, typed: bool, readable: bool): Result<Revents, Errno> {
    if k.1 < 0 then Ok(NOTHING.(pollnval := true))
    else if k.1 <= 2 then Ok(NOTHING.(pollin := wantIn && k.1 == 0 && typed, pollout := wantOut && k.1 != 0))
    else if k !in v.fds then Err(EBADF)
    else
      match v.fds[k]
      case Vfs(_) => Ok(NOTHING.(pollin := wantIn && readable))
      case Dir(_) => Ok(NOTHING.(pollin := wantIn))
      case PipeRead(id, _, _) =>
        if id !in v.pipes then Ok(NOTHING.(pollhup := true))
        else
          var p := v.pipes[id];
          Ok(NOTHING.(pollin := wantIn && (p.data != [] || p.writers == 0), pollhup := p.writers == 0))
      case PipeWrite(id, _, _) =>
        if id !in v.pipes || v.pipes[id].readers == 0 then Ok(NOTHING.(pollerr := true, pollhup := true))
        else Ok(NOTHING.(pollout := wantOut))
  }

  /** What poll answers away from pipes, and that it never answers what was not asked. */
  lemma {:induction false} PollElsewhere(v: View, k: Key, wantIn: bool, wantOut: bool, typed: bool, readable: bool)
    ensures var e := Poll(v, k, wantIn, wantOut, typed, readable);
      && (e == Err(EBADF) <==> k.1 > 2 && k !in v.fds)
      && (e.Ok? ==> (e.value.pollin ==> wantIn) && (e.value.pollout ==> wantOut) && (e.value.pollnval <==> k.1 < 0))
      && (k.1 < 0 ==> !e.value.pollin && !e.value.pollout && !e.value.pollerr && !e.value.pollhup)
      && (k.1 == 0 ==> (e.value.pollin <==> wantIn && typed) && !e.value.pollout)
      && (1 <= k.1 <= 2 ==> !e.value.pollin && (e.value.pollout <==> wantOut))
      && (k.1 > 2 && k in v.fds && v.fds[k].Vfs? ==> (e.value.pollin <==> wantIn && readable) && !e.value.pollout)
      && (k.1 > 2 && k in v.fds && v.fds[k].Dir? ==> (e.value.pollin <==> wantIn) && !e.value.pollout)
      && (e.Ok? && (e.value.pollerr || e.value.pollhup) ==>
          k.1 > 2 && k in v.fds && (v.fds[k].PipeRead? || v.fds[k].PipeWrite?))
  {
  }

  /** POLLIN announces that a read will not be refused, and POLLHUP without data that it meets the end of file. */
  ghost predicate PredictsRead(v: View, k: Key, n: nat, typed: bool) {
    var e, r := Poll(v, k, true, false, typed, false), ReadOutcome(v, k, n, Err(EBADF));
    && e.Ok? && (e.value.pollin <==> r.Ok?) && (!e.value.pollin <==> r == Err(EAGAIN))
    && (r == Ok(0) ==> e.value.pollhup)
  }

  /** POLLOUT announces that everything will be taken, POLLERR a broken pipe. */
  ghost predicate PredictsWrite(v: View, k: Key, n: nat, typed: bool) {
    var e, r := Poll(v, k, false, true, typed, false), WriteOutcome(v, k, n);
    e.Ok? && (e.value.pollout <==> r == Ok(n)) && (e.value.pollerr <==> r == Err(EPIPE))
  }

  /** At a read end, poll foretells the next read exactly on descriptors above 2, and on 1 or 2 when idle. */
  lemma {:induction false} PollPredictsRead(v: View, k: Key, n: nat)
    requires Inv(v) && k in v.fds && v.fds[k].PipeRead? && n > 0
    ensures (forall typed :: PredictsRead(v, k, n, typed)) <==>
      || k.1 >= 3
      || (k.1 != 0 && v.fds[k].id in v.pipes && v.pipes[v.fds[k].id].data == [] && v.pipes[v.fds[k].id].writers > 0)
  {
    NamedEnd(v, k);
    assert FileOk(v, k);
    assert PredictsRead(v, k, n, true) && PredictsRead(v, k, n, false) ==> forall typed :: PredictsRead(v, k, n, typed);
  }

  /** At a write end, exactly on descriptors above 2, and on 1 and 2 while a reader is left. */
  lemma {:induction false} PollPredictsWrite(v: View, k: Key, n: nat)
    requires Inv(v) && k in v.fds && v.fds[k].PipeWrite? && n > 0
    ensures (forall typed :: PredictsWrite(v, k, n, typed)) <==>
      k.1 >= 3 || (k.1 != 0 && v.fds[k].id in v.pipes && v.pipes[v.fds[k].id].readers > 0)
  {
    NamedEnd(v, k);
    assert FileOk(v, k);
    assert PredictsWrite(v, k, n, true) ==> forall typed :: PredictsWrite(v, k, n, typed);
  }
}
