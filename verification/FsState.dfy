/** `FsState`: per-process descriptor tables and pipes, updated in place. */
module FsState {
  import opened Common
  import opened PipeModel
  import opened PipeRuns

  const FIRST_USER_FD := 3
  const I32_MAX := 0x7FFF_FFFF

  type I32 = x: int | -0x8000_0000 <= x <= 0x7FFF_FFFF

  /** A call that comes back, or one that searches for ever. */
  datatype Call<+T> = Returns(value: T) | Hangs

  const O_CLOEXEC: nat := 0x80000
  const O_NONBLOCK: nat := 0x800

  type Tables = map<nat, map<int, File>>

  /** All open files under their process and descriptor. */
  ghost function Flat(t: Tables): (m: map<Key, File>)
    ensures forall k: Key :: k in m <==> k.0 in t && k.1 in t[k.0]
    ensures forall k: Key :: k in m ==> m[k] == t[k.0][k.1]
  {
    assert forall k: Key :: k in KeysOf(t) <==> k.0 in t && k.1 in t[k.0] by {
      forall k: Key ensures k in KeysOf(t) <==> k.0 in t && k.1 in t[k.0] {
        KeysOfHas(t, k.0, k.1);
        assert k == (k.0, k.1);
      }
    }
    map k: Key | k in KeysOf(t) :: t[k.0][k.1]
  }

  ghost function KeysOf(t: Tables): set<Key> { set pid, fd | pid in t && fd in t[pid] :: (pid, fd) }

  lemma {:induction false} KeysOfHas(t: Tables, pid: nat, fd: int)
    ensures (pid, fd) in KeysOf(t) <==> pid in t && fd in t[pid]
  {
  }

  function TableOf(t: Tables, pid: nat): map<int, File> { if pid in t then t[pid] else map[] }

  lemma {:induction false} FlatPut(t: Tables, pid: nat, fd: int, f: File)
    ensures Flat(t[pid := TableOf(t, pid)[fd := f]]) == Flat(t)[(pid, fd) := f]
  {
    hide Flat;
  }

  lemma {:induction false} FlatTouch(t: Tables, pid: nat)
    ensures Flat(t[pid := TableOf(t, pid)]) == Flat(t)
  {
    hide Flat;
  }

  lemma {:induction false} FlatDel(t: Tables, pid: nat, fd: int)
    requires pid in t
    ensures Flat(t[pid := t[pid] - {fd}]) == Flat(t) - {(pid, fd)}
  {
    hide Flat;
  }

  class FsState {
    var openFiles: Tables
    var nextFd: map<nat, I32>
    var pipes: Pipes
    var nextPipeId: nat
    ghost var written: map<nat, seq<Byte>>
    ghost var taken: map<nat, seq<Byte>>

    ghost function Snap(): View
      reads this
    {
      View(Flat(openFiles), pipes, nextPipeId, written, taken)
    }

    ghost predicate Valid()
      reads this
    {
      Inv(Snap())
    }

    constructor ()
      ensures Valid() && Snap() == EMPTY
    {
      openFiles, nextFd, pipes, nextPipeId := map[], map[], map[], 1;
      written, taken := map[], map[];
    }

    /** Where the search for a free descriptor starts. */
    function SearchFrom(pid: nat, minFd: I32): I32
      reads this
    {
      var start := Max(minFd, FIRST_USER_FD);
      if pid in nextFd then Max(nextFd[pid], start) else start
    }

    /** No descriptor is free from there on. */
    ghost predicate Exhausted(pid: nat, from: int)
      reads this
    {
      forall f :: from <= f <= I32_MAX ==> (pid, f) in Flat(openFiles)
    }

    /** The least free descriptor from there on; without one the search never ends. */
    method AllocFdFrom(pid: nat, minFd: I32) returns (r: Call<I32>)
      modifies this`nextFd, this`openFiles
      ensures Flat(openFiles) == Flat(old(openFiles))
      ensures r == Hangs <==> old(Exhausted(pid, SearchFrom(pid, minFd)))
      ensures r.Returns? ==>
        && old(SearchFrom(pid, minFd)) <= r.value && (pid, r.value) !in Flat(openFiles)
        && (forall f :: old(SearchFrom(pid, minFd)) <= f < r.value ==> (pid, f) in Flat(openFiles))
        && nextFd == old(nextFd)[pid := Min(r.value + 1, I32_MAX)]
    {
      hide Flat;
      var start: I32 := Max(minFd, FIRST_USER_FD);
      if pid !in nextFd { nextFd := nextFd[pid := start]; }
      if nextFd[pid] < start { nextFd := nextFd[pid := start]; }
      FlatTouch(openFiles, pid);
      var table := TableOf(openFiles, pid);
      openFiles := openFiles[pid := table];
      var fd: I32 := nextFd[pid];
      while fd in table
        invariant old(SearchFrom(pid, minFd)) <= fd
        invariant forall g :: old(SearchFrom(pid, minFd)) <= g < fd ==> (pid, g) in Flat(openFiles)
        decreases I32_MAX - fd
      {
        if fd == I32_MAX {
          assert old(Exhausted(pid, SearchFrom(pid, minFd)));
          return Hangs;
        }
        fd := fd + 1;
      }
      assert (pid, fd) !in Flat(old(openFiles));
      nextFd := nextFd[pid := Min(fd + 1, I32_MAX)];
      r := Returns(fd);
    }

    /** Enters a file in the process's table. */
    method PutFile(pid: nat, fd: int, f: File)
      modifies this`openFiles
      ensures Flat(openFiles) == Flat(old(openFiles))[(pid, fd) := f]
    {
      hide Flat;
      FlatPut(openFiles, pid, fd, f);
      openFiles := openFiles[pid := TableOf(openFiles, pid)[fd := f]];
    }

    /**
     A new pipe with one descriptor at each end.  The second search does not
     know the first descriptor yet, so both are the same if that is the
     greatest number there is.
     */
    method Pipe2(pid: nat, flags: nat) returns (r: Call<Result<(I32, I32), Errno>>)
      requires Valid()
      modifies this
      ensures r == Returns(Err(EINVAL)) <==> flags !in {0, O_NONBLOCK, O_CLOEXEC, O_NONBLOCK + O_CLOEXEC}
      ensures r == Returns(Err(EINVAL)) ==> Snap() == old(Snap()) && Valid()
      ensures r == Hangs <==>
        flags in {0, O_NONBLOCK, O_CLOEXEC, O_NONBLOCK + O_CLOEXEC} && old(NoPair(pid, SearchFrom(pid, FIRST_USER_FD)))
      ensures r.Returns? && r.value != Err(EINVAL) ==>
        && r.value.Ok? && var (rd, wr) := r.value.value;
        && (pid, rd) !in old(Snap()).fds && (pid, wr) !in old(Snap()).fds && FIRST_USER_FD <= rd <= wr
        && (rd == wr <==> rd == I32_MAX)
        && Snap() == WithPipe(old(Snap()), (pid, rd), (pid, wr), Flag(flags, O_NONBLOCK), Flag(flags, O_CLOEXEC))
        && (pid, rd) in Snap().fds && (pid, wr) in Snap().fds
        && var nonblocking, cloexec := flags / 0x800 % 2 == 1, flags / 0x80000 % 2 == 1;
        && (rd < wr ==> EndWith(Snap().fds[(pid, rd)], old(nextPipeId), false, nonblocking, cloexec))
        && EndWith(Snap().fds[(pid, wr)], old(nextPipeId), true, nonblocking, cloexec)
        && old(nextPipeId) in pipes && pipes[old(nextPipeId)].data == []
        && OthersStay(old(Snap()).fds, Snap().fds, {(pid, rd), (pid, wr)})
        && OtherPipesStay(old(Snap()), Snap(), old(nextPipeId))
        && (Valid() <==> rd < I32_MAX && old(nextPipeId) < U64_MAX) && (Valid() ==> Step(old(Snap()), Snap()))
        && nextFd == old(nextFd)[pid := Min(wr + 1, I32_MAX)]
    {
      hide Flat, Inv, Step, WithPipe, OthersStay, OtherPipesStay, EndWith;
      var nonblocking, cloexec := Flag(flags, O_NONBLOCK), Flag(flags, O_CLOEXEC);
      OnlyFlags(flags);
      ghost var v := Snap();
      if flags != (if nonblocking then O_NONBLOCK else 0) + if cloexec then O_CLOEXEC else 0 {
        return Returns(Err(EINVAL));
      }
      var fds := NewPipe(pid, nonblocking, cloexec);
      if fds == Hangs {
        return Hangs;
      }
      NewEnds(v, (pid, fds.value.0), (pid, fds.value.1), nonblocking, cloexec);
      r := Returns(Ok(fds.value));
    }

    /** At most one descriptor is free from there on, and it is not the greatest number. */
    ghost predicate NoPair(pid: nat, from: int)
      reads this
    {
      && (pid, I32_MAX) in Flat(openFiles)
      && forall f, g :: from <= f < g <= I32_MAX ==> (pid, f) in Flat(openFiles) || (pid, g) in Flat(openFiles)
    }

    method NewPipe(pid: nat, nonblocking: bool, cloexec: bool) returns (r: Call<(I32, I32)>)
      requires Valid()
      modifies this
      ensures r == Hangs <==> old(NoPair(pid, SearchFrom(pid, FIRST_USER_FD)))
      ensures r.Returns? ==> var (rd, wr) := r.value;
        && (pid, rd) !in old(Snap()).fds && (pid, wr) !in old(Snap()).fds && FIRST_USER_FD <= rd <= wr
        && (rd == wr <==> rd == I32_MAX)
        && Snap() == WithPipe(old(Snap()), (pid, rd), (pid, wr), nonblocking, cloexec)
        && (Valid() <==> rd < I32_MAX && old(nextPipeId) < U64_MAX) && (Valid() ==> Step(old(Snap()), Snap()))
        && nextFd == old(nextFd)[pid := Min(wr + 1, I32_MAX)]
    {
      hide Flat, Inv, Step, WithPipe, NoPair;
      var fds := FindPair(pid);
      if fds == Hangs {
        return Hangs;
      }
      AddPipe(pid, fds.value.0, fds.value.1, nonblocking, cloexec);
      r := fds;
    }

    /** The two searches of `pipe2`. */
    method FindPair(pid: nat) returns (r: Call<(I32, I32)>)
      modifies this`nextFd, this`openFiles
      ensures Flat(openFiles) == Flat(old(openFiles))
      ensures r == Hangs <==> old(NoPair(pid, SearchFrom(pid, FIRST_USER_FD)))
      ensures r.Returns? ==> var (rd, wr) := r.value;
        && (pid, rd) !in Flat(openFiles) && (pid, wr) !in Flat(openFiles) && FIRST_USER_FD <= rd <= wr
        && (rd == wr <==> rd == I32_MAX) && nextFd == old(nextFd)[pid := Min(wr + 1, I32_MAX)]
    {
      hide Flat;
      var rd := AllocFdFrom(pid, FIRST_USER_FD);
      if rd == Hangs {
        return Hangs;
      }
      var wr := AllocFdFrom(pid, FIRST_USER_FD);
      if wr == Hangs {
        return Hangs;
      }
      r := Returns((rd.value, wr.value));
    }

    method AddPipe(pid: nat, readFd: I32, writeFd: I32, nonblocking: bool, cloexec: bool)
      requires Valid() && 0 <= readFd <= writeFd
      requires (pid, readFd) !in Snap().fds && (pid, writeFd) !in Snap().fds
      modifies this`openFiles, this`pipes, this`nextPipeId, this`written, this`taken
      ensures Snap() == WithPipe(old(Snap()), (pid, readFd), (pid, writeFd), nonblocking, cloexec)
      ensures Valid() <==> readFd < writeFd && old(nextPipeId) < U64_MAX
      ensures Valid() ==> Step(old(Snap()), Snap())
    {
      hide Flat, Inv, Step;
      PipeStep(Snap(), (pid, readFd), (pid, writeFd), nonblocking, cloexec);
      var id := nextPipeId;
      nextPipeId := NextId(nextPipeId);
      PutFile(pid, readFd, PipeRead(id, nonblocking, cloexec));
      PutFile(pid, writeFd, PipeWrite(id, nonblocking, cloexec));
      pipes := pipes[id := Pipe([], 1, 1)];
      written, taken := written[id := []], taken[id := []];
    }

    /** Enters an opened file or directory, found by the file system, at a new descriptor. */
    method Open(pid: nat, file: File) returns (r: Call<I32>)
      requires Valid() && (file.Vfs? || file.Dir?)
      modifies this`openFiles, this`nextFd
      ensures r == Hangs <==> old(Exhausted(pid, SearchFrom(pid, FIRST_USER_FD)))
      ensures r.Returns? ==>
        && Valid() && Step(old(Snap()), Snap())
        && (pid, r.value) !in old(Snap()).fds && Snap() == old(Snap()).(fds := old(Snap()).fds[(pid, r.value) := file])
    {
      hide Flat, Inv, Step;
      r := AllocFdFrom(pid, FIRST_USER_FD);
      if r == Hangs {
        return;
      }
      PutKeeps(Snap(), (pid, r.value), file);
      EventStep(Snap(), OpenFile((pid, r.value), file));
      PutFile(pid, r.value, file);
    }

    /** `fcntl` F_SETFL and F_SETFD: new flags for an open file. */
    method SetFlags(pid: nat, fd: I32, nonblocking: Option<bool>, cloexec: Option<bool>) returns (r: Result<(), Errno>)
      requires Valid()
      modifies this`openFiles
      ensures Valid() && Step(old(Snap()), Snap())
      ensures r == if (pid, fd) in old(Snap()).fds then Ok(()) else Err(EBADF)
      ensures r.Err? ==> Snap() == old(Snap())
      ensures r.Ok? ==> var v, k := old(Snap()), (pid, fd);
        && k in v.fds && k in Snap().fds && Snap() == v.(fds := Snap().fds) && OthersStay(v.fds, Snap().fds, {k})
        && NewFlags(v.fds[k], Snap().fds[k], nonblocking, cloexec)
    {
      hide Flat, Inv, Step, NewFlags, OthersStay, Reflagged, IsEnd;
      StepStays(Snap());
      if pid !in openFiles || fd !in openFiles[pid] {
        return Err(EBADF);
      }
      NonNegative(Snap(), (pid, fd));
      Reflags(Snap(), (pid, fd), nonblocking, cloexec);
      var file := Reflagged(openFiles[pid][fd], nonblocking, cloexec);
      PutKeeps(Snap(), (pid, fd), file);
      EventStep(Snap(), PipeRuns.SetFlags((pid, fd), file));
      PutFile(pid, fd, file);
      r := Ok(());
    }

    /** Moves bytes from the front of the pipe to the caller's buffer. */
    method Read(pid: nat, fd: I32, out: array<Byte>, vfs: Result<nat, Errno>) returns (r: Result<nat, Errno>)
      requires Valid()
      modifies this`pipes, this`taken, out
      ensures Valid() && Step(old(Snap()), Snap())
      ensures r == ReadOutcome(old(Snap()), (pid, fd), out.Length, vfs)
      ensures ReadAnswer(old(Snap()), (pid, fd), out.Length, vfs, r)
      ensures var k := (pid, fd);
        if k in old(Snap()).fds && old(Snap()).fds[k].PipeRead? && r.Ok? && r.value > 0 then
          var id := old(Snap()).fds[k].id;
          && id in old(pipes) && id in old(taken) && r.value <= |old(pipes)[id].data| && r.value <= out.Length
          && Snap() == Taken(old(Snap()), id, r.value) && OtherPipesStay(old(Snap()), Snap(), id)
          && id in pipes && pipes[id] == old(pipes)[id].(data := old(pipes)[id].data[r.value..])
          && out[..r.value] == old(pipes)[id].data[..r.value] && out[r.value..] == old(out[r.value..])
        else Snap() == old(Snap()) && out[..] == old(out[..])
    {
      hide Flat, Inv, Step, ReadAnswer, WriteAnswer;
      ghost var k, v := (pid, fd), Snap();
      StepStays(v);
      Answers(v, k, out.Length, vfs);
      if pid !in openFiles || fd !in openFiles[pid] {
        return Err(EBADF);
      }
      NamedEnd(v, k);
      if out.Length == 0 {
        return Ok(0);
      }
      match openFiles[pid][fd]
      case Vfs(_) =>
        return vfs;
      case Dir(_) =>
        return Err(EISDIR);
      case PipeWrite(_, _, _) =>
        return Err(EBADF);
      case PipeRead(id, _, _) =>
        var n := Drain(id, out);
        TakeKeeps(v, id, n);
        TakeNothing(v, id);
        if n > 0 {
          EventStep(v, ReadPipe(k, out.Length));
          return Ok(n);
        }
        if pipes[id].writers == 0 {
          return Ok(0);
        }
        return Err(EAGAIN);
    }

    /** The loop of `read`: pop bytes until the buffer is full or the queue is empty. */
    method Drain(id: nat, out: array<Byte>) returns (n: nat)
      requires id in pipes && id in taken
      modifies this`pipes, this`taken, out
      ensures n == Min(out.Length, |old(pipes)[id].data|)
      ensures Snap() == Taken(old(Snap()), id, n)
      ensures out[..n] == old(pipes)[id].data[..n] && out[n..] == old(out[n..])
    {
      hide Flat;
      ghost var d, t := pipes[id].data, taken[id];
      n := 0;
      TakeNothing(Snap(), id);
      while n < out.Length && pipes[id].data != []
        invariant n <= out.Length && n <= |d| && id in pipes && id in taken
        invariant pipes == old(pipes)[id := old(pipes)[id].(data := d[n..])] && taken == old(taken)[id := t + d[..n]]
        invariant forall i :: 0 <= i < n ==> out[i] == d[i]
        invariant forall i :: n <= i < out.Length ==> out[i] == old(out[i])
        invariant pipes[id].data == d[n..]
      {
        var queue := pipes[id].data;
        out[n] := queue[0];
        pipes := pipes[id := pipes[id].(data := queue[1..])];
        taken := taken[id := taken[id] + [queue[0]]];
        DrainStep(d, t, n);
        n := n + 1;
      }
    }

    /** Appends to the pipe's queue, all or nothing. */
    method Write(pid: nat, fd: I32, data: seq<Byte>) returns (r: Result<nat, Errno>)
      requires Valid()
      modifies this`pipes, this`written
      ensures Valid() && Step(old(Snap()), Snap())
      ensures r == WriteOutcome(old(Snap()), (pid, fd), |data|)
      ensures WriteAnswer(old(Snap()), (pid, fd), |data|, r)
      ensures if r.Ok? && r.value > 0 then
          var id := old(Snap()).fds[(pid, fd)].id;
          && id in old(pipes) && id in old(written) && Snap() == Appended(old(Snap()), id, data)
          && id in pipes && pipes[id] == old(pipes)[id].(data := old(pipes)[id].data + data)
          && OtherPipesStay(old(Snap()), Snap(), id)
        else Snap() == old(Snap())
    {
      hide Flat, Inv, Step, ReadAnswer, WriteAnswer;
      ghost var k, v := (pid, fd), Snap();
      StepStays(v);
      Answers(v, k, |data|, Ok(0));
      if pid !in openFiles || fd !in openFiles[pid] {
        return Err(EBADF);
      }
      NamedEnd(v, k);
      if data == [] {
        return Ok(0);
      }
      match openFiles[pid][fd]
      case PipeWrite(id, _, _) =>
        if pipes[id].readers == 0 {
          return Err(EPIPE);
        }
        AppendKeeps(v, id, data);
        EventStep(v, WritePipe(k, data));
        Enqueue(id, data);
        return Ok(|data|);
      case Dir(_) =>
        return Err(EISDIR);
      case PipeRead(_, _, _) =>
        return Err(EBADF);
      case Vfs(_) =>
        return Err(EBADF);
    }

    method Enqueue(id: nat, data: seq<Byte>)
      requires id in pipes && id in written
      modifies this`pipes, this`written
      ensures Snap() == Appended(old(Snap()), id, data)
    {
      hide Flat;
      ghost var p, w := pipes[id], written[id];
      assert p.data + data[..0] == p.data && w + data[..0] == w;
      for i := 0 to |data|
        invariant id in pipes && id in written
        invariant pipes == old(pipes)[id := p.(data := p.data + data[..i])]
        invariant written == old(written)[id := w + data[..i]]
      {
        pipes := pipes[id := pipes[id].(data := pipes[id].data + [data[i]])];
        written := written[id := written[id] + [data[i]]];
        EnqueueStep(p.data, w, data, i);
      }
      assert data[..|data|] == data;
    }

    method Close(pid: nat, fd: I32) returns (r: Result<(), Errno>)
      requires Valid()
      modifies this`openFiles, this`pipes
      ensures Valid() && Step(old(Snap()), Snap())
      ensures r == if (pid, fd) in old(Snap()).fds then Ok(()) else Err(EBADF)
      ensures Snap() == if r.Ok? then Closed(old(Snap()), (pid, fd)) else old(Snap())
      ensures (pid, fd) !in Snap().fds && OthersStay(old(Snap()).fds, Snap().fds, {(pid, fd)})
      ensures forall id :: id in pipes ==> id in old(pipes) && pipes[id].data == old(pipes)[id].data
    {
      hide Flat, Inv, Step;
      StepStays(Snap());
      if pid !in openFiles || fd !in openFiles[pid] {
        return Err(EBADF);
      }
      CloseKeeps(Snap(), (pid, fd));
      ClosedEntry(Snap(), (pid, fd));
      EventStep(Snap(), CloseFd((pid, fd)));
      FlatDel(openFiles, pid, fd);
      var file := openFiles[pid][fd];
      openFiles := openFiles[pid := openFiles[pid] - {fd}];
      pipes := Released(pipes, file);
      r := Ok(());
    }

    /** Counts one more reference to an open file and enters it at a free descriptor. */
    method OpenCopy(pid: nat, fd: I32, file: File, cloexec: bool, ghost from: Key)
      requires Valid() && fd >= 0 && (pid, fd) !in Snap().fds && from in Snap().fds && Snap().fds[from] == file
      modifies this`openFiles, this`pipes
      ensures Snap() == Opened(old(Snap()), (pid, fd), file.(cloexec := cloexec))
      ensures Valid() <==> NotSaturated(old(pipes), file)
    {
      hide Flat, Inv, Acquired, NotSaturated;
      var copy := file.(cloexec := cloexec);
      CopyKeepsIff(Snap(), (pid, fd), from, cloexec);
      pipes := Acquired(pipes, copy);
      PutFile(pid, fd, copy);
    }

    /** A second descriptor for the same open file; the counts stay right if and only if none is saturated. */
    method Dup(pid: nat, oldFd: I32, minFd: I32, cloexec: bool) returns (r: Call<Result<I32, Errno>>)
      requires Valid()
      modifies this`openFiles, this`pipes, this`nextFd
      ensures var v, k := old(Snap()), (pid, oldFd);
        && (r == Hangs <==> k in v.fds && old(Exhausted(pid, SearchFrom(pid, minFd))))
        && (r == Returns(Err(EBADF)) <==> k !in v.fds)
        && (k !in v.fds ==> Valid() && Snap() == v)
        && (r.Returns? && k in v.fds ==>
            && r.value.Ok? && var fd := r.value.value;
            && (pid, fd) !in v.fds && fd >= Max(minFd, FIRST_USER_FD)
            && (forall f :: old(SearchFrom(pid, minFd)) <= f < fd ==> (pid, f) in v.fds)
            && Snap() == Opened(v, (pid, fd), Copy(v, k, cloexec))
            && (pid, fd) in Snap().fds && SameFile(v.fds[k], Snap().fds[(pid, fd)], cloexec)
            && OthersStay(v.fds, Snap().fds, {(pid, fd)})
            && (Valid() <==> NotSaturated(v.pipes, v.fds[k])) && (Valid() ==> Step(v, Snap()))
            && nextFd == old(nextFd)[pid := Min(fd + 1, I32_MAX)])
    {
      hide Flat, Inv, Step, NotSaturated, Opened, OthersStay, SameFile;
      OthersStand(Snap());
      if pid !in openFiles || oldFd !in openFiles[pid] {
        return Returns(Err(EBADF));
      }
      var file := openFiles[pid][oldFd];
      var fd := AllocFdFrom(pid, minFd);
      if fd == Hangs {
        return Hangs;
      }
      DuplicateStep(Snap(), (pid, fd.value), (pid, oldFd), cloexec);
      CopiedEntry(Snap(), Snap(), (pid, fd.value), (pid, oldFd), cloexec);
      OpenCopy(pid, fd.value, file, cloexec, (pid, oldFd));
      r := Returns(Ok(fd.value));
    }

    /** The same at a chosen descriptor, closing what was there; it may be the other end of the same pipe. */
    method Dup2(pid: nat, oldFd: I32, newFd: I32, cloexec: bool) returns (r: Result<I32, Errno>)
      requires Valid()
      modifies this`openFiles, this`pipes, this`nextFd
      ensures r == if newFd >= 0 && (pid, oldFd) in old(Snap()).fds then Ok(newFd) else Err(EBADF)
      ensures r.Err? || oldFd == newFd ==> Valid() && Snap() == old(Snap())
      ensures r.Ok? && oldFd != newFd ==> var v, u := old(Snap()), Vacated(old(Snap()), (pid, newFd));
        && Snap() == Opened(u, (pid, newFd), Copy(v, (pid, oldFd), cloexec))
        && (pid, newFd) in Snap().fds && SameFile(v.fds[(pid, oldFd)], Snap().fds[(pid, newFd)], cloexec)
        && OthersStay(v.fds, Snap().fds, {(pid, newFd)})
        && (Valid() <==> NotSaturated(u.pipes, v.fds[(pid, oldFd)])) && (Valid() ==> Step(v, Snap()))
        && nextFd == old(nextFd)[pid := FdAfter(old(nextFd), pid, newFd)]
        && var next := if pid in old(nextFd) then old(nextFd)[pid] else FIRST_USER_FD;
        && nextFd[pid] == if newFd < next then next else if newFd < I32_MAX then newFd + 1 else I32_MAX
    {
      hide Flat, Inv, Step, NotSaturated, Opened, Released, OthersStay, SameFile;
      if newFd < 0 || pid !in openFiles || oldFd !in openFiles[pid] {
        return Err(EBADF);
      }
      if oldFd == newFd {
        return Ok(newFd);
      }
      ghost var v := Snap();
      var file := openFiles[pid][oldFd];
      var closed := Close(pid, newFd);
      Dup2Step(v, (pid, newFd), (pid, oldFd), cloexec);
      CopiedEntry(v, Snap(), (pid, newFd), (pid, oldFd), cloexec);
      OpenCopy(pid, newFd, file, cloexec, (pid, oldFd));
      nextFd := nextFd[pid := FdAfter(nextFd, pid, newFd)];
      r := Ok(newFd);
    }

    /** Process exit: every descriptor of the process is released, in whatever order. */
    method DropProcessFds(pid: nat)
      requires Valid()
      modifies this`openFiles, this`pipes, this`nextFd
      ensures Valid() && Step(old(Snap()), Snap()) && Snap() == Exited(old(Snap()), pid)
      ensures forall k :: k in Snap().fds <==> k in old(Snap()).fds && k.0 != pid
      ensures OthersStay(old(Snap()).fds, Snap().fds, set k | k in old(Snap()).fds && k.0 == pid)
      ensures forall id :: id in pipes ==> id in old(pipes) && pipes[id].data == old(pipes)[id].data
      ensures nextFd == old(nextFd) - {pid}
    {
      hide Flat, Inv, Step, Exited;
      ghost var v := Snap();
      if pid in openFiles {
        var table := openFiles[pid];
        openFiles := openFiles - {pid};
        assert openFiles[pid := table] == old(openFiles);
        ReleaseAll(pid, table);
        FlatEmpty(openFiles, pid);
      }
      FlatOthers(old(openFiles), pid, openFiles);
      nextFd := nextFd - {pid};
      ExitIsExited(v, pid, Snap());
      ExitedEntries(v, pid);
      EventStep(v, Exit(pid));
    }

    /** Releases the files of a table that is no longer in `openFiles`. */
    method ReleaseAll(pid: nat, table: map<int, File>)
      requires Inv(Snap().(fds := Flat(openFiles[pid := table])))
      modifies this`pipes
      ensures Inv(Snap().(fds := Flat(openFiles[pid := map[]])))
      ensures forall id :: id in pipes ==> id in old(pipes) && pipes[id].data == old(pipes)[id].data
    {
      hide Flat, Inv, Released;
      var todo := table;
      while todo != map[]
        invariant Inv(Snap().(fds := Flat(openFiles[pid := todo])))
        invariant forall id :: id in pipes ==> id in old(pipes) && pipes[id].data == old(pipes)[id].data
        decreases |todo|
      {
        var fd := AnyKey(todo);
        ReleaseStep(Snap().(fds := Flat(openFiles[pid := todo])), openFiles, pid, todo, fd);
        ReleaseKeepsData(pipes, todo[fd]);
        pipes := Released(pipes, todo[fd]);
        todo := todo - {fd};
      }
    }
  }

  lemma {:induction false} ReleaseStep(u: View, t: Tables, pid: nat, todo: map<int, File>, fd: int)
    requires Inv(u) && fd in todo && u.fds == Flat(t[pid := todo])
    ensures Inv(u.(fds := Flat(t[pid := todo - {fd}]), pipes := Released(u.pipes, todo[fd])))
  {
    hide Flat, Inv, Released;
    CloseKeeps(u, (pid, fd));
    FlatDel(t[pid := todo], pid, fd);
    assert t[pid := todo][pid := todo - {fd}] == t[pid := todo - {fd}];
  }

  /** What is left in the tables are the files of the other processes. */
  lemma {:induction false} FlatOthers(t: Tables, pid: nat, t': Tables)
    requires t' == t - {pid}
    ensures Flat(t') == OthersOf(Flat(t), pid)
  {
    hide Flat;
  }

  // --------------------------------------------------------------- calls and steps

  lemma {:induction false} StepStays(v: View)
    ensures Step(v, v)
  {
  }

  lemma {:induction false} EventStep(v: View, e: Event)
    requires Enabled(v, e)
    ensures Step(v, Apply(v, e))
  {
    hide Apply, Enabled;
  }

  lemma {:induction false} PipeStep(v: View, r: Key, w: Key, nonblocking: bool, cloexec: bool)
    requires Inv(v) && r !in v.fds && w !in v.fds && r.1 >= 0 && w.1 >= 0
    ensures var v' := WithPipe(v, r, w, nonblocking, cloexec);
      (Inv(v') <==> r != w && v.nextId < U64_MAX) && (Inv(v') ==> Step(v, v'))
  {
    hide Inv, WithPipe, Step;
    if v.nextId >= U64_MAX {
      LastPipe(v, r, w, nonblocking, cloexec);
    } else if r == w {
      OneFdPipe(v, r, nonblocking, cloexec);
    } else {
      PipeKeeps(v, r, w, nonblocking, cloexec);
      EventStep(v, MakePipe(r, w, nonblocking, cloexec));
    }
  }

  /** What `read` of n bytes answers, case by case. */
  ghost predicate ReadAnswer(v: View, k: Key, n: nat, vfs: Result<nat, Errno>, r: Result<nat, Errno>) {
    && (k !in v.fds ==> r == Err(EBADF))
    && (k in v.fds && n == 0 ==> r == Ok(0))
    && (k in v.fds && n > 0 && v.fds[k].Vfs? ==> r == vfs)
    && (k in v.fds && n > 0 && v.fds[k].Dir? ==> r == Err(EISDIR))
    && (k in v.fds && n > 0 && v.fds[k].PipeWrite? ==> r == Err(EBADF))
    && (k in v.fds && n > 0 && v.fds[k].PipeRead? && v.fds[k].id in v.pipes ==>
        var p := v.pipes[v.fds[k].id];
        && (r == Err(EAGAIN) <==> p.data == [] && p.writers > 0)
        && (r == Ok(0) <==> p.data == [] && p.writers == 0)
        && (p.data != [] ==> r.Ok? && 0 < r.value <= n && (r.value == n || r.value == |p.data|)))
  }

  /** What `write` of n bytes answers, case by case. */
  ghost predicate WriteAnswer(v: View, k: Key, n: nat, r: Result<nat, Errno>) {
    && (k !in v.fds ==> r == Err(EBADF))
    && (k in v.fds && n == 0 ==> r == Ok(0))
    && (k in v.fds && n > 0 && v.fds[k].Vfs? ==> r == Err(EBADF))
    && (k in v.fds && n > 0 && v.fds[k].Dir? ==> r == Err(EISDIR))
    && (k in v.fds && n > 0 && v.fds[k].PipeRead? ==> r == Err(EBADF))
    && (k in v.fds && n > 0 && v.fds[k].PipeWrite? && v.fds[k].id in v.pipes ==>
        r == if v.pipes[v.fds[k].id].readers == 0 then Err(EPIPE) else Ok(n))
  }

  lemma {:induction false} Answers(v: View, k: Key, n: nat, vfs: Result<nat, Errno>)
    ensures ReadAnswer(v, k, n, vfs, ReadOutcome(v, k, n, vfs)) && WriteAnswer(v, k, n, WriteOutcome(v, k, n))
  {
  }

  /** What is at a descriptor is closed. */
  function Vacated(v: View, k: Key): View { if k in v.fds then Closed(v, k) else v }

  /** The search start after a descriptor was chosen by the caller. */
  function FdAfter(nextFd: map<nat, I32>, pid: nat, fd: I32): I32 {
    var next := if pid in nextFd then nextFd[pid] else FIRST_USER_FD;
    if next <= fd then Min(fd + 1, I32_MAX) else next
  }

  lemma {:induction false} CopyKeepsIff(v: View, k: Key, from: Key, cloexec: bool)
    requires Inv(v) && k !in v.fds && k.1 >= 0 && from in v.fds
    ensures Inv(Opened(v, k, Copy(v, from, cloexec))) <==> NotSaturated(v.pipes, v.fds[from])
  {
    hide Inv, Opened;
    var f := Copy(v, from, cloexec);
    assert NotSaturated(v.pipes, f) <==> NotSaturated(v.pipes, v.fds[from]);
    if NotSaturated(v.pipes, f) { OpenKeeps(v, k, f, from); } else { OpenSaturated(v, k, f); }
  }

  lemma {:induction false} DuplicateStep(v: View, k: Key, from: Key, cloexec: bool)
    requires k !in v.fds && k.1 >= 0 && from in v.fds
    ensures NotSaturated(v.pipes, v.fds[from]) ==> Step(v, Opened(v, k, Copy(v, from, cloexec)))
  {
    hide Opened, NotSaturated, Step;
    if NotSaturated(v.pipes, v.fds[from]) { EventStep(v, Duplicate(k, from, cloexec)); }
  }

  lemma {:induction false} OthersStand(v: View)
    ensures forall k :: OthersStay(v.fds, v.fds, {k})
  {
  }

  lemma {:induction false} CopiedEntry(v: View, u: View, k: Key, from: Key, cloexec: bool)
    requires from in v.fds && OthersStay(v.fds, u.fds, {k})
    ensures var v' := Opened(u, k, Copy(v, from, cloexec));
      k in v'.fds && SameFile(v.fds[from], v'.fds[k], cloexec) && OthersStay(v.fds, v'.fds, {k})
  {
  }

  lemma {:induction false} Reflags(v: View, k: Key, nonblocking: Option<bool>, cloexec: Option<bool>)
    requires k in v.fds
    ensures var g := Reflagged(v.fds[k], nonblocking, cloexec);
      && NewFlags(v.fds[k], g, nonblocking, cloexec) && OthersStay(v.fds, v.fds[k := g], {k})
      && forall id, w :: IsEnd(g, id, w) == IsEnd(v.fds[k], id, w)
  {
  }

  lemma {:induction false} ExitedEntries(v: View, pid: nat)
    ensures var v' := Exited(v, pid);
      && (forall k :: k in v'.fds <==> k in v.fds && k.0 != pid)
      && OthersStay(v.fds, v'.fds, set k | k in v.fds && k.0 == pid)
      && (forall id :: id in v'.pipes ==> id in v.pipes && v'.pipes[id].data == v.pipes[id].data)
  {
  }

  lemma {:induction false} Dup2Step(v: View, k: Key, from: Key, cloexec: bool)
    requires k.1 >= 0 && from in v.fds && k != from
    ensures var u := Vacated(v, k);
      && k !in u.fds && from in u.fds && u.fds[from] == v.fds[from]
      && (NotSaturated(u.pipes, v.fds[from]) ==> Step(v, Opened(u, k, Copy(v, from, cloexec))))
  {
    hide Opened, NotSaturated, Step, Released;
    if k !in v.fds {
      DuplicateStep(v, k, from, cloexec);
    } else if NotSaturated(Closed(v, k).pipes, v.fds[from]) {
      EventStep(v, PipeRuns.Replace(k, from, cloexec));
    }
  }

  /** g is f with the given flags, and with its own where none is given; only pipe ends can be nonblocking. */
  ghost predicate NewFlags(f: File, g: File, nonblocking: Option<bool>, cloexec: Option<bool>) {
    && g.cloexec == (if cloexec.Some? then cloexec.value else f.cloexec)
    && (f.Vfs? <==> g.Vfs?) && (f.Dir? <==> g.Dir?)
    && (f.PipeRead? <==> g.PipeRead?) && (f.PipeWrite? <==> g.PipeWrite?)
    && (f.PipeRead? || f.PipeWrite? ==>
        g.id == f.id && g.nonblocking == if nonblocking.Some? then nonblocking.value else f.nonblocking)
  }

  function Reflagged(f: File, nonblocking: Option<bool>, cloexec: Option<bool>): File {
    var g := if cloexec.Some? then f.(cloexec := cloexec.value) else f;
    if nonblocking.Some? && (g.PipeRead? || g.PipeWrite?) then g.(nonblocking := nonblocking.value) else g
  }

  predicate Flag(flags: nat, bit: nat)
    requires bit > 0
  {
    flags / bit % 2 == 1
  }

  lemma {:induction false} OnlyFlags(flags: nat)
    ensures flags ==
      (if Flag(flags, O_NONBLOCK) then O_NONBLOCK else 0) + (if Flag(flags, O_CLOEXEC) then O_CLOEXEC else 0)
      <==> flags in {0, O_NONBLOCK, O_CLOEXEC, O_NONBLOCK + O_CLOEXEC}
  {
  }

  lemma {:induction false} FlatEmpty(t: Tables, pid: nat)
    requires pid !in t
    ensures Flat(t[pid := map[]]) == Flat(t)
  {
    hide Flat;
  }

  lemma {:induction false} TakeNothing(v: View, id: nat)
    requires id in v.pipes && id in v.taken
    ensures Taken(v, id, 0) == v
  {
    var p, t := v.pipes[id], v.taken[id];
    assert p.data[0..] == p.data && t + p.data[..0] == t;
    assert v.pipes[id := p] == v.pipes && v.taken[id := t] == v.taken;
  }

  lemma {:induction false} DrainStep(d: seq<Byte>, t: seq<Byte>, n: nat)
    requires n < |d|
    ensures d[n..] == [d[n]] + d[n + 1..] && d[n..][1..] == d[n + 1..] && d[..n] + [d[n]] == d[..n + 1]
    ensures (t + d[..n]) + [d[n]] == t + d[..n + 1]
  {
  }

  lemma {:induction false} EnqueueStep(p: seq<Byte>, w: seq<Byte>, d: seq<Byte>, i: nat)
    requires i < |d|
    ensures (p + d[..i]) + [d[i]] == p + d[..i + 1] && (w + d[..i]) + [d[i]] == w + d[..i + 1]
  {
  }
}
