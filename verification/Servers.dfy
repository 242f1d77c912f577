/**
 The server object inside one address space: the process list, the table of
 open objects and the device registry, updated in place.  Every method is
 proved against the functions of `Descriptors`, through the abstraction
 `Tables()`; answers of the kernel and of malloc are parameters.
 */
module Servers {
  import opened Options
  import opened Processes
  import opened SlashPaths
  import opened Terminals
  import D = Descriptors
  import Reg = DeviceRegistry
  import Search

  class FdEntry {
    var fd: int
    var refCount: int
    var target: D.Target

    constructor (fd: int)
      ensures this.fd == fd && target == D.Unused
    {
      this.fd, target := fd, D.Unused;
      refCount := *; // malloc leaves the count unset
    }

    ghost function Value(): D.Entry
      reads this
    {
      D.Entry(fd, refCount, target)
    }
  }

  ghost function TableOf(es: seq<FdEntry?>): (t: D.Table)
    reads es
    ensures |t| == |es|
    ensures forall i :: 0 <= i < |es| ==> t[i] == if es[i] == null then None else Some(es[i].Value())
  {
    seq(|es|, i requires 0 <= i < |es| reads es => if es[i] == null then None else Some(es[i].Value()))
  }

  ghost function FdsOf(ps: seq<Process>): (fds: seq<seq<int>>)
    reads ps
    ensures |fds| == |ps|
    ensures forall i :: 0 <= i < |ps| ==> fds[i] == ps[i].fds
  {
    seq(|ps|, i requires 0 <= i < |ps| reads ps => ps[i].fds)
  }

  ghost function Environs(ps: seq<Process>): set<object?>
    reads ps
  {
    set p | p in ps :: p.environ
  }

  ghost function AboutsOf(ps: seq<Process>): (abouts: seq<About>)
    reads ps, Environs(ps)
    ensures |abouts| == |ps|
    ensures forall i :: 0 <= i < |ps| ==> abouts[i] == ps[i].GetAbout()
  {
    seq(|ps|, i requires 0 <= i < |ps| reads ps, Environs(ps) => ps[i].GetAbout())
  }

  ghost predicate Missing(es: seq<FdEntry?>, k: nat) {
    k >= |es| || es[k] == null
  }

  /** Entries were dropped, but none was made or moved. */
  ghost predicate OnlyCleared(was: seq<FdEntry?>, now: seq<FdEntry?>) {
    |now| == |was| && forall i :: 0 <= i < |now| ==> now[i] == null || now[i] == was[i]
  }

  ghost predicate Distinct(ps: seq<Process>) {
    forall i, j :: 0 <= i < j < |ps| ==> ps[i] != ps[j]
  }

  class Server {
    var fdEntries: seq<FdEntry?>
    var procs: seq<Process>
    const devices: Reg.Devices
    ghost var kernelFds: set<int>

    ghost function Tables(): D.Tables
      reads this`fdEntries, this`procs, this`kernelFds, fdEntries, procs, devices
    {
      D.Tables(TableOf(fdEntries), FdsOf(procs), devices.entries, kernelFds)
    }

    /** Each entry knows its own index (so no two indexes share one), has a
        positive count and stands for some object. */
    ghost predicate EntriesOwned()
      reads this`fdEntries, fdEntries
    {
      forall i :: 0 <= i < |fdEntries| && fdEntries[i] != null ==>
        fdEntries[i].fd == i && fdEntries[i].refCount > 0
    }

    ghost predicate AllUsed()
      reads this`fdEntries, fdEntries
    {
      forall i :: 0 <= i < |fdEntries| && fdEntries[i] != null ==> !fdEntries[i].target.Unused?
    }

    ghost predicate WellFormed()
      reads this`fdEntries, this`procs, fdEntries, devices
    {
      && EntriesOwned()
      && Distinct(procs)
      && devices.Valid()
    }

    ghost predicate Valid()
      reads this`fdEntries, this`procs, this`kernelFds, fdEntries, procs, devices
    {
      WellFormed() && D.Inv(Tables())
    }

    /** A new server has one dummy process, so that init gets PID 1. */
    constructor ()
      ensures WellFormed() && fdEntries == [] && kernelFds == {}
      ensures fresh(devices) && devices.entries == []
      ensures |procs| == 1 && fresh(procs[0]) && procs[0].fds == []
      ensures procs[0].GetAbout() == About(Blank, NO_PID, None, None, None, None)
    {
      var dummy := new Process();
      devices := new Reg.Devices();
      procs, fdEntries, kernelFds := [dummy], [], {};
    }

    method FdGet(fd: int) returns (e: FdEntry?)
      ensures e == if 0 <= fd < |fdEntries| then fdEntries[fd] else null
    {
      if 0 <= fd < |fdEntries| {
        e := fdEntries[fd];
      } else {
        e := null;
      }
    }

    /** Find or make an unused entry. */
    method FdCreate(gotMemory: bool) returns (r: Option<nat>)
      modifies this`fdEntries
      ensures r.None? <==> !gotMemory && Missing(old(fdEntries), D.FreeEntry(old(TableOf(fdEntries))))
      ensures r.None? ==> fdEntries == old(fdEntries)
      ensures r.Some? ==>
        && r.value == D.FreeEntry(old(TableOf(fdEntries)))
        && |fdEntries| == (if r.value < |old(fdEntries)| then |old(fdEntries)| else |old(fdEntries)| + 1)
        && forall i :: 0 <= i < |old(fdEntries)| && i != r.value ==> fdEntries[i] == old(fdEntries)[i]
      ensures r.Some? ==> var e := fdEntries[r.value];
        if Missing(old(fdEntries), r.value) then e != null && fresh(e) && e.fd == r.value && e.target == D.Unused
        else e == old(fdEntries)[r.value]
    {
      ghost var t := TableOf(fdEntries);
      for i := 0 to |fdEntries|
        invariant fdEntries == old(fdEntries) && TableOf(fdEntries) == t
        invariant forall j :: 0 <= j < i ==> !D.Vacant(t[j])
      {
        if fdEntries[i] == null {
          assert D.FreeEntry(t) == i;
          if !gotMemory {
            return None;
          }
          var e := new FdEntry(i);
          fdEntries := fdEntries[i := e];
        }
        if fdEntries[i].target.Unused? {
          return Some(i);
        }
      }
      if !gotMemory {
        return None;
      }
      r := Some(|fdEntries|);
      var e := new FdEntry(|fdEntries|);
      fdEntries := fdEntries + [e];
    }

    /** Take an entry and fill it in for one user. */
    method FdFill(target: D.Target, gotMemory: bool) returns (fd: Option<nat>)
      requires EntriesOwned() && AllUsed() && !target.Unused?
      modifies this`fdEntries
      ensures EntriesOwned() && AllUsed()
      ensures fd == if gotMemory then Some(D.FreeEntry(old(TableOf(fdEntries)))) else None
      ensures fd.Some? ==> fd.value < |fdEntries| && fdEntries[fd.value] != null
      ensures fd.Some? ==>
        TableOf(fdEntries) == D.WithEntry(old(TableOf(fdEntries)), fd.value, D.Entry(fd.value, 1, target))
      ensures fd.None? ==> TableOf(fdEntries) == old(TableOf(fdEntries))
    {
      ghost var t := TableOf(fdEntries);
      assert Missing(fdEntries, D.FreeEntry(t));
      fd := FdCreate(gotMemory);
      if fd.None? {
        return;
      }
      assert forall i :: 0 <= i < |t| && i != fd.value ==> TableOf(fdEntries)[i] == t[i];
      FillEntry(fd.value, target);
    }

    /** Give an entry to its first user. */
    method FillEntry(fd: nat, target: D.Target)
      requires fd < |fdEntries| && fdEntries[fd] != null && fdEntries[fd].fd == fd
      requires forall i :: 0 <= i < |fdEntries| && i != fd ==> fdEntries[i] != fdEntries[fd]
      modifies fdEntries[fd]
      ensures fdEntries[fd].Value() == D.Entry(fd, 1, target)
      ensures TableOf(fdEntries) == old(TableOf(fdEntries))[fd := Some(D.Entry(fd, 1, target))]
    {
      var entry := fdEntries[fd];
      entry.target := target;
      entry.refCount := 1;
    }

    /** The common end of the three opens: a filled entry is bound to a local
        slot of `proc`, the process with index `p`. */
    method Install(proc: Process, ghost p: nat, target: D.Target, gotMemory: bool) returns (procFd: Option<nat>)
      requires WellFormed() && AllUsed() && p < |procs| && procs[p] == proc && !target.Unused?
      modifies this`fdEntries, proc`fds
      ensures WellFormed() && AllUsed()
      ensures Tables() == if gotMemory then D.Install(old(Tables()), p, target) else old(Tables())
      ensures procFd == if gotMemory then Some(D.FirstSlot(old(proc.fds), -1)) else None
    {
      var fd := FdFill(target, gotMemory);
      if fd.None? {
        return None;
      }
      var entry := fdEntries[fd.value];
      var l := proc.FdAdd(entry.fd);
      procFd := Some(l);
      assert FdsOf(procs) == old(FdsOf(procs))[p := proc.fds];
    }

    method FdOpenSocket(proc: Process, ghost p: nat, socket: nat, gotMemory: bool) returns (procFd: Option<nat>)
      requires WellFormed() && AllUsed() && p < |procs| && procs[p] == proc
      modifies this`fdEntries, proc`fds
      ensures WellFormed() && AllUsed()
      ensures (Tables(), procFd) == D.OpenSocket(old(Tables()), p, socket, gotMemory)
    {
      procFd := Install(proc, p, D.Socket(socket), gotMemory);
    }

    /** `local` and `opening` are the answers for the local path and open(2), and
        `closed` that of the close(2) that undoes it when memory runs out. */
    method FdOpenFdFromFile(proc: Process, ghost p: nat, local: bool, opening: Option<int>,
                            gotMemory: bool, closed: bool)
      returns (procFd: Option<nat>)
      requires WellFormed() && AllUsed() && p < |procs| && procs[p] == proc
      modifies this`fdEntries, this`kernelFds, proc`fds
      ensures WellFormed() && AllUsed()
      ensures (Tables(), procFd) == D.OpenFile(old(Tables()), p, Outcome(local, opening, gotMemory, closed))
    {
      if !local || opening.None? {
        return None;
      }
      procFd := Install(proc, p, D.File(opening.value), gotMemory);
      if procFd.Some? || !closed {
        kernelFds := kernelFds + {opening.value};
      }
    }

    method FdOpenFdFromDevice(proc: Process, ghost p: nat, name: string, gotMemory: bool) returns (procFd: Option<nat>)
      requires WellFormed() && AllUsed() && p < |procs| && procs[p] == proc
      modifies this`fdEntries, devices, proc`fds
      ensures WellFormed() && AllUsed()
      ensures (Tables(), procFd) == D.OpenDevice(old(Tables()), p, name, gotMemory)
    {
      var device := devices.Open(name);
      if device.None? {
        return None;
      }
      procFd := Install(proc, p, D.Device(device.value), gotMemory);
    }

    /** Paths under /dev name devices, all others files. */
    method FdOpenFdFromPath(proc: Process, ghost p: nat, file: string, answers: OpenAnswers)
      returns (procFd: Option<nat>)
      requires WellFormed() && AllUsed() && p < |procs| && procs[p] == proc
      modifies this`fdEntries, this`kernelFds, devices, proc`fds
      ensures WellFormed() && AllUsed()
      ensures (Tables(), procFd) == OpenedPath(old(Tables()), p, file, answers)
    {
      if "/dev/" <= file {
        procFd := FdOpenFdFromDevice(proc, p, file[5..], answers.gotMemory);
      } else {
        procFd := FdOpenFdFromFile(proc, p, answers.local, answers.opening, answers.gotMemory, answers.closed);
      }
    }

    /** The server's half of a close: drop one use of an entry, closing its
        object on the last. */
    method FdRelease(fd: int, ok: bool) returns (released: bool)
      requires EntriesOwned()
      modifies this`fdEntries, this`kernelFds, fdEntries
      ensures EntriesOwned() && (old(AllUsed()) ==> AllUsed())
      ensures OnlyCleared(old(fdEntries), fdEntries)
      ensures (TableOf(fdEntries), kernelFds, released) == Released(old(TableOf(fdEntries)), old(kernelFds), fd, ok)
    {
      var entry := FdGet(fd);
      if entry == null {
        return false;
      }
      assert entry.refCount > 0; // the assertion in the program
      if entry.refCount <= 1 {
        match entry.target {
          case File(kernelFd) =>
            if !ok {
              return false;
            }
            kernelFds := kernelFds - {kernelFd};
          case Socket(_) =>
            if !ok {
              return false;
            }
          case Device(_) =>
          case Unused => return false;
        }
        ClearEntry(fd);
      } else {
        DropUse(fd);
      }
      released := true;
    }

    method ClearEntry(fd: nat)
      requires EntriesOwned() && fd < |fdEntries|
      modifies this`fdEntries
      ensures EntriesOwned() && (old(AllUsed()) ==> AllUsed())
      ensures fdEntries == old(fdEntries)[fd := null]
      ensures TableOf(fdEntries) == old(TableOf(fdEntries))[fd := None]
    {
      fdEntries := fdEntries[fd := null];
    }

    method DropUse(fd: nat)
      requires EntriesOwned() && fd < |fdEntries| && fdEntries[fd] != null && fdEntries[fd].refCount > 1
      modifies fdEntries[fd]
      ensures EntriesOwned() && (old(AllUsed()) ==> AllUsed())
      ensures var e := old(fdEntries[fd].Value());
        TableOf(fdEntries) == old(TableOf(fdEntries))[fd := Some(e.(refCount := e.refCount - 1))]
    {
      var entry := fdEntries[fd];
      entry.refCount := entry.refCount - 1;
    }

    method FdClose(proc: Process, ghost p: nat, fd: int, ok: bool) returns (closed: bool)
      requires WellFormed() && p < |procs| && procs[p] == proc
      modifies this`fdEntries, this`kernelFds, proc`fds, fdEntries
      ensures WellFormed() && (old(AllUsed()) ==> AllUsed())
      ensures (Tables(), closed) == D.Close(old(Tables()), p, fd, ok)
      ensures AboutsOf(procs) == old(AboutsOf(procs))
      ensures OnlyCleared(old(fdEntries), fdEntries)
    {
      CloseIsRelease(Tables(), p, fd, ok);
      closed := FdRelease(fd, ok);
      if closed {
        Unbind(proc, p, fd);
      }
    }

    method Unbind(proc: Process, ghost p: nat, fd: int)
      requires WellFormed() && p < |procs| && procs[p] == proc
      modifies proc`fds
      ensures WellFormed()
      ensures Tables() == old(Tables()).(fds := old(Tables()).fds[p := D.Unbound(old(proc.fds), fd)])
      ensures AboutsOf(procs) == old(AboutsOf(procs))
    {
      proc.FdRemove(fd);
      assert FdsOf(procs) == old(FdsOf(procs))[p := proc.fds];
    }

    /** Close what one slot holds, if it holds anything. */
    method FreeSlot(proc: Process, ghost p: nat, procFd: nat, ok: nat -> bool)
      requires WellFormed() && p < |procs| && procs[p] == proc && procFd < |proc.fds|
      modifies this`fdEntries, this`kernelFds, proc`fds, fdEntries
      ensures WellFormed() && (old(AllUsed()) ==> AllUsed())
      ensures |proc.fds| == |old(proc.fds)|
      ensures D.CloseFrom(Tables(), p, procFd + 1, ok) == old(D.CloseFrom(Tables(), p, procFd, ok))
      ensures OnlyCleared(old(fdEntries), fdEntries)
    {
      var serverFd := proc.fds[procFd];
      if serverFd != -1 {
        var _ := FdClose(proc, p, serverFd, ok(procFd));
      }
    }

    /** Close every descriptor of a process, walking the very table that each
        close shortens the life of. */
    method ProcessFree(proc: Process, ghost p: nat, ok: nat -> bool)
      requires WellFormed() && p < |procs| && procs[p] == proc
      modifies this`fdEntries, this`kernelFds, proc`fds, fdEntries
      ensures WellFormed() && (old(AllUsed()) ==> AllUsed())
      ensures Tables() == D.CloseAll(old(Tables()), p, ok)
    {
      var procFd := 0;
      while procFd < |proc.fds|
        invariant WellFormed() && (old(AllUsed()) ==> AllUsed())
        invariant procFd <= |proc.fds|
        invariant |proc.fds| == |old(proc.fds)|
        invariant D.CloseFrom(Tables(), p, procFd, ok) == D.CloseAll(old(Tables()), p, ok)
        invariant OnlyCleared(old(fdEntries), fdEntries)
        decreases |old(proc.fds)| - procFd
      {
        FreeSlot(proc, p, procFd, ok);
        procFd := procFd + 1;
      }
    }

    /** Register a terminal under the first free name among tty0 to tty1023; if
        all are taken the last one is tried, in vain. */
    method AddTty(device: Reg.DeviceId, gotMemory: bool) returns (k: nat, ok: bool)
      requires devices.Valid()
      modifies devices
      ensures k < TTYS && forall j :: 0 <= j < k ==> Tty(j) in Reg.Meaning(old(devices.entries))
      ensures Tty(k) in Reg.Meaning(old(devices.entries)) ==> k == TTYS - 1
      ensures devices.Valid()
      ensures (devices.entries, ok) == Reg.Added(old(devices.entries), Tty(k), Some(device), gotMemory)
      ensures ok <==> gotMemory && Tty(k) !in Reg.Meaning(old(devices.entries))
    {
      k := 0;
      for i := 0 to TTYS
        invariant k == if i == 0 then 0 else i - 1
        invariant devices.Valid() && devices.entries == old(devices.entries)
        invariant forall j :: 0 <= j < i ==> Tty(j) in Reg.Meaning(devices.entries)
      {
        k := i;
        var taken := devices.Exists(Tty(i));
        if !taken {
          break;
        }
      }
      Reg.AddRefinesMap(devices.entries, Tty(k), Some(device), gotMemory);
      ok := devices.Add(Tty(k), Some(device), gotMemory);
    }

    // ---------- System calls on descriptors ----------

    /** `io` is the answer of reading from (or writing to) each object. */
    method FdTransfer(fd: int, io: D.Target -> int) returns (r: int)
      ensures var e := D.Lookup(TableOf(fdEntries), fd);
        r == if e.None? || e.value.target.Unused? then -1 else io(e.value.target)
    {
      var entry := FdGet(fd);
      if entry == null || entry.target.Unused? {
        return -1;
      }
      r := io(entry.target);
    }

    method SyscallTransfer(pid: nat, procFd: nat, io: D.Target -> int) returns (r: int)
      requires WellFormed() && AllUsed() && pid < |procs| && procFd < |procs[pid].fds|
      ensures var denoted := D.Denotes(Tables(), pid);
        r == if procFd in denoted then io(denoted[procFd]) else -1
    {
      r := FdTransfer(procs[pid].fds[procFd], io);
    }

    /** Close unbinds the one descriptor if its object closes, and changes
        nothing else; closing it again fails and changes nothing at all. */
    method SyscallClose(curr: Process, ghost pid: nat, procFd: nat, ok: bool) returns (closed: bool)
      requires Valid() && pid < |procs| && procs[pid] == curr && procFd < |curr.fds|
      modifies this`fdEntries, this`kernelFds, curr`fds, fdEntries
      ensures Valid() && |curr.fds| == |old(curr.fds)| && procs == old(procs)
      ensures (Tables(), closed) == D.Close(old(Tables()), pid, old(curr.fds[procFd]), ok)
      ensures var denoted := D.Denotes(old(Tables()), pid);
        closed == (procFd in denoted && (denoted[procFd].Device? || ok))
      ensures !closed ==> Tables() == old(Tables())
      ensures closed ==> D.Unbinds(old(Tables()), pid, procFd, Tables())
      ensures closed ==> D.Close(Tables(), pid, curr.fds[procFd], true) == (Tables(), false)
    {
      D.CloseKeepsInv(Tables(), pid, procFd, ok);
      D.CloseRefinesMap(Tables(), pid, procFd, ok, true);
      closed := FdClose(curr, pid, curr.fds[procFd], ok);
    }

    /** Open binds the caller's lowest free descriptor to the named device or to
        a file nobody had open, or nothing; no other descriptor changes. */
    method SyscallOpen(curr: Process, ghost pid: nat, file: string, answers: OpenAnswers) returns (procFd: Option<nat>)
      requires Valid() && pid < |procs| && procs[pid] == curr
      requires answers.opening.Some? ==> answers.opening.value !in kernelFds
      modifies this`fdEntries, this`kernelFds, devices, curr`fds
      ensures Valid() && (Tables(), procFd) == OpenedPath(old(Tables()), pid, file, answers)
      ensures AboutsOf(procs) == old(AboutsOf(procs))
      ensures var meaning := Reg.Meaning(old(devices.entries));
        if "/dev/" <= file
        then
          && (procFd.Some? <==> file[5..] in meaning && answers.gotMemory)
          && D.Binds(old(Tables()), pid, procFd,
                     if procFd.Some? then D.Device(meaning[file[5..]].device) else D.Unused, Tables())
        else
          && (procFd.Some? <==> answers.local && answers.opening.Some? && answers.gotMemory)
          && D.Binds(old(Tables()), pid, procFd,
                     if procFd.Some? then D.File(answers.opening.value) else D.Unused, Tables())
    {
      OpenedPathRefinesMap(Tables(), pid, file, answers);
      procFd := FdOpenFdFromPath(curr, pid, file, answers);
      SameAbouts(procs);
    }

    // ---------- Processes ----------

    /** The index of the process a system call came from, given getpid(). */
    method FindCaller(self: int) returns (r: Option<nat>)
      ensures r == FirstWithPid(AboutsOf(procs), self)
    {
      for i := 0 to |procs|
        invariant forall j :: 0 <= j < i ==> procs[j].posixPID != self
      {
        if procs[i].posixPID == self {
          return Some(i);
        }
      }
      r := None;
    }

    method PushProcess(proc: Process)
      requires WellFormed() && proc !in procs && proc.fds == []
      modifies this`procs
      ensures WellFormed() && procs == old(procs) + [proc]
      ensures Tables() == D.AddProcess(old(Tables()))
      ensures AboutsOf(procs) == old(AboutsOf(procs)) + [proc.GetAbout()]
    {
      procs := procs + [proc];
    }

    method ProcessAdd(proc: Process) returns (pid: Option<nat>)
      requires WellFormed() && proc !in procs && proc.fds == []
      modifies this`procs
      ensures WellFormed()
      ensures proc.state != Loaded ==> pid == None && procs == old(procs)
      ensures proc.state == Loaded ==>
        && pid == Some(|old(procs)|) && procs == old(procs) + [proc]
        && Tables() == D.AddProcess(old(Tables())) && AboutsOf(procs) == old(AboutsOf(procs)) + [proc.GetAbout()]
    {
      if proc.state != Loaded {
        return None;
      }
      pid := Some(|procs|);
      PushProcess(proc);
    }

    method SetPosixPID(proc: Process, ghost pid: nat, self: int)
      requires WellFormed() && pid < |procs| && procs[pid] == proc
      modifies proc`posixPID
      ensures WellFormed() && Tables() == old(Tables())
      ensures AboutsOf(procs) == old(AboutsOf(procs))[pid := old(proc.GetAbout()).(posixPID := self)]
    {
      proc.SetPosixPID(self);
    }

    method SyscallChDir(curr: Process, ghost pid: nat, dir: string, gotMemory: bool) returns (ok: bool)
      requires WellFormed() && pid < |procs| && procs[pid] == curr
      modifies curr`cwd
      ensures WellFormed() && Tables() == old(Tables()) && ok == gotMemory
      ensures AboutsOf(procs) == old(AboutsOf(procs))[pid := MovedAbout(old(curr.GetAbout()), dir, gotMemory)]
    {
      ok := curr.SetCwd(dir, gotMemory);
    }

    method ProcessRun(proc: Process, ghost pid: nat, side: ForkSide, gotArgv: bool) returns (ok: bool)
      requires WellFormed() && 1 <= pid < |procs| && procs[pid] == proc && proc.name.Some?
      modifies proc`state, proc`posixPID
      ensures WellFormed() && Tables() == old(Tables())
      ensures ok <==> gotArgv && old(proc.state) == Loaded && !side.ForkFailed?
      ensures AboutsOf(procs) == if ok && side.InChild?
        then old(AboutsOf(procs))[pid := old(proc.GetAbout()).(state := Running, posixPID := side.self)]
        else old(AboutsOf(procs))
    {
      ok := proc.Vrun(true, side, if side.InChild? then side.self else NO_PID, gotArgv);
    }

    /** Copy the parent, record the copy, fork; on failure the copy is dropped. */
    method ProcessFork(parentPID: nat, copied: bool, gotTable: bool, copies: nat, side: ForkSide) returns (ret: int)
      requires WellFormed() && parentPID < |procs|
      requires var a := procs[parentPID].GetAbout(); a.name.Some? && a.path.Some? && a.cwd.Some?
      modifies this`procs
      ensures WellFormed()
      ensures !copied || side.ForkFailed? ==> ret == -1 && procs == old(procs)
      ensures copied && !side.ForkFailed? ==>
        && |procs| == |old(procs)| + 1 && procs[..|old(procs)|] == old(procs) && fresh(procs[|old(procs)|])
        && ret == (if side.InChild? then 0 else |old(procs)|)
        && Tables() == D.AddProcess(old(Tables()))
      ensures copied && !side.ForkFailed? ==>
        AboutsOf(procs) == old(AboutsOf(procs))
          + [ChildAbout(old(procs[parentPID].GetAbout()), gotTable, copies, side)]
    {
      var child := procs[parentPID].ForkCopy(copied, gotTable, copies);
      if child == null {
        return -1;
      }
      ret := ForkInto(child, side);
    }

    /** Record the copy of the forking process and fork; on failure the record is
        dropped again. */
    method ForkInto(child: Process, side: ForkSide) returns (ret: int)
      requires WellFormed() && child !in procs && child.fds == []
      modifies this`procs, child`posixPID
      ensures WellFormed()
      ensures side.ForkFailed? ==> ret == -1 && procs == old(procs)
      ensures !side.ForkFailed? ==>
        && procs == old(procs) + [child] && ret == (if side.InChild? then 0 else |old(procs)|)
        && Tables() == D.AddProcess(old(Tables()))
        && AboutsOf(procs) == old(AboutsOf(procs))
             + [if side.InChild? then old(child.GetAbout()).(posixPID := side.self) else old(child.GetAbout())]
    {
      var childPID := |procs|;
      PushProcess(child);
      if side.ForkFailed? {
        procs := procs[..|procs| - 1];
        return -1;
      }
      if side.InChild? {
        SetPosixPID(child, childPID, side.self);
        return 0;
      }
      ret := childPID;
    }

    /** Exec's new process: loaded, and given the caller's environment and
        working directory as far as memory lasts. */
    method PrepareExec(curr: Process, file: Option<string>, answers: LoadAnswers,
                       gotTable: bool, copies: nat, gotCwd: bool)
      returns (newProc: Process?)
      requires curr.cwd.Some?
      requires answers.localPath.Some? ==> '/' in answers.localPath.value
      ensures newProc != null <==> Loads(file, answers)
      ensures newProc != null ==>
        && fresh(newProc) && newProc.fds == [] && (newProc.environ != null ==> fresh(newProc.environ))
        && newProc.GetAbout() == ExecedAbout(curr.GetAbout(), file.value, answers.localPath.value,
             GotEnviron(curr.GetAbout(), gotTable, copies), gotCwd)
           .(state := Loaded, posixPID := NO_PID)
    {
      var blank := new Process();
      var loaded := blank.LoadFileFS(file, answers);
      if !loaded {
        return null;
      }
      Search.OneBaseName(blank.path.value, blank.name.value, Search.BaseName(blank.path.value));
      var _ := blank.SetEnviron(curr.environ, gotTable, copies);
      var _ := blank.SetCwd(curr.cwd.value, gotCwd);
      newProc := blank;
    }

    /** Put a loaded process in the place of process `pid`, and run it there. */
    method RunInPlace(pid: nat, newProc: Process, self: int)
      requires WellFormed() && pid < |procs| && newProc !in procs && newProc.fds == [] && newProc.state == Loaded
      modifies this`procs, newProc`state, newProc`posixPID
      ensures WellFormed() && (old(AllUsed()) ==> AllUsed()) && procs == old(procs)[pid := newProc]
      ensures Tables() == old(Tables()).(fds := old(Tables()).fds[pid := []])
      ensures AboutsOf(procs) ==
        old(AboutsOf(procs))[pid := old(newProc.GetAbout()).(state := Running, posixPID := self)]
    {
      procs := procs[pid := newProc];
      var _ := newProc.Arun(false, InParent, self);
      assert FdsOf(procs) == old(FdsOf(procs))[pid := []];
    }

    /** Tear process `pid` down and run a loaded one in its place. */
    method SwapProcess(curr: Process, pid: nat, newProc: Process, self: int, ok: nat -> bool)
      requires WellFormed() && AllUsed() && pid < |procs| && procs[pid] == curr
      requires newProc !in procs && newProc.fds == [] && newProc.state == Loaded
      modifies this`procs, this`fdEntries, this`kernelFds, curr`fds, fdEntries, newProc`state, newProc`posixPID
      ensures WellFormed() && AllUsed() && procs == old(procs)[pid := newProc]
      ensures Tables() == D.Replace(old(Tables()), pid, ok)
      ensures AboutsOf(procs) ==
        old(AboutsOf(procs))[pid := old(newProc.GetAbout()).(state := Running, posixPID := self)]
    {
      ProcessFree(curr, pid, ok);
      SameAbouts(procs);
      RunInPlace(pid, newProc, self);
    }

    /** Replace the program of process `pid`, if the new one loads. */
    method SyscallExec(curr: Process, pid: nat, file: Option<string>, answers: LoadAnswers,
                       gotTable: bool, copies: nat, gotCwd: bool, self: int, ok: nat -> bool)
      returns (replaced: bool)
      requires WellFormed() && AllUsed() && pid < |procs| && procs[pid] == curr && curr.cwd.Some?
      requires answers.localPath.Some? ==> '/' in answers.localPath.value
      requires curr.posixPID == self
      modifies this`procs, this`fdEntries, this`kernelFds, curr`fds, fdEntries
      ensures WellFormed() && AllUsed()
      ensures replaced <==>
        && file.Some? && Absolute(file.value)
        && answers.localPath.Some? && answers.gotCwd && answers.linked && answers.gotName && answers.gotPath
      ensures !replaced ==> procs == old(procs) && Tables() == old(Tables())
      ensures replaced ==>
        && |procs| == |old(procs)| && procs == old(procs)[pid := procs[pid]] && fresh(procs[pid])
        && (procs[pid].environ != null ==> fresh(procs[pid].environ))
      ensures replaced ==>
        var a := old(curr.GetAbout());
        AboutsOf(procs) == old(AboutsOf(procs))[pid :=
          ExecedAbout(a, file.value, answers.localPath.value, GotEnviron(a, gotTable, copies), gotCwd)]
      ensures replaced ==> Tables() == D.Replace(old(Tables()), pid, ok)
    {
      var newProc := PrepareExec(curr, file, answers, gotTable, copies, gotCwd);
      if newProc == null {
        return false;
      }
      assert Tables() == old(Tables()) && AboutsOf(procs) == old(AboutsOf(procs));
      SwapProcess(curr, pid, newProc, self, ok);
      replaced := true;
    }
  }

  /** The server's part of a close, on its table and the kernel's descriptors. */
  function Released(t: D.Table, kernelFds: set<int>, fd: int, ok: bool): (D.Table, set<int>, bool) {
    match D.Lookup(t, fd)
    case None => (t, kernelFds, false)
    case Some(e) =>
      if e.refCount > 1 then (t[fd := Some(e.(refCount := e.refCount - 1))], kernelFds, true)
      else if !D.ObjectCloses(e.target, ok) then (t, kernelFds, false)
      else (t[fd := None], D.KernelAfterClose(kernelFds, e.target), true)
  }

  lemma CloseIsRelease(s: D.Tables, p: nat, fd: int, ok: bool)
    requires p < |s.fds|
    ensures var (t, kernelFds, released) := Released(s.table, s.kernelFds, fd, ok);
      D.Close(s, p, fd, ok) ==
        (if released then s.(table := t, kernelFds := kernelFds, fds := s.fds[p := D.Unbound(s.fds[p], fd)]) else s,
         released)
  {
  }

  /** Only local descriptors changed, so that all that is recorded otherwise stays. */
  twostate lemma SameAbouts(ps: seq<Process>)
    requires forall p :: p in ps ==>
      && unchanged(p`state, p`posixPID, p`name, p`path, p`environ, p`cwd)
      && (p.environ != null ==> unchanged(p.environ))
    ensures AboutsOf(ps) == old(AboutsOf(ps))
  {
    forall i | 0 <= i < |ps| ensures ps[i].GetAbout() == old(ps[i].GetAbout()) {
      var p := ps[i];
      assert p in ps;
      if p.environ != null {
        assert p.environ[..] == old(p.environ[..]);
      }
    }
  }

  /** There was memory to copy all of the environment. */
  predicate GotEnviron(a: About, gotTable: bool, copies: nat) {
    a.environ.None? || (gotTable && |a.environ.value| <= copies)
  }

  /** The child of a fork as one of the two sides records it. */
  function ChildAbout(parent: About, gotTable: bool, copies: nat, side: ForkSide): About {
    var a := ForkedAbout(parent, GotEnviron(parent, gotTable, copies));
    if side.InChild? then a.(posixPID := side.self) else a
  }

  /** The kernel's answers to opening a path: whether there is a local path, what
      open(2) gives, whether memory lasts, and whether undoing the open works. */
  datatype OpenAnswers = OpenAnswers(local: bool, opening: Option<int>, gotMemory: bool, closed: bool)

  function OpenedPath(s: D.Tables, p: nat, file: string, answers: OpenAnswers): (D.Tables, Option<nat>)
    requires p < |s.fds|
  {
    if "/dev/" <= file then D.OpenDevice(s, p, file[5..], answers.gotMemory)
    else D.OpenFile(s, p, Outcome(answers.local, answers.opening, answers.gotMemory, answers.closed))
  }

  lemma OpenedPathRefinesMap(s: D.Tables, p: nat, file: string, answers: OpenAnswers)
    requires D.Inv(s) && p < |s.fds|
    requires answers.opening.Some? ==> answers.opening.value !in s.kernelFds
    ensures var (s', procFd) := OpenedPath(s, p, file, answers);
      && D.Inv(s')
      && if "/dev/" <= file
         then
           var meaning := Reg.Meaning(s.devices);
           && (procFd.Some? <==> file[5..] in meaning && answers.gotMemory)
           && D.Binds(s, p, procFd, if procFd.Some? then D.Device(meaning[file[5..]].device) else D.Unused, s')
         else
           && (procFd.Some? <==> answers.local && answers.opening.Some? && answers.gotMemory)
           && D.Binds(s, p, procFd, if procFd.Some? then D.File(answers.opening.value) else D.Unused, s')
  {
    if "/dev/" <= file {
      D.OpenDeviceKeepsInv(s, p, file[5..], answers.gotMemory);
      D.OpenDeviceRefinesMap(s, p, file[5..], answers.gotMemory);
    } else {
      var outcome := Outcome(answers.local, answers.opening, answers.gotMemory, answers.closed);
      D.OpenFileKeepsInv(s, p, outcome);
      D.OpenFileRefinesMap(s, p, outcome);
    }
  }

  function Outcome(local: bool, opening: Option<int>, gotMemory: bool, closed: bool): D.OpenOutcome {
    if !local || opening.None? then D.OpenFailed
    else if gotMemory then D.Got(opening.value)
    else D.NoMemory(opening.value, closed)
  }

  lemma NewServerIsExact(s: Server)
    requires s.WellFormed() && s.fdEntries == [] && s.kernelFds == {} && s.devices.entries == []
    requires |s.procs| == 1 && s.procs[0].fds == []
    ensures s.Valid() && D.Exact(s.Tables())
  {
  }
}
