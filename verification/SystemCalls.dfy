/**
 A system call from the program's request to the server's new state.  The
 caller is looked up by POSIX pid in the list of the address space the call is
 made in, and the call is served there; what it does to that space is what
 the transition system of `AddressSpaces` says it does.
 */
module SystemCalls {
  import opened Options
  import opened Processes
  import opened Servers
  import D = Descriptors
  import A = AddressSpaces
  import Reg = DeviceRegistry
  import Search
  import opened SlashPaths
  import opened Terminals

  /** What a program asks for, with the answers met on the way.  Of a fork,
      `child` is the pid the kernel gives the child; `Other` stands for alloc,
      getcwd and unknown numbers, which change nothing. */
  datatype Request =
    | Exit(closes: nat -> bool)
    | Fork(copied: bool, gotTable: bool, copies: nat, side: ForkSide, child: int)
    | Exec(file: Option<string>, loading: LoadAnswers, gotTable: bool, copies: nat, gotCwd: bool, closes: nat -> bool)
    | ChDir(dir: string, gotMemory: bool)
    | Transfer(procFd: nat, io: D.Target -> int)
    | Open(path: string, opening: OpenAnswers)
    | Close(procFd: nat, ok: bool)
    | GetPid
    | Other

  /** The call of the transition system that a request of a process amounts to. */
  function Meant(a: About, request: Request): A.Call {
    match request
    case Fork(copied, gotTable, copies, side, child) =>
      if !copied || side.ForkFailed? then A.Unsuccessful else A.Fork(GotEnviron(a, gotTable, copies), child)
    case Exec(file, loading, gotTable, copies, gotCwd, closes) =>
      if !Loads(file, loading) then A.Unsuccessful
      else A.Exec(file.value, loading.localPath.value, GotEnviron(a, gotTable, copies), gotCwd, closes)
    case ChDir(dir, gotMemory) => A.ChDir(dir, gotMemory)
    case Open(path, opening) =>
      if "/dev/" <= path then A.OpenDevice(path[5..], opening.gotMemory)
      else A.OpenFile(Outcome(opening.local, opening.opening, opening.gotMemory, opening.closed))
    case Close(procFd, ok) => A.Close(procFd, ok)
    case _ => A.Unsuccessful
  }

  /** What the server expects of a caller and the kernel: a loaded process, a
      local descriptor in range, a path with a slash, a file not open already. */
  predicate Fair(sp: A.Space, p: nat, request: Request) {
    && p < |sp.abouts| == |sp.tables.fds|
    && sp.abouts[p].name.Some? && sp.abouts[p].path.Some? && sp.abouts[p].cwd.Some?
    && match request
       case Fork(_, _, _, side, child) => side.InChild? ==> side.self == child
       case Exec(_, loading, _, _, _, _) => loading.localPath.Some? ==> '/' in loading.localPath.value
       case Transfer(procFd, _) => procFd < |sp.tables.fds[p]|
       case Open(_, opening) => opening.opening.Some? ==> opening.opening.value !in sp.tables.kernelFds
       case Close(procFd, _) => procFd < |sp.tables.fds[p]|
       case _ => true
  }

  /** The memory of the server in one address space is that of `sp`. */
  ghost predicate Shows(server: Server, sp: A.Space)
    reads server, server.fdEntries, server.procs, server.devices, Environs(server.procs)
  {
    |sp.abouts| == |sp.tables.fds| && AboutsOf(server.procs) == sp.abouts && server.Tables() == sp.tables
  }

  /** The space after a request of process `p` was served, in the forked child's
      own copy if that is where the call returns. */
  function Served(sp: A.Space, p: nat, request: Request): A.Space
    requires Fair(sp, p, request)
  {
    var call := Meant(sp.abouts[p], request);
    if call.Fork? && request.side.InChild? then A.Child(sp, p, call.gotEnviron, call.pid)
    else A.Called(sp, p, call)
  }

  /** What the caller is answered, if the call answers anything. */
  ghost function Answer(sp: A.Space, p: nat, request: Request): Option<int>
    requires Fair(sp, p, request)
  {
    match request
    case Fork(copied, _, _, side, _) =>
      Some(if !copied || side.ForkFailed? then -1 else if side.InChild? then 0 else |sp.abouts|)
    case ChDir(_, gotMemory) => Some(if gotMemory then 0 else -1)
    case Transfer(procFd, io) =>
      var denoted := D.Denotes(sp.tables, p);
      Some(if procFd in denoted then io(denoted[procFd]) else -1)
    case Open(path, opening) =>
      var procFd := OpenedPath(sp.tables, p, path, opening).1;
      Some(if procFd.Some? then procFd.value else -1)
    case Close(procFd, ok) => Some(if D.Close(sp.tables, p, sp.tables.fds[p][procFd], ok).1 then 0 else -1)
    case GetPid => Some(p)
    case _ => None
  }

  method ServeFork(server: Server, ghost sp: A.Space, pid: nat, request: Request) returns (answer: Option<int>)
    requires server.Valid() && Shows(server, sp) && Fair(sp, pid, request) && request.Fork?
    modifies server`procs
    ensures server.Valid() && Shows(server, Served(sp, pid, request))
    ensures answer == Answer(sp, pid, request)
  {
    D.AddProcessKeepsInv(server.Tables());
    var ret := server.ProcessFork(pid, request.copied, request.gotTable, request.copies, request.side);
    answer := Some(ret);
  }

  lemma ExecServed(sp: A.Space, p: nat, request: Request)
    requires D.Inv(sp.tables) && Fair(sp, p, request) && request.Exec?
    ensures var a, tables := sp.abouts[p], D.Replace(sp.tables, p, request.closes);
      && D.Inv(tables)
      && Served(sp, p, request) ==
           if !Loads(request.file, request.loading) then sp
           else sp.(tables := tables, abouts := sp.abouts[p := ExecedAbout(a, request.file.value,
                  request.loading.localPath.value, GotEnviron(a, request.gotTable, request.copies), request.gotCwd)])
  {
    D.ReplaceKeepsInv(sp.tables, p, request.closes);
  }

  method ServeExec(server: Server, ghost sp: A.Space, pid: nat, request: Request, self: int)
    returns (answer: Option<int>)
    requires server.Valid() && Shows(server, sp) && Fair(sp, pid, request)
    requires request.Exec? && sp.abouts[pid].posixPID == self
    modifies server`procs, server`fdEntries, server`kernelFds, server.procs, server.fdEntries
    ensures server.Valid() && Shows(server, Served(sp, pid, request))
    ensures answer == Answer(sp, pid, request)
  {
    var curr := server.procs[pid];
    ExecServed(sp, pid, request);
    var _ := server.SyscallExec(curr, pid, request.file, request.loading, request.gotTable, request.copies,
                                request.gotCwd, self, request.closes);
    answer := None;
  }

  lemma OpenServed(sp: A.Space, p: nat, request: Request)
    requires Fair(sp, p, request) && request.Open?
    ensures var (s, procFd) := OpenedPath(sp.tables, p, request.path, request.opening);
      && Served(sp, p, request) == sp.(tables := s)
      && Answer(sp, p, request) == Some(if procFd.Some? then procFd.value else -1)
  {
  }

  method ServeOpen(server: Server, ghost sp: A.Space, pid: nat, request: Request) returns (answer: Option<int>)
    requires server.Valid() && Shows(server, sp) && Fair(sp, pid, request) && request.Open?
    modifies server`fdEntries, server`kernelFds, server.devices, server.procs
    ensures server.Valid() && Shows(server, Served(sp, pid, request))
    ensures answer == Answer(sp, pid, request)
  {
    OpenServed(sp, pid, request);
    var procFd := server.SyscallOpen(server.procs[pid], pid, request.path, request.opening);
    answer := Some(if procFd.Some? then procFd.value else -1);
  }

  lemma CloseServed(sp: A.Space, p: nat, request: Request)
    requires D.Inv(sp.tables) && Fair(sp, p, request) && request.Close?
    ensures var (s, closed) := D.Close(sp.tables, p, sp.tables.fds[p][request.procFd], request.ok);
      && D.Inv(s) && Served(sp, p, request) == sp.(tables := s)
      && Answer(sp, p, request) == Some(if closed then 0 else -1)
  {
    D.CloseKeepsInv(sp.tables, p, request.procFd, request.ok);
  }

  method ServeClose(server: Server, ghost sp: A.Space, pid: nat, request: Request) returns (answer: Option<int>)
    requires server.Valid() && Shows(server, sp) && Fair(sp, pid, request) && request.Close?
    modifies server`fdEntries, server`kernelFds, server.procs, server.fdEntries
    ensures server.Valid() && Shows(server, Served(sp, pid, request))
    ensures answer == Answer(sp, pid, request)
  {
    var curr := server.procs[pid];
    CloseServed(sp, pid, request);
    var closed := server.FdClose(curr, pid, curr.fds[request.procFd], request.ok);
    answer := Some(if closed then 0 else -1);
  }

  method ServeChDir(server: Server, ghost sp: A.Space, pid: nat, request: Request) returns (answer: Option<int>)
    requires server.Valid() && Shows(server, sp) && Fair(sp, pid, request) && request.ChDir?
    modifies server.procs
    ensures server.Valid() && Shows(server, Served(sp, pid, request))
    ensures answer == Answer(sp, pid, request)
  {
    var ok := server.SyscallChDir(server.procs[pid], pid, request.dir, request.gotMemory);
    answer := Some(if ok then 0 else -1);
  }

  /** Serve a request of process `pid`.  An exit closes what it had open, and
      the process does not return from it. */
  method Serve(server: Server, ghost sp: A.Space, pid: nat, request: Request, self: int) returns (answer: Option<int>)
    requires server.Valid() && Shows(server, sp) && Fair(sp, pid, request) && sp.abouts[pid].posixPID == self
    modifies server`procs, server`fdEntries, server`kernelFds, server.devices, server.procs, server.fdEntries
    ensures server.Valid()
    ensures if request.Exit? then server.Tables() == D.CloseAll(sp.tables, pid, request.closes)
            else Shows(server, Served(sp, pid, request))
    ensures answer == Answer(sp, pid, request)
  {
    match request {
      case Exit(closes) =>
        D.TeardownVisitsEverySlotOnce(server.Tables(), pid, 0, closes);
        server.ProcessFree(server.procs[pid], pid, closes);
        answer := None;
      case Fork(_, _, _, _, _) => answer := ServeFork(server, sp, pid, request);
      case Exec(_, _, _, _, _, _) => answer := ServeExec(server, sp, pid, request, self);
      case ChDir(_, _) => answer := ServeChDir(server, sp, pid, request);
      case Transfer(procFd, io) =>
        var ret := server.SyscallTransfer(pid, procFd, io);
        answer := Some(ret);
      case Open(_, _) => answer := ServeOpen(server, sp, pid, request);
      case Close(_, _) => answer := ServeClose(server, sp, pid, request);
      case GetPid => answer := Some(pid);
      case Other => answer := None;
    }
  }

  /** Find the caller and serve its request.  In an address space that has nobody
      on record under the pid, nothing happens. */
  method ServerSysCall(server: Server, ghost sp: A.Space, self: int, request: Request)
    returns (caller: Option<nat>, answer: Option<int>)
    requires server.Valid() && Shows(server, sp)
    requires var p := FirstWithPid(sp.abouts, self); p.Some? ==> Fair(sp, p.value, request)
    modifies server`procs, server`fdEntries, server`kernelFds, server.devices, server.procs, server.fdEntries
    ensures server.Valid() && caller == FirstWithPid(sp.abouts, self)
    ensures caller.None? ==> Shows(server, sp) && answer == None
    ensures caller.Some? ==>
      && answer == Answer(sp, caller.value, request)
      && if request.Exit? then server.Tables() == D.CloseAll(sp.tables, caller.value, request.closes)
         else Shows(server, Served(sp, caller.value, request))
  {
    caller := server.FindCaller(self);
    if caller.None? {
      return caller, None;
    }
    answer := Serve(server, sp, caller.value, request, self);
  }

  /** Serving a request is a step of the transition system: the step is enabled
      whenever the request is fair and the kernel gives a fork's child a pid no
      live process has, and it leads to the space the server then shows. */
  lemma ServedIsAStep(sys: A.System, caller: int, request: Request)
    requires A.Client(sys, caller) && sys.server in sys.spaces && A.Attributed(sys, caller).Some?
    requires Fair(sys.spaces[caller], A.Attributed(sys, caller).value, request) && !request.Exit?
    requires request.Fork? ==> request.child > 0 && request.child !in sys.spaces
    ensures var sp, p := sys.spaces[caller], A.Attributed(sys, caller).value;
      var step := A.Syscall(caller, Meant(sp.abouts[p], request));
      && A.Enabled(sys, step)
      && var inChild := step.call.Fork? && request.side.InChild?;
         A.Apply(sys, step).spaces[if inChild then request.child else caller] == Served(sp, p, request)
  {
  }

  // ---------- What requests do and are answered ----------

  /** A fork that fails changes nothing and is answered -1.  One that works is
      answered zero in the child, and in the parent a PID above zero: it is the last
      of the parent's children, the index of the child's own record in the child's
      copy, what the child is answered when it asks for its PID, and, unless the pid
      was on record before, where a call of the child is attributed. */
  lemma ForkIsAnswered(sp: A.Space, p: nat, fork: Request)
    requires fork.Fork? && fork.side == InParent && Fair(sp, p, fork)
    ensures var inChild := fork.(side := InChild(fork.child));
      var parent, child := Served(sp, p, fork), Served(sp, p, inChild);
      if !fork.copied then
        parent == child == sp && Answer(sp, p, fork) == Answer(sp, p, inChild) == Some(-1)
      else
        && Answer(sp, p, inChild) == Some(0)
        && parent.children != [] && child.self.Some? && parent.self == sp.self
        && var k := parent.children[|parent.children| - 1];
           && k > 0 && Answer(sp, p, fork) == Some(k)
           && child.self == Some(k) && |child.abouts| == |parent.abouts| == k + 1
           && child.abouts[k].posixPID == fork.child
           && (!A.Records(sp.abouts, fork.child) ==> FirstWithPid(child.abouts, fork.child) == Some(k))
           && (Fair(child, k, GetPid) ==> Answer(child, k, GetPid) == Some(k))
    ensures var failed := fork.(side := ForkFailed);
      Served(sp, p, failed) == sp && Answer(sp, p, failed) == Some(-1)
  {
    if fork.copied && !A.Records(sp.abouts, fork.child) {
      A.FirstIsOnly(Served(sp, p, fork.(side := InChild(fork.child))).abouts, |sp.abouts|, fork.child);
    }
  }

  /** A chdir sets the caller's directory and is answered zero, or fails. */
  lemma ChDirIsAnswered(sp: A.Space, p: nat, dir: string, gotMemory: bool)
    requires Fair(sp, p, ChDir(dir, gotMemory))
    ensures var after := Served(sp, p, ChDir(dir, gotMemory));
      && Answer(sp, p, ChDir(dir, gotMemory)) == Some(if gotMemory then 0 else -1)
      && after.tables == sp.tables && |after.abouts| == |sp.abouts|
      && after.abouts[p].cwd == (if gotMemory then Some(dir) else sp.abouts[p].cwd)
      && after.abouts[p].(cwd := None) == sp.abouts[p].(cwd := None)
      && forall q :: 0 <= q < |sp.abouts| && q != p ==> after.abouts[q] == sp.abouts[q]
  {
    A.ChDirMeans(sp, p, dir, gotMemory);
  }

  /** A close of a descriptor that stands for a device, or whose close the kernel
      grants, unbinds it and is answered zero; any other fails, changing nothing. */
  lemma CloseIsAnswered(sp: A.Space, p: nat, procFd: nat, ok: bool)
    requires D.Inv(sp.tables) && Fair(sp, p, Close(procFd, ok))
    ensures var after, denoted := Served(sp, p, Close(procFd, ok)), D.Denotes(sp.tables, p);
      && after.abouts == sp.abouts
      && if procFd in denoted && (denoted[procFd].Device? || ok)
         then D.Unbinds(sp.tables, p, procFd, after.tables) && Answer(sp, p, Close(procFd, ok)) == Some(0)
         else after == sp && Answer(sp, p, Close(procFd, ok)) == Some(-1)
  {
    D.CloseRefinesMap(sp.tables, p, procFd, ok, ok);
  }

  /** An open under /dev binds the caller's lowest free descriptor to the device of
      that name if there is one, any other to the file the kernel opened; without
      memory, device or file it fails, and no descriptor changes. */
  lemma OpenIsAnswered(sp: A.Space, p: nat, path: string, opening: OpenAnswers)
    requires D.Inv(sp.tables) && Fair(sp, p, Open(path, opening))
    ensures var after, denoted := Served(sp, p, Open(path, opening)), D.Denotes(sp.tables, p);
      var meaning, answer := Reg.Meaning(sp.tables.devices), Answer(sp, p, Open(path, opening));
      var device := "/dev/" <= path;
      var opens := opening.gotMemory && if device then path[5..] in meaning else opening.local && opening.opening.Some?;
      && after.abouts == sp.abouts && answer.Some? && (opens <==> answer.value >= 0) && answer.value >= -1
      && |after.tables.fds| == |sp.tables.fds|
      && (opens ==>
            && D.LowestFree(denoted, answer.value)
            && D.Denotes(after.tables, p) == denoted[answer.value :=
                 if device then D.Device(meaning[path[5..]].device) else D.File(opening.opening.value)])
      && (!opens ==> D.Denotes(after.tables, p) == denoted)
  {
    OpenedPathRefinesMap(sp.tables, p, path, opening);
    OpenServed(sp, p, Open(path, opening));
  }

  /** A read or write, asking for the PID, and requests without effect. */
  lemma OthersAreAnswered(sp: A.Space, p: nat, procFd: nat, io: D.Target -> int)
    requires Fair(sp, p, Transfer(procFd, io))
    ensures Served(sp, p, Transfer(procFd, io)) == Served(sp, p, GetPid) == Served(sp, p, Other) == sp
    ensures Answer(sp, p, GetPid) == Some(p)
    ensures var denoted := D.Denotes(sp.tables, p);
      && (procFd in denoted ==> Answer(sp, p, Transfer(procFd, io)) == Some(io(denoted[procFd])))
      && (procFd !in denoted ==> Answer(sp, p, Transfer(procFd, io)) == Some(-1))
  {
  }

  /** An exec replaces the caller by the program named if its path is absolute and
      every step of loading works, and otherwise changes nothing. */
  lemma ExecMeans(sp: A.Space, p: nat, exec: Request)
    requires D.Inv(sp.tables) && exec.Exec? && Fair(sp, p, exec)
    ensures var after, l := Served(sp, p, exec), exec.loading;
      if exec.file.Some? && exec.file.value != "" && exec.file.value[0] == '/'
         && l.localPath.Some? && l.gotCwd && l.linked && l.gotName && l.gotPath
      then
        && |after.abouts| == |sp.abouts| == |after.tables.fds|
        && (forall q: nat :: q < |sp.abouts| && q != p ==>
              after.abouts[q] == sp.abouts[q] && D.Denotes(after.tables, q) == D.Denotes(sp.tables, q))
        && var a, a' := sp.abouts[p], after.abouts[p];
           && a'.state == Running && a'.posixPID == a.posixPID
           && a'.path == l.localPath && a'.name.Some? && Search.IsBaseName(l.localPath.value, a'.name.value)
           && a'.cwd == (if exec.gotCwd then a.cwd else Some(DirName(exec.file.value)))
           && (a.environ.Some? && exec.gotTable && |a.environ.value| <= exec.copies ==> a'.environ == a.environ)
           && D.Denotes(after.tables, p) == map[]
      else after == sp
  {
    ExecServed(sp, p, exec);
    D.ReplaceRefinesMap(sp.tables, p, exec.closes);
  }

  // ---------- The server's own steps ----------

  /** A new server is the system's initial state. */
  method NewServer(ghost pid: int) returns (server: Server)
    ensures fresh(server) && server.Valid() && Shows(server, A.Initial(pid).spaces[pid])
  {
    server := new Server();
    NewServerIsExact(server);
  }

  /** A loaded program is listed under the next PID. */
  method ListProgram(server: Server, ghost sp: A.Space, proc: Process) returns (pid: Option<nat>)
    requires server.Valid() && Shows(server, sp) && proc !in server.procs && proc.fds == []
    modifies server`procs
    ensures server.Valid()
    ensures if proc.state == Loaded
            then pid == Some(|sp.abouts|) && Shows(server, A.Listed(sp, proc.GetAbout()))
            else pid == None && Shows(server, sp)
  {
    D.AddProcessKeepsInv(server.Tables());
    pid := server.ProcessAdd(proc);
  }

  /** A terminal is registered under the first free name. */
  method RegisterTty(server: Server, ghost sp: A.Space, device: Reg.DeviceId, gotMemory: bool)
    returns (k: nat, ok: bool)
    requires server.Valid() && Shows(server, sp)
    requires forall i :: 0 <= i < |server.devices.entries| ==> server.devices.entries[i].device != device
    modifies server.devices
    ensures server.Valid() && Shows(server, A.Registered(sp, Tty(k), device, gotMemory))
    ensures ok ==> Tty(k) !in Reg.Meaning(sp.tables.devices) && gotMemory
    ensures forall j :: 0 <= j < k ==> Tty(j) in Reg.Meaning(sp.tables.devices)
  {
    ghost var s := server.Tables();
    k, ok := server.AddTty(device, gotMemory);
    D.AddDeviceKeepsInv(s, Tty(k), Some(device), gotMemory);
  }

  /** A listed program is started: in the copy of the memory where its code will run
      it is marked, and nothing changes in the server's own. */
  method StartProgram(server: Server, ghost sp: A.Space, pid: nat, side: ForkSide, gotArgv: bool) returns (ok: bool)
    requires server.Valid() && Shows(server, sp) && 1 <= pid < |server.procs| && server.procs[pid].name.Some?
    modifies server.procs
    ensures server.Valid()
    ensures ok <==> gotArgv && sp.abouts[pid].state == Loaded && !side.ForkFailed?
    ensures Shows(server, if ok && side.InChild? then A.Started(sp, pid, side.self) else sp)
  {
    ok := server.ProcessRun(server.procs[pid], pid, side, gotArgv);
  }
}
