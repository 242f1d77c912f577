/**
 The whole system: one server, and a tree of forked copies of its memory in
 which the clients run.  Each address space has its own process list and its
 own descriptor tables; a system call finds its caller by scanning the list
 of the space it is made in for the space's POSIX pid.

 A step carries every answer of the kernel, so that a run is a list of steps.
 The functions used here on process lists and tables are those that the
 methods of `Servers` are proved against.
 */
module AddressSpaces {
  import opened Options
  import opened Processes
  import D = Descriptors
  import Reg = DeviceRegistry
  import Search
  import opened SlashPaths

  /** `self` is the process whose code runs here (none in the server's own
      space); `lineage` lists the PIDs it and its ancestors were forked under,
      and `children` the PIDs its successful forks returned. */
  datatype Space = Space(
    self: Option<nat>,
    abouts: seq<About>,
    tables: D.Tables,
    lineage: seq<nat>,
    children: seq<nat>)

  datatype System = System(server: int, spaces: map<int, Space>)

  /** A system call with the answers it meets. `Unsuccessful` stands for a fork
      or exec that failed, and for calls that change nothing here.  Of an exec,
      `file` is the path that names the program, `path` the local one it is loaded
      from, and `gotCwd` whether there was memory to keep the old directory. */
  datatype Call =
    | Fork(gotEnviron: bool, pid: int)
    | Exec(file: string, path: string, gotEnviron: bool, gotCwd: bool, closes: nat -> bool)
    | OpenFile(outcome: D.OpenOutcome)
    | OpenDevice(device: string, gotMemory: bool)
    | Close(procFd: nat, ok: bool)
    | ChDir(dir: string, gotMemory: bool)
    | Unsuccessful

  datatype Step =
    | Add(about: About)
    | Register(name: string, device: Reg.DeviceId, gotMemory: bool)
    | Run(index: nat, pid: int)
    | Syscall(caller: int, call: Call)
    | Exit(caller: int)

  // ---------- Effect of a step on the space it is made in ----------

  function Listed(sp: Space, about: About): Space {
    sp.(abouts := sp.abouts + [about], tables := D.AddProcess(sp.tables))
  }

  function Registered(sp: Space, name: string, device: Reg.DeviceId, gotMemory: bool): Space {
    sp.(tables := sp.tables.(devices := Reg.Added(sp.tables.devices, name, Some(device), gotMemory).0))
  }

  function Started(sp: Space, index: nat, pid: int): Space
    requires index < |sp.abouts|
  {
    sp.(self := Some(index),
        abouts := sp.abouts[index := sp.abouts[index].(state := Running, posixPID := pid)],
        lineage := [index], children := [])
  }

  /** What the parent's memory holds after a successful fork. */
  function Parent(sp: Space, p: nat, gotEnviron: bool): Space
    requires p < |sp.abouts|
  {
    sp.(abouts := sp.abouts + [ForkedAbout(sp.abouts[p], gotEnviron)],
        tables := D.AddProcess(sp.tables),
        children := sp.children + [|sp.abouts|])
  }

  /** What the child's copy of that memory holds once the child has marked itself. */
  function Child(sp: Space, p: nat, gotEnviron: bool, pid: int): Space
    requires p < |sp.abouts|
  {
    var n := |sp.abouts|;
    sp.(self := Some(n),
        abouts := sp.abouts + [ForkedAbout(sp.abouts[p], gotEnviron).(posixPID := pid)],
        tables := D.AddProcess(sp.tables),
        lineage := sp.lineage + [n], children := [])
  }

  /** The caller's space after a call attributed to the process at index `p`. */
  function Called(sp: Space, p: nat, call: Call): Space
    requires p < |sp.abouts| && p < |sp.tables.fds|
    requires call.Close? ==> call.procFd < |sp.tables.fds[p]|
  {
    var s := sp.tables;
    match call
    case Fork(gotEnviron, _) => Parent(sp, p, gotEnviron)
    case Exec(file, path, gotEnviron, gotCwd, closes) =>
      sp.(abouts := sp.abouts[p := ExecedAbout(sp.abouts[p], file, path, gotEnviron, gotCwd)],
          tables := D.Replace(s, p, closes))
    case OpenFile(outcome) => sp.(tables := D.OpenFile(s, p, outcome).0)
    case OpenDevice(device, gotMemory) => sp.(tables := D.OpenDevice(s, p, device, gotMemory).0)
    case Close(procFd, ok) => sp.(tables := D.Close(s, p, s.fds[p][procFd], ok).0)
    case ChDir(dir, gotMemory) =>
      sp.(abouts := sp.abouts[p := MovedAbout(sp.abouts[p], dir, gotMemory)])
    case Unsuccessful => sp
  }

  // ---------- Steps of the system ----------

  /** The process a system call made in the space of `pid` is attributed to. */
  function Attributed(sys: System, pid: int): Option<nat>
    requires pid in sys.spaces
  {
    FirstWithPid(sys.spaces[pid].abouts, pid)
  }

  predicate Client(sys: System, pid: int) {
    pid in sys.spaces && pid != sys.server
  }

  /** A process that has been loaded knows its name, path and directory. */
  predicate Complete(a: About) {
    a.state != Blank ==> a.name.Some? && a.path.Some? && a.cwd.Some?
  }

  /** Which steps the kernel and the program allow.  The kernel hands out a
      positive pid that no live process has. */
  ghost predicate Enabled(sys: System, step: Step) {
    && sys.server in sys.spaces
    && var root := sys.spaces[sys.server];
    match step
    case Add(about) => about.state == Loaded && about.posixPID == NO_PID && Complete(about)
    case Register(_, device, _) =>
      forall i :: 0 <= i < |root.tables.devices| ==> root.tables.devices[i].device != device
    case Run(index, pid) =>
      1 <= index < |root.abouts| && root.abouts[index].state == Loaded && pid > 0 && pid !in sys.spaces
    case Exit(caller) => Client(sys, caller)
    case Syscall(caller, call) =>
      && Client(sys, caller) && Attributed(sys, caller).Some?
      && CanCall(sys, sys.spaces[caller].tables, Attributed(sys, caller).value, call)
  }

  ghost predicate CanCall(sys: System, s: D.Tables, p: nat, call: Call) {
    && p < |s.fds|
    && match call
       case Fork(_, pid) => pid > 0 && pid !in sys.spaces
       case OpenFile(outcome) => outcome.OpenFailed? || outcome.kernelFd !in s.kernelFds
       case Close(procFd, _) => procFd < |s.fds[p]|
       case Exec(file, path, _, _, _) => Absolute(file) && '/' in path
       case _ => true
  }

  ghost function Apply(sys: System, step: Step): System
    requires Enabled(sys, step)
  {
    var root := sys.spaces[sys.server];
    match step
    case Add(about) =>
      With(sys, sys.server, Listed(root, about))
    case Register(name, device, gotMemory) =>
      With(sys, sys.server, Registered(root, name, device, gotMemory))
    case Run(index, pid) => With(sys, pid, Started(root, index, pid))
    case Exit(caller) => sys.(spaces := sys.spaces - {caller})
    case Syscall(caller, call) =>
      var sp, p := sys.spaces[caller], Attributed(sys, caller).value;
      var sys' := With(sys, caller, Called(sp, p, call));
      if call.Fork? then With(sys', call.pid, Child(sp, p, call.gotEnviron, call.pid)) else sys'
  }

  ghost function With(sys: System, pid: int, sp: Space): System {
    sys.(spaces := sys.spaces[pid := sp])
  }

  /** The state in which a server starts. */
  function Initial(server: int): System {
    var root := Space(None, [About(Blank, NO_PID, None, None, None, None)], D.Tables([], [[]], [], {}), [], []);
    System(server, map[server := root])
  }

  ghost predicate Allowed(sys: System, steps: seq<Step>)
    decreases |steps|, 0
  {
    steps == [] ||
    (Allowed(sys, steps[..|steps| - 1]) && Enabled(After(sys, steps[..|steps| - 1]), steps[|steps| - 1]))
  }

  ghost function After(sys: System, steps: seq<Step>): System
    requires Allowed(sys, steps)
    decreases |steps|, 1
  {
    if steps == [] then sys
    else Apply(After(sys, steps[..|steps| - 1]), steps[|steps| - 1])
  }

  // ---------- Invariant ----------

  predicate Increasing(s: seq<nat>) {
    forall i, j :: 0 <= i < j < |s| ==> s[i] < s[j]
  }

  /** Exactly one index of the list carries `pid`. */
  ghost predicate OnlyOneWithPid(abouts: seq<About>, k: nat, pid: int) {
    && k < |abouts| && abouts[k].posixPID == pid
    && forall i :: 0 <= i < |abouts| && i != k ==> abouts[i].posixPID != pid
  }

  /** The client's PID exceeds those of all its ancestors, and the PIDs its own
      forks returned are all different, greater than its own, and indexes. */
  ghost predicate PidsOrdered(sp: Space) {
    && sp.self.Some? && sp.self.value < |sp.abouts|
    && |sp.lineage| > 0 && sp.lineage[|sp.lineage| - 1] == sp.self.value
    && Increasing(sp.lineage) && Increasing(sp.children)
    && forall i :: 0 <= i < |sp.children| ==> sp.self.value < sp.children[i] < |sp.abouts|
  }

  ghost predicate Good(sp: Space) {
    SoundTables(sp) && forall i :: 0 <= i < |sp.abouts| ==> Complete(sp.abouts[i])
  }

  ghost predicate SoundTables(sp: Space) {
    |sp.tables.fds| == |sp.abouts| && D.Inv(sp.tables)
  }

  ghost predicate GoodRoot(sp: Space) {
    && Good(sp) && sp.self == None
    && forall i :: 0 <= i < |sp.abouts| ==> sp.abouts[i].posixPID == NO_PID
  }

  ghost predicate GoodClient(pid: int, sp: Space) {
    && Good(sp) && sp.self.Some?
    && OnlyOneWithPid(sp.abouts, sp.self.value, pid)
    && sp.abouts[sp.self.value].state == Running
    && PidsOrdered(sp)
  }

  ghost predicate Inv(sys: System) {
    && sys.server > 0 && sys.server in sys.spaces && GoodRoot(sys.spaces[sys.server])
    && forall pid :: Client(sys, pid) ==> pid > 0 && GoodClient(pid, sys.spaces[pid])
  }

  /** No process of the forking space, dead or alive, is recorded under the pid
      the kernel hands out. */
  ghost predicate Unrecorded(sys: System, step: Step) {
    step.Syscall? && step.call.Fork? && step.caller in sys.spaces ==>
      !Records(sys.spaces[step.caller].abouts, step.call.pid)
  }

  ghost predicate Records(abouts: seq<About>, pid: int) {
    exists i :: 0 <= i < |abouts| && abouts[i].posixPID == pid
  }

  // ---------- The invariant holds in every run ----------

  /** With one carrier, the first match is that carrier. */
  lemma FirstIsOnly(abouts: seq<About>, k: nat, pid: int)
    requires OnlyOneWithPid(abouts, k, pid)
    ensures FirstWithPid(abouts, pid) == Some(k)
  {
    var r := FirstWithPid(abouts, pid);
    assert r.Some?;
  }

  lemma InitialIsGood(server: int)
    requires server > 0
    ensures Inv(Initial(server))
  {
  }

  lemma StartedIsGood(root: Space, index: nat, pid: int)
    requires GoodRoot(root) && 1 <= index < |root.abouts| && root.abouts[index].state == Loaded && pid > 0
    ensures GoodClient(pid, Started(root, index, pid))
  {
  }

  lemma ForkIsGood(caller: int, sp: Space, gotEnviron: bool, pid: int)
    requires GoodClient(caller, sp) && caller > 0 && pid > 0 && !Records(sp.abouts, pid)
    ensures GoodClient(caller, Parent(sp, sp.self.value, gotEnviron))
    ensures GoodClient(pid, Child(sp, sp.self.value, gotEnviron, pid))
  {
    D.AddProcessKeepsInv(sp.tables);
  }

  lemma CallKeepsTables(sys: System, sp: Space, p: nat, call: Call)
    requires SoundTables(sp) && p < |sp.abouts| && CanCall(sys, sp.tables, p, call)
    ensures SoundTables(Called(sp, p, call))
  {
    match call
    case Fork(_, _) => D.AddProcessKeepsInv(sp.tables);
    case Exec(_, _, _, _, closes) => D.ReplaceKeepsInv(sp.tables, p, closes);
    case OpenFile(outcome) => D.OpenFileKeepsInv(sp.tables, p, outcome);
    case OpenDevice(device, gotMemory) => D.OpenDeviceKeepsInv(sp.tables, p, device, gotMemory);
    case Close(procFd, ok) =>
      D.CloseKeepsInv(sp.tables, p, procFd, ok);
      D.CloseDropsOrFails(sp.tables, p, procFd, ok);
    case ChDir(_, _) =>
    case Unsuccessful =>
  }

  lemma CallIsGood(sys: System, caller: int, sp: Space, call: Call)
    requires GoodClient(caller, sp) && !call.Fork? && CanCall(sys, sp.tables, sp.self.value, call)
    ensures GoodClient(caller, Called(sp, sp.self.value, call))
  {
    CallKeepsTables(sys, sp, sp.self.value, call);
  }

  lemma WithKeepsInv(sys: System, pid: int, sp: Space)
    requires Inv(sys) && pid > 0
    requires if pid == sys.server then GoodRoot(sp) else GoodClient(pid, sp)
    ensures Inv(With(sys, pid, sp))
  {
  }

  lemma SyscallKeepsInv(sys: System, caller: int, call: Call)
    requires Inv(sys) && Enabled(sys, Syscall(caller, call)) && Unrecorded(sys, Syscall(caller, call))
    ensures Inv(Apply(sys, Syscall(caller, call)))
  {
    var sp := sys.spaces[caller];
    FirstIsOnly(sp.abouts, sp.self.value, caller);
    if call.Fork? {
      ForkIsGood(caller, sp, call.gotEnviron, call.pid);
    } else {
      CallIsGood(sys, caller, sp, call);
    }
    var sys' := With(sys, caller, Called(sp, sp.self.value, call));
    WithKeepsInv(sys, caller, Called(sp, sp.self.value, call));
    if call.Fork? {
      WithKeepsInv(sys', call.pid, Child(sp, sp.self.value, call.gotEnviron, call.pid));
    }
  }

  lemma StepKeepsInv(sys: System, step: Step)
    requires Inv(sys) && Enabled(sys, step) && Unrecorded(sys, step)
    ensures Inv(Apply(sys, step))
  {
    var root := sys.spaces[sys.server];
    match step
    case Add(about) =>
      D.AddProcessKeepsInv(root.tables);
      WithKeepsInv(sys, sys.server, Apply(sys, step).spaces[sys.server]);
    case Register(name, device, gotMemory) =>
      D.AddDeviceKeepsInv(root.tables, name, Some(device), gotMemory);
      WithKeepsInv(sys, sys.server, Apply(sys, step).spaces[sys.server]);
    case Run(index, pid) =>
      StartedIsGood(root, index, pid);
      WithKeepsInv(sys, pid, Started(root, index, pid));
    case Exit(_) =>
    case Syscall(caller, call) => SyscallKeepsInv(sys, caller, call);
  }

  /** No fork of the run is handed a pid that the forking space has on record. */
  ghost predicate NoPidMet(sys: System, steps: seq<Step>)
    requires Allowed(sys, steps)
  {
    steps == [] ||
    (NoPidMet(sys, steps[..|steps| - 1]) && Unrecorded(After(sys, steps[..|steps| - 1]), steps[|steps| - 1]))
  }

  lemma {:induction false} RunsKeepInv(sys: System, steps: seq<Step>)
    requires Inv(sys) && Allowed(sys, steps) && NoPidMet(sys, steps)
    ensures Inv(After(sys, steps))
  {
    if steps != [] {
      var init := steps[..|steps| - 1];
      RunsKeepInv(sys, init);
      StepKeepsInv(After(sys, init), steps[|steps| - 1]);
    }
  }

  // ---------- Attribution of system calls ----------

  /** In every space the scan finds the process whose code runs there, and in the
      server's own space nobody. */
  ghost predicate AllRight(sys: System) {
    forall pid :: pid in sys.spaces ==> Attributed(sys, pid) == sys.spaces[pid].self
  }

  lemma InvIsRight(sys: System)
    requires Inv(sys)
    ensures AllRight(sys)
  {
    forall pid | pid in sys.spaces ensures Attributed(sys, pid) == sys.spaces[pid].self {
      if Client(sys, pid) {
        FirstIsOnly(sys.spaces[pid].abouts, sys.spaces[pid].self.value, pid);
      }
    }
  }

  /** In every state reached without such a pid, exactly one index of a client's
      list carries the space's pid, it is the process whose code runs there, and
      it is the one the scan finds.  The server's own space has no caller. */
  lemma CallsAreAttributedToTheirCaller(server: int, steps: seq<Step>, pid: int)
    requires server > 0 && Allowed(Initial(server), steps) && NoPidMet(Initial(server), steps)
    requires pid in After(Initial(server), steps).spaces
    ensures var sys := After(Initial(server), steps);
      && Attributed(sys, pid) == sys.spaces[pid].self
      && (Client(sys, pid) ==>
            sys.spaces[pid].self.Some? && OnlyOneWithPid(sys.spaces[pid].abouts, sys.spaces[pid].self.value, pid))
  {
    InitialIsGood(server);
    RunsKeepInv(Initial(server), steps);
    InvIsRight(After(Initial(server), steps));
  }

  /** A fork's child is attributed correctly if and only if its pid was not on
      record in the space that forked; the guard is on what the parent can see. */
  lemma ChildAttributedIffUnrecorded(sp: Space, p: nat, gotEnviron: bool, pid: int)
    requires p < |sp.abouts| && pid > 0
    ensures var child := Child(sp, p, gotEnviron, pid);
      FirstWithPid(child.abouts, pid) == child.self <==> !Records(sp.abouts, pid)
  {
    var child := Child(sp, p, gotEnviron, pid);
    assert child.abouts[|sp.abouts|].posixPID == pid;
    if !Records(sp.abouts, pid) {
      FirstIsOnly(child.abouts, |sp.abouts|, pid);
    } else {
      var i :| 0 <= i < |sp.abouts| && sp.abouts[i].posixPID == pid;
      assert child.abouts[i].posixPID == pid;
    }
  }

  /** So it was after every step of the run. */
  ghost predicate AlwaysRight(sys: System, steps: seq<Step>)
    requires Allowed(sys, steps)
  {
    AllRight(After(sys, steps)) && (steps != [] ==> AlwaysRight(sys, steps[..|steps| - 1]))
  }

  lemma RecordedForkGoesWrong(sys: System, step: Step)
    requires Enabled(sys, step) && !Unrecorded(sys, step)
    ensures !AllRight(Apply(sys, step))
  {
    var sp, p, pid := sys.spaces[step.caller], Attributed(sys, step.caller).value, step.call.pid;
    ChildAttributedIffUnrecorded(sp, p, step.call.gotEnviron, pid);
    assert Apply(sys, step).spaces[pid] == Child(sp, p, step.call.gotEnviron, pid);
  }

  /** Throughout a run every call is attributed to the process that makes it if
      and only if no fork is handed a pid that the forking space has on record. */
  lemma {:induction false} AlwaysRightIffNoPidMet(server: int, steps: seq<Step>)
    requires server > 0 && Allowed(Initial(server), steps)
    ensures AlwaysRight(Initial(server), steps) <==> NoPidMet(Initial(server), steps)
  {
    if steps == [] {
      InitialIsGood(server);
      InvIsRight(Initial(server));
    } else {
      var init, last := steps[..|steps| - 1], steps[|steps| - 1];
      AlwaysRightIffNoPidMet(server, init);
      if NoPidMet(Initial(server), steps) {
        InitialIsGood(server);
        RunsKeepInv(Initial(server), steps);
        InvIsRight(After(Initial(server), steps));
      } else if !Unrecorded(After(Initial(server), init), last) {
        RecordedForkGoesWrong(After(Initial(server), init), last);
      }
    }
  }

  /** Every pid that was ever handed out in the run, and the server's own. */
  function Used(server: int, steps: seq<Step>): set<int> {
    if steps == [] then {server}
    else Used(server, steps[..|steps| - 1]) + match steps[|steps| - 1]
      case Run(_, pid) => {pid}
      case Syscall(_, Fork(_, pid)) => {pid}
      case _ => {}
  }

  ghost predicate NeverReused(server: int, steps: seq<Step>) {
    forall i :: 0 <= i < |steps| ==> match steps[i]
      case Run(_, pid) => pid !in Used(server, steps[..i])
      case Syscall(_, Fork(_, pid)) => pid !in Used(server, steps[..i])
      case _ => true
  }

  ghost predicate RecordsOnly(sys: System, used: set<int>) {
    forall pid, i :: pid in sys.spaces && 0 <= i < |sys.spaces[pid].abouts| ==>
      sys.spaces[pid].abouts[i].posixPID in used + {NO_PID}
  }

  /** A kernel that never hands out a pid twice never meets a recorded one. */
  lemma {:induction false} NeverReusedIsEnough(server: int, steps: seq<Step>)
    requires server > 0 && Allowed(Initial(server), steps) && NeverReused(server, steps)
    ensures NoPidMet(Initial(server), steps)
    ensures RecordsOnly(After(Initial(server), steps), Used(server, steps))
  {
    if steps != [] {
      var n := |steps| - 1;
      var init := steps[..n];
      forall i | 0 <= i < n ensures init[..i] == steps[..i] && init[i] == steps[i] {
      }
      NeverReusedIsEnough(server, init);
      RecordsAfterStep(After(Initial(server), init), steps[n], Used(server, init), Used(server, steps));
    }
  }

  lemma RecordsAfterStep(sys: System, step: Step, used: set<int>, used': set<int>)
    requires Enabled(sys, step) && RecordsOnly(sys, used) && used <= used'
    requires step.Run? ==> step.pid in used'
    requires step.Syscall? && step.call.Fork? ==> step.call.pid in used'
    ensures RecordsOnly(Apply(sys, step), used')
  {
  }

  // ---------- Witness runs ----------

  lemma Extend(sys: System, steps: seq<Step>, step: Step)
    requires Allowed(sys, steps) && Enabled(After(sys, steps), step)
    ensures Allowed(sys, steps + [step])
    ensures After(sys, steps + [step]) == Apply(After(sys, steps), step)
  {
    assert (steps + [step])[..|steps|] == steps;
  }

  const INIT := About(Loaded, NO_PID, Some("init"), Some("/bin/init"), None, Some("/bin"))

  /** Load and start a first process under POSIX pid 10. */
  lemma Boot() returns (steps: seq<Step>)
    ensures Allowed(Initial(1), steps)
    ensures var sys := After(Initial(1), steps);
      && sys.spaces.Keys == {1, 10} && sys.server == 1
      && sys.spaces[1].abouts == [About(Blank, NO_PID, None, None, None, None), INIT]
      && sys.spaces[1].tables == D.Tables([], [[], []], [], {})
      && sys.spaces[10] == Started(sys.spaces[1], 1, 10)
  {
    Extend(Initial(1), [], Add(INIT));
    Extend(Initial(1), [Add(INIT)], Run(1, 10));
    steps := [Add(INIT), Run(1, 10)];
    assert [Add(INIT)] + [Run(1, 10)] == steps && [] + [Add(INIT)] == [Add(INIT)];
  }

  /** The first process forks a child that gets POSIX pid 11. */
  lemma BootAndFork() returns (steps: seq<Step>)
    ensures Allowed(Initial(1), steps)
    ensures var sys := After(Initial(1), steps);
      && sys.server == 1 && sys.spaces.Keys == {1, 10, 11}
      && sys.spaces[1].abouts == [About(Blank, NO_PID, None, None, None, None), INIT]
      && sys.spaces[11] == Child(Started(sys.spaces[1], 1, 10), 1, true, 11)
      && |sys.spaces[11].tables.fds| == 3 && |sys.spaces[1].tables.fds| == 2
  {
    var boot := Boot();
    var fork := Syscall(10, Fork(true, 11));
    FirstIsOnly(After(Initial(1), boot).spaces[10].abouts, 1, 10);
    Extend(Initial(1), boot, fork);
    steps := boot + [fork];
  }

  /** If a pid is handed out again, a child can be mistaken for a dead ancestor:
      10 forks 11 and exits, 11 forks a child, and that child gets pid 10. */
  lemma ReusedPidIsMisattributed() returns (steps: seq<Step>)
    ensures Allowed(Initial(1), steps)
    ensures var sys := After(Initial(1), steps);
      Client(sys, 10) && sys.spaces[10].self == Some(3) && Attributed(sys, 10) == Some(1)
  {
    var begin := BootAndFork();
    var sp := After(Initial(1), begin).spaces[11];
    Extend(Initial(1), begin, Exit(10));
    FirstIsOnly(sp.abouts, 2, 11);
    Extend(Initial(1), begin + [Exit(10)], Syscall(11, Fork(true, 10)));
    steps := begin + [Exit(10)] + [Syscall(11, Fork(true, 10))];
    FoundAt(Child(sp, 2, true, 10).abouts, 1, 10);
  }

  lemma FoundAt(abouts: seq<About>, k: nat, pid: int)
    requires k < |abouts| && abouts[k].posixPID == pid
    requires forall j :: 0 <= j < k ==> abouts[j].posixPID != pid
    ensures FirstWithPid(abouts, pid) == Some(k)
  {
    var r := FirstWithPid(abouts, pid);
    assert r.Some?;
  }

  /** PIDs are indexes of one space's list, so two live clients may share one. */
  lemma CousinsMayCollide() returns (steps: seq<Step>)
    ensures Allowed(Initial(1), steps)
    ensures var sys := After(Initial(1), steps);
      && Client(sys, 11) && Client(sys, 12)
      && sys.spaces[11].self == sys.spaces[12].self == Some(2)
  {
    var begin := BootAndFork();
    Extend(Initial(1), begin, Add(INIT));
    Extend(Initial(1), begin + [Add(INIT)], Run(2, 12));
    steps := begin + [Add(INIT)] + [Run(2, 12)];
  }

  // ---------- PIDs inside a space ----------

  /** `later` is a later state of the same address space: every PID still names
      the entry it did, under the same POSIX pid. */
  ghost predicate Grows(sp: Space, later: Space) {
    && later.self == sp.self && later.lineage == sp.lineage && sp.children <= later.children
    && |sp.abouts| <= |later.abouts|
    && forall i :: 0 <= i < |sp.abouts| ==> later.abouts[i].posixPID == sp.abouts[i].posixPID
  }

  /** No step renumbers a process, and a step of one client leaves every other
      surviving address space exactly as it was. */
  lemma StepKeepsPids(sys: System, step: Step, pid: int)
    requires Enabled(sys, step) && pid in sys.spaces && pid in Apply(sys, step).spaces
    ensures Grows(sys.spaces[pid], Apply(sys, step).spaces[pid])
    ensures pid != sys.server && (step.Syscall? ==> pid != step.caller)
            ==> Apply(sys, step).spaces[pid] == sys.spaces[pid]
    ensures Apply(sys, step).server == sys.server
  {
  }

  /** The address space of `pid` is there after the first `i` steps and after
      every further one. */
  ghost predicate LivesOn(sys: System, steps: seq<Step>, i: nat, pid: int)
    requires Allowed(sys, steps) && i <= |steps|
  {
    && pid in After(sys, steps).spaces
    && (i < |steps| ==> LivesOn(sys, steps[..|steps| - 1], i, pid))
  }

  /** None of the steps from number `i` on is a system call made in the space of `pid`. */
  ghost predicate Silent(steps: seq<Step>, i: nat, pid: int) {
    forall j :: i <= j < |steps| ==> !(steps[j].Syscall? && steps[j].caller == pid)
  }

  /** Over any stretch of a run a PID keeps naming the entry it did, under the
      same POSIX pid, and a client that makes no call finds its address space
      exactly as it left it, whatever all the others did. */
  lemma {:induction false} PidsAreStable(sys: System, steps: seq<Step>, i: nat, pid: int)
    requires Allowed(sys, steps) && i <= |steps| && LivesOn(sys, steps, i, pid)
    ensures Allowed(sys, steps[..i]) && pid in After(sys, steps[..i]).spaces
    ensures Grows(After(sys, steps[..i]).spaces[pid], After(sys, steps).spaces[pid])
    ensures After(sys, steps).server == sys.server
    ensures pid != sys.server && Silent(steps, i, pid)
            ==> After(sys, steps).spaces[pid] == After(sys, steps[..i]).spaces[pid]
    decreases |steps|
  {
    if i == |steps| {
      assert steps[..i] == steps;
      ServerStays(sys, steps);
    } else {
      var init := steps[..|steps| - 1];
      assert init[..i] == steps[..i];
      PidsAreStable(sys, init, i, pid);
      StepKeepsPids(After(sys, init), steps[|steps| - 1], pid);
      GrowsOn(After(sys, steps[..i]).spaces[pid], After(sys, init).spaces[pid], After(sys, steps).spaces[pid]);
    }
  }

  lemma {:induction false} ServerStays(sys: System, steps: seq<Step>)
    requires Allowed(sys, steps)
    ensures After(sys, steps).server == sys.server
  {
    if steps != [] { ServerStays(sys, steps[..|steps| - 1]); }
  }

  lemma GrowsOn(sp: Space, later: Space, latest: Space)
    requires Grows(sp, later) && Grows(later, latest)
    ensures Grows(sp, latest)
  {
  }

  ghost predicate AllOrdered(sys: System) {
    forall pid :: Client(sys, pid) ==> PidsOrdered(sys.spaces[pid])
  }

  lemma ForkKeepsOrder(sp: Space, p: nat, gotEnviron: bool, pid: int)
    requires PidsOrdered(sp) && p < |sp.abouts|
    ensures PidsOrdered(Parent(sp, p, gotEnviron)) && PidsOrdered(Child(sp, p, gotEnviron, pid))
  {
  }

  lemma CallKeepsOrder(sp: Space, p: nat, call: Call)
    requires PidsOrdered(sp) && p < |sp.abouts| && p < |sp.tables.fds|
    requires call.Close? ==> call.procFd < |sp.tables.fds[p]|
    ensures PidsOrdered(Called(sp, p, call))
  {
    if call.Fork? {
      ForkKeepsOrder(sp, p, call.gotEnviron, call.pid);
    }
  }

  lemma WithKeepsOrder(sys: System, pid: int, sp: Space)
    requires AllOrdered(sys) && (pid != sys.server ==> PidsOrdered(sp))
    ensures AllOrdered(With(sys, pid, sp))
  {
  }

  lemma StepKeepsOrder(sys: System, step: Step)
    requires Enabled(sys, step) && AllOrdered(sys)
    ensures AllOrdered(Apply(sys, step))
  {
    match step
    case Add(_) => WithKeepsOrder(sys, sys.server, Apply(sys, step).spaces[sys.server]);
    case Register(_, _, _) => WithKeepsOrder(sys, sys.server, Apply(sys, step).spaces[sys.server]);
    case Run(index, pid) => WithKeepsOrder(sys, pid, Started(sys.spaces[sys.server], index, pid));
    case Exit(_) =>
    case Syscall(caller, call) =>
      var sp, p := sys.spaces[caller], Attributed(sys, caller).value;
      CallKeepsOrder(sp, p, call);
      WithKeepsOrder(sys, caller, Called(sp, p, call));
      if call.Fork? {
        ForkKeepsOrder(sp, p, call.gotEnviron, call.pid);
        WithKeepsOrder(With(sys, caller, Called(sp, p, call)), call.pid, Child(sp, p, call.gotEnviron, call.pid));
      }
  }

  /** In every run, whatever pids the kernel hands out. */
  lemma {:induction false} PidsGrowDownTheTree(server: int, steps: seq<Step>)
    requires Allowed(Initial(server), steps)
    ensures AllOrdered(After(Initial(server), steps))
  {
    if steps != [] {
      var init := steps[..|steps| - 1];
      PidsGrowDownTheTree(server, init);
      StepKeepsOrder(After(Initial(server), init), steps[|steps| - 1]);
    }
  }

  /** The next fork's PID exceeds those of the forking process and all its
      ancestors and differs from every PID its earlier forks returned. */
  lemma NextChildIsNew(sp: Space, p: nat, gotEnviron: bool, childPid: int)
    requires PidsOrdered(sp) && p < |sp.abouts|
    ensures var child := Child(sp, p, gotEnviron, childPid);
      && child.lineage == sp.lineage + [child.self.value]
      && (forall k :: k in sp.lineage ==> k < child.self.value)
      && child.self.value !in sp.children
      && Parent(sp, p, gotEnviron).children == sp.children + [child.self.value]
  {
    forall k | k in sp.lineage ensures k <= sp.self.value {
      var i :| 0 <= i < |sp.lineage| && sp.lineage[i] == k;
    }
  }

  // ---------- What fork and exec hand over ----------

  /** A forked child goes on as its parent was, under its own pid and with no
      descriptors; every process it found in the copy means what it did, and the
      parent's own space gains one entry and changes nothing else. */
  lemma ForkHandsOver(caller: int, sp: Space, gotEnviron: bool, pid: int)
    requires GoodClient(caller, sp)
    ensures var child, p, n := Child(sp, sp.self.value, gotEnviron, pid), sp.self.value, |sp.abouts|;
      var a, a' := sp.abouts[p], child.abouts[n];
      && child.self == Some(n) && a'.posixPID == pid && a'.state == Running
      && a'.name == a.name && a'.path == a.path && a'.cwd == a.cwd
      && a'.environ == (if gotEnviron then a.environ else None)
      && D.Denotes(child.tables, n) == map[]
      && (forall q: nat :: q < n ==> child.abouts[q] == sp.abouts[q])
      && (forall q: nat :: q < n ==> D.Denotes(child.tables, q) == D.Denotes(sp.tables, q))
    ensures var child, parent := Child(sp, sp.self.value, gotEnviron, pid), Parent(sp, sp.self.value, gotEnviron);
      && parent.abouts == sp.abouts + [child.abouts[|sp.abouts|].(posixPID := NO_PID)]
      && parent.tables == child.tables && parent.self == sp.self
      && child.tables.devices == sp.tables.devices && child.tables.kernelFds == sp.tables.kernelFds
  {
    NewProcessHasNone(sp.tables);
  }

  lemma NewProcessHasNone(s: D.Tables)
    ensures var s' := D.AddProcess(s);
      && |s'.fds| == |s.fds| + 1 && D.Denotes(s', |s.fds|) == map[]
      && forall q: nat :: q < |s.fds| ==> D.Denotes(s', q) == D.Denotes(s, q)
  {
    var s' := D.AddProcess(s);
    forall q: nat | q < |s.fds| ensures D.Denotes(s', q) == D.Denotes(s, q) {
      assert s'.fds[q] == s.fds[q];
    }
  }

  /** A program started by the server goes on with a copy of the server's memory in
      which it alone is running, under the pid given; a program listed has no
      descriptors and changes no other; a device registered is there unless its
      name was or memory failed. */
  lemma StartHandsOver(sys: System, index: nat, pid: int)
    requires Inv(sys) && Enabled(sys, Run(index, pid))
    ensures var root, sp := sys.spaces[sys.server], Apply(sys, Run(index, pid)).spaces[pid];
      && sp.self == Some(index) && sp.lineage == [index] && sp.children == []
      && sp.tables == root.tables && |sp.abouts| == |root.abouts|
      && sp.abouts[index] == root.abouts[index].(state := Running, posixPID := pid)
      && forall q :: 0 <= q < |root.abouts| && q != index ==> sp.abouts[q] == root.abouts[q]
  {
  }

  lemma ServerStepsHandOver(sp: Space, about: About, name: string, device: Reg.DeviceId, gotMemory: bool)
    requires SoundTables(sp)
    ensures var listed := Listed(sp, about);
      && listed.abouts == sp.abouts + [about] && D.Denotes(listed.tables, |sp.abouts|) == map[]
      && forall q: nat :: q < |sp.abouts| ==> D.Denotes(listed.tables, q) == D.Denotes(sp.tables, q)
    ensures var registered, meaning := Registered(sp, name, device, gotMemory), Reg.Meaning(sp.tables.devices);
      && registered.abouts == sp.abouts && registered.tables.fds == sp.tables.fds
      && Reg.Meaning(registered.tables.devices) ==
           if name !in meaning && gotMemory then meaning[name := Reg.Holding(device, 0)] else meaning
  {
    NewProcessHasNone(sp.tables);
    Reg.AddRefinesMap(sp.tables.devices, name, Some(device), gotMemory);
  }

  /** Only a start and a fork make an address space, and only an exit ends one, the
      caller's own. */
  lemma SpacesAfterStep(sys: System, step: Step)
    requires Enabled(sys, step)
    ensures Apply(sys, step).server == sys.server
    ensures forall pid :: pid in Apply(sys, step).spaces <==>
      || (pid in sys.spaces && step != Exit(pid))
      || (step.Run? && pid == step.pid)
      || (step.Syscall? && step.call.Fork? && pid == step.call.pid)
  {
  }

  /** A chdir changes the directory of its caller and nothing else. */
  lemma ChDirMeans(sp: Space, p: nat, dir: string, gotMemory: bool)
    requires p < |sp.abouts| && p < |sp.tables.fds|
    ensures var after := Called(sp, p, ChDir(dir, gotMemory));
      && after.tables == sp.tables && |after.abouts| == |sp.abouts|
      && after.abouts[p].cwd == (if gotMemory then Some(dir) else sp.abouts[p].cwd)
      && after.abouts[p].(cwd := None) == sp.abouts[p].(cwd := None)
      && forall q :: 0 <= q < |sp.abouts| && q != p ==> after.abouts[q] == sp.abouts[q]
  {
  }

  /** Exec keeps the caller's PID and POSIX pid, its environment and working
      directory as far as memory lasts, leaves it without descriptors, and leaves
      every other process of the space as it was. */
  lemma ExecHandsOver(caller: int, sp: Space, call: Call)
    requires GoodClient(caller, sp) && call.Exec? && '/' in call.path
    ensures var p, after := sp.self.value, Called(sp, sp.self.value, call);
      var a := after.abouts[p];
      && after.self == sp.self && |after.abouts| == |sp.abouts|
      && a.posixPID == caller && a.state == Running
      && a.path == Some(call.path) && a.name.Some? && Search.IsBaseName(call.path, a.name.value)
      && a.environ == (if call.gotEnviron then sp.abouts[p].environ else None)
      && a.cwd == (if call.gotCwd then sp.abouts[p].cwd else Some(DirName(call.file)))
      && D.Denotes(after.tables, p) == map[] && after.tables.fds[p] == []
      && forall q: nat :: q < |sp.abouts| && q != p ==>
           after.abouts[q] == sp.abouts[q] && D.Denotes(after.tables, q) == D.Denotes(sp.tables, q)
  {
    D.ReplaceRefinesMap(sp.tables, sp.self.value, call.closes);
    D.ReplaceKeepsInv(sp.tables, sp.self.value, call.closes);
  }

  // ---------- Descriptors across the whole system ----------

  /** A call changes what descriptors mean only for the process that made it. */
  lemma CallTouchesOnlyItsCaller(sys: System, sp: Space, p: nat, call: Call, q: nat)
    requires D.Inv(sp.tables) && p < |sp.abouts| && CanCall(sys, sp.tables, p, call)
    requires q < |sp.tables.fds| && q != p
    ensures q < |Called(sp, p, call).tables.fds|
    ensures D.Denotes(Called(sp, p, call).tables, q) == D.Denotes(sp.tables, q)
  {
    var s := sp.tables;
    match call
    case Fork(_, _) => assert D.AddProcess(s).fds[q] == s.fds[q];
    case Exec(_, _, _, _, closes) => D.ReplaceRefinesMap(s, p, closes);
    case OpenFile(outcome) => D.OpenFileRefinesMap(s, p, outcome);
    case OpenDevice(device, gotMemory) => D.OpenDeviceRefinesMap(s, p, device, gotMemory);
    case Close(procFd, ok) => D.CloseRefinesMap(s, p, procFd, ok, ok);
    case ChDir(_, _) =>
    case Unsuccessful =>
  }

  ghost predicate AllSound(sys: System) {
    forall pid :: pid in sys.spaces ==> SoundTables(sys.spaces[pid])
  }

  lemma StepKeepsTables(sys: System, step: Step)
    requires Enabled(sys, step) && AllSound(sys)
    ensures AllSound(Apply(sys, step))
  {
    var root := sys.spaces[sys.server];
    match step
    case Add(about) => D.AddProcessKeepsInv(root.tables);
    case Register(name, device, gotMemory) => D.AddDeviceKeepsInv(root.tables, name, Some(device), gotMemory);
    case Run(index, pid) =>
    case Exit(_) =>
    case Syscall(caller, call) => CallKeepsTables(sys, sys.spaces[caller], Attributed(sys, caller).value, call);
  }

  /** In every run, whatever fails and whatever pids the kernel hands out, the
      descriptor tables of every address space satisfy the invariant. */
  lemma {:induction false} RunsKeepTables(server: int, steps: seq<Step>)
    requires server > 0 && Allowed(Initial(server), steps)
    ensures AllSound(After(Initial(server), steps))
  {
    if steps == [] {
      InitialIsGood(server);
    } else {
      RunsKeepTables(server, steps[..|steps| - 1]);
      StepKeepsTables(After(Initial(server), steps[..|steps| - 1]), steps[|steps| - 1]);
    }
  }

  /** Whatever the run asks the kernel to close is closed. */
  ghost predicate Closes(sys: System, step: Step)
    requires Enabled(sys, step)
  {
    step.Syscall? ==>
      var s, p := sys.spaces[step.caller].tables, Attributed(sys, step.caller).value;
      match step.call
      case Exec(_, _, _, _, closes) => D.AllClose(s, p, closes)
      case OpenFile(outcome) => outcome.NoMemory? ==> outcome.closed
      case _ => true
  }

  ghost predicate ClosesSucceed(sys: System, steps: seq<Step>)
    requires Allowed(sys, steps)
  {
    steps == [] ||
    (ClosesSucceed(sys, steps[..|steps| - 1]) && Closes(After(sys, steps[..|steps| - 1]), steps[|steps| - 1]))
  }

  ghost predicate AllExact(sys: System) {
    forall pid :: pid in sys.spaces ==> D.Exact(sys.spaces[pid].tables)
  }

  lemma CallKeepsExact(sys: System, sp: Space, p: nat, call: Call)
    requires D.Exact(sp.tables) && p < |sp.abouts| && CanCall(sys, sp.tables, p, call)
    requires call.Exec? ==> D.AllClose(sp.tables, p, call.closes)
    requires call.OpenFile? && call.outcome.NoMemory? ==> call.outcome.closed
    ensures D.Exact(Called(sp, p, call).tables)
  {
    var s := sp.tables;
    match call
    case Fork(_, _) => D.AddProcessKeepsInv(s);
    case Exec(_, _, _, _, closes) => D.ReplaceKeepsExactIffAllClose(s, p, closes);
    case OpenFile(outcome) => D.OpenFileKeepsExact(s, p, outcome);
    case OpenDevice(device, gotMemory) => D.OpenDeviceKeepsExact(s, p, device, gotMemory);
    case Close(procFd, ok) => D.CloseKeepsExact(s, p, procFd, ok);
    case ChDir(_, _) =>
    case Unsuccessful =>
  }

  lemma StepKeepsExact(sys: System, step: Step)
    requires Enabled(sys, step) && Closes(sys, step) && AllExact(sys) && AllSound(sys)
    ensures AllExact(Apply(sys, step))
  {
    var root := sys.spaces[sys.server];
    match step
    case Add(about) => D.AddProcessKeepsInv(root.tables);
    case Register(name, device, gotMemory) => D.AddDeviceKeepsInv(root.tables, name, Some(device), gotMemory);
    case Run(index, pid) =>
    case Exit(_) =>
    case Syscall(caller, call) => CallKeepsExact(sys, sys.spaces[caller], Attributed(sys, caller).value, call);
  }

  /** In a run whose closes succeed, in every address space live entries and
      occupied local slots correspond one to one, and the kernel descriptors
      obtained by `open` are those of the live file entries. */
  lemma {:induction false} RunsKeepTablesExact(server: int, steps: seq<Step>)
    requires server > 0 && Allowed(Initial(server), steps) && ClosesSucceed(Initial(server), steps)
    ensures AllExact(After(Initial(server), steps))
  {
    if steps == [] {
      InitialIsGood(server);
    } else {
      var init := steps[..|steps| - 1];
      RunsKeepTablesExact(server, init);
      RunsKeepTables(server, init);
      StepKeepsExact(After(Initial(server), init), steps[|steps| - 1]);
    }
  }
}
