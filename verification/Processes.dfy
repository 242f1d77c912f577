/**
 A process as the server keeps it: its local descriptor table, its run state
 and POSIX pid, its environment and its working directory.  Answers of the
 operating system (dlopen, malloc, fork, getpid) are parameters.
 */
module Processes {
  import opened Options
  import opened SlashPaths
  import Search
  import D = Descriptors

  datatype RunState = Blank | Loaded | Running

  const NO_PID := -1

  /** All that is recorded about a process except its descriptors. */
  datatype About = About(
    state: RunState,
    posixPID: int,
    name: Option<string>,
    path: Option<string>,
    environ: Option<seq<string>>,
    cwd: Option<string>)

  /** What forkCopy makes of a process: everything but the pid, and the
      environment only if there was memory to copy it. */
  function ForkedAbout(a: About, gotEnviron: bool): About {
    a.(posixPID := NO_PID, environ := if gotEnviron then a.environ else None)
  }

  /** What exec makes of a process: a running program of its own, under the same
      pid, with the old environment and directory if there was memory to copy them. */
  function ExecedAbout(a: About, file: string, path: string, gotEnviron: bool, gotCwd: bool): About {
    About(Running, a.posixPID, Some(Search.BaseName(path)), Some(path),
          if gotEnviron then a.environ else None, if gotCwd then a.cwd else Some(DirName(file)))
  }

  /** What chdir makes of a process. */
  function MovedAbout(a: About, dir: string, gotMemory: bool): About {
    if gotMemory then a.(cwd := Some(dir)) else a
  }

  /** The first process recorded under a POSIX pid, as a system call finds its caller. */
  function FirstWithPid(abouts: seq<About>, pid: int): (r: Option<nat>)
    ensures r.Some? ==> r.value < |abouts| && abouts[r.value].posixPID == pid
    ensures r.Some? ==> forall j :: 0 <= j < r.value ==> abouts[j].posixPID != pid
    ensures r.None? ==> forall j :: 0 <= j < |abouts| ==> abouts[j].posixPID != pid
  {
    if abouts == [] then None
    else match FirstWithPid(abouts[..|abouts| - 1], pid)
      case Some(i) => Some(i)
      case None => if abouts[|abouts| - 1].posixPID == pid then Some(|abouts| - 1) else None
  }

  /** fork() failing, or returning in the parent, or in the child with pid `self`. */
  datatype ForkSide = ForkFailed | InParent | InChild(self: int)

  /** Answers met while loading a program file. */
  datatype LoadAnswers = LoadAnswers(
    localPath: Option<string>,
    gotCwd: bool,
    linked: bool,
    gotName: bool,
    gotPath: bool)

  class Process {
    var fds: seq<int>
    var state: RunState
    var posixPID: int
    var name: Option<string>
    var path: Option<string>
    var environ: array?<string>
    var cwd: Option<string>

    ghost function Environ(): Option<seq<string>>
      reads this, environ
    {
      if environ == null then None else Some(environ[..])
    }

    ghost function GetAbout(): About
      reads this, environ
    {
      About(state, posixPID, name, path, Environ(), cwd)
    }

    constructor ()
      ensures fds == [] && environ == null
      ensures GetAbout() == About(Blank, NO_PID, None, None, None, None)
    {
      fds, state, posixPID, name, path, environ, cwd := [], Blank, NO_PID, None, None, null, None;
    }

    method FdAdd(serverFd: int) returns (l: nat)
      modifies this`fds
      ensures fds == D.Bound(old(fds), serverFd) && l == D.FirstSlot(old(fds), -1)
    {
      for i := 0 to |fds|
        invariant fds == old(fds)
        invariant forall j :: 0 <= j < i ==> fds[j] != -1
      {
        if fds[i] == -1 {
          fds := fds[i := serverFd];
          return i;
        }
      }
      l := |fds|;
      fds := fds + [serverFd];
    }

    method FdRemove(serverFd: int)
      modifies this`fds
      ensures fds == D.Unbound(old(fds), serverFd)
    {
      for i := 0 to |fds|
        invariant fds == old(fds)
        invariant forall j :: 0 <= j < i ==> fds[j] != serverFd
      {
        if fds[i] == serverFd {
          fds := fds[i := -1];
          return;
        }
      }
    }

    method SetPosixPID(pid: int)
      modifies this`posixPID
      ensures posixPID == pid
    {
      posixPID := pid;
    }

    method SetCwd(dir: string, gotMemory: bool) returns (ok: bool)
      modifies this`cwd
      ensures ok == gotMemory && cwd == if ok then Some(dir) else old(cwd)
    {
      if !gotMemory {
        return false;
      }
      cwd := Some(dir);
      ok := true;
    }

    /** Replace the environment by a deep copy of `env`, which must not be this
        process's own.  Memory lasts for the table if `gotTable`, and then for
        `copies` strings. */
    method SetEnviron(env: array?<string>, gotTable: bool, copies: nat) returns (ok: bool)
      requires env != null ==> env != environ
      modifies this`environ
      ensures ok <==> env == null || (gotTable && env.Length <= copies)
      ensures !ok || env == null ==> environ == null
      ensures ok && env != null ==> environ != null && fresh(environ) && environ[..] == env[..]
    {
      environ := null;
      if env == null {
        return true;
      }
      if !gotTable {
        return false;
      }
      var table := new string[env.Length](_ => "");
      environ := table;
      for i := 0 to env.Length
        invariant environ == table && fresh(table)
        invariant i <= copies
        invariant table[..i] == env[..i]
      {
        if copies == i {
          environ := null;
          return false;
        }
        table[i] := env[i];
      }
      ok := true;
    }

    /** Load the library at the absolute path `gpath`; on failure nothing of
        the attempt is left. */
    method LoadFileLocal(gpath: string, linked: bool, gotName: bool, gotPath: bool) returns (ok: bool)
      requires '/' in gpath
      modifies this`name, this`path, this`state
      ensures ok <==> old(state) == Blank && linked && gotName && gotPath
      ensures ok ==> state == Loaded && path == Some(gpath) && name.Some? && Search.IsBaseName(gpath, name.value)
      ensures !ok ==> state == old(state)
      ensures !ok ==> (name, path) == if old(state) == Blank then (None, None) else (old(name), old(path))
    {
      if state != Blank {
        return false;
      }
      if !linked {
        name, path := None, None;
        return false;
      }
      Search.SlashOccurs(gpath);
      var last := Search.StrStrRev(gpath, "/");
      Search.AfterLastSlash(gpath, last.value);
      if !gotName || !gotPath {
        name, path := None, None;
        return false;
      }
      name, path, state := Some(gpath[last.value + 1..]), Some(gpath), Loaded;
      ok := true;
    }

    /** Load the program at `file`, a path in the server's file system. */
    method LoadFileFS(file: Option<string>, answers: LoadAnswers) returns (ok: bool)
      requires answers.localPath.Some? ==> '/' in answers.localPath.value
      requires state == Blank ==> cwd == None
      modifies this`name, this`path, this`state, this`cwd
      ensures ok <==>
        && old(state) == Blank && file.Some? && Absolute(file.value)
        && answers.localPath.Some? && answers.gotCwd && answers.linked && answers.gotName && answers.gotPath
      ensures ok ==>
        && state == Loaded && path == answers.localPath && cwd == Some(DirName(file.value))
        && name.Some? && Search.IsBaseName(path.value, name.value)
      ensures !ok ==> state == old(state)
      ensures !ok && old(state) == Blank ==>
        && cwd == None
        && (name, path) ==
             if file.Some? && Absolute(file.value) && answers.localPath.Some? && answers.gotCwd then (None, None)
             else (old(name), old(path))
      ensures old(state) != Blank ==> unchanged(this)
    {
      if state != Blank {
        return false;
      }
      if file.None? || file.value == "" || file.value[0] != '/' {
        return false;
      }
      if answers.localPath.None? || !answers.gotCwd {
        cwd := None;
        return false;
      }
      cwd := Some(DirName(file.value));
      ok := LoadFileLocal(answers.localPath.value, answers.linked, answers.gotName, answers.gotPath);
      if !ok {
        cwd := None;
      }
    }

    /** Start the program: in the child of a fork, or in place.  Only a loaded
        process starts, and only where its code will run is it marked. */
    method Arun(doFork: bool, side: ForkSide, self: int) returns (ok: bool)
      requires doFork && side.InChild? ==> side.self == self
      modifies this`state, this`posixPID
      ensures ok <==> old(state) == Loaded && !(doFork && side.ForkFailed?)
      ensures if ok && !(doFork && side.InParent?)
              then state == Running && posixPID == self
              else state == old(state) && posixPID == old(posixPID)
    {
      if state != Loaded {
        return false;
      }
      if doFork && side.ForkFailed? {
        return false;
      }
      if !doFork || side.InChild? {
        state := Running;
        posixPID := self;
      }
      ok := true;
    }

    /** Start the program with its own name and the arguments given, if there is
        memory to copy them. */
    method Vrun(doFork: bool, side: ForkSide, self: int, gotArgv: bool) returns (ok: bool)
      requires name.Some? && (doFork && side.InChild? ==> side.self == self)
      modifies this`state, this`posixPID
      ensures ok <==> gotArgv && old(state) == Loaded && !(doFork && side.ForkFailed?)
      ensures if ok && !(doFork && side.InParent?)
              then state == Running && posixPID == self
              else state == old(state) && posixPID == old(posixPID)
    {
      if !gotArgv {
        return false;
      }
      ok := Arun(doFork, side, self);
    }

    /** A new process like this one, with its own environment and without
        descriptors; null if some copy or the reloading of the library failed. */
    method ForkCopy(copied: bool, gotTable: bool, copies: nat) returns (child: Process?)
      requires name.Some? && path.Some? && cwd.Some?
      ensures child == null <==> !copied
      ensures child != null ==>
        && fresh(child) && child.fds == []
        && child.GetAbout() == ForkedAbout(GetAbout(), environ == null || (gotTable && environ.Length <= copies))
        && (child.environ != null ==> fresh(child.environ))
    {
      if !copied {
        return null;
      }
      child := new Process();
      child.name, child.path, child.cwd, child.state := name, path, cwd, state;
      var _ := child.SetEnviron(environ, gotTable, copies);
    }
  }

  /** Whether loading a blank process succeeds. */
  predicate Loads(file: Option<string>, answers: LoadAnswers) {
    && file.Some? && Absolute(file.value)
    && answers.localPath.Some? && answers.gotCwd
    && answers.linked && answers.gotName && answers.gotPath
  }
}
