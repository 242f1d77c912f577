/**
 The two levels of descriptor table inside one address space, as values.

 A process maps its local descriptors to server descriptors (`fds`), and the
 server maps those to open objects (`table`).  The functions say what each
 server operation does to the tables; the lemmas show that the tables always
 stay consistent and what they mean to each process.
 */
module Descriptors {
  import opened Options
  import Reg = DeviceRegistry

  /** What an entry of the server's table stands for: the type tag and union. */
  datatype Target =
    | Unused
    | File(kernelFd: int)
    | Socket(id: nat)
    | Device(device: Reg.DeviceId)

  datatype Entry = Entry(fd: int, refCount: int, target: Target)

  type Table = seq<Option<Entry>>

  /** `fds[p]` is the local table of the process with index `p`; `kernelFds`
      are the kernel's descriptors the server has open through `open`. */
  datatype Tables = Tables(
    table: Table,
    fds: seq<seq<int>>,
    devices: seq<Reg.Record>,
    kernelFds: set<int>)

  // ---------- Slots ----------

  predicate Vacant(o: Option<Entry>) {
    o.None? || o.value.target.Unused?
  }

  /** The index the server's scan for a reusable entry stops at. */
  function FreeEntry(t: Table): (k: nat)
    ensures k <= |t|
    ensures forall i :: 0 <= i < k ==> !Vacant(t[i])
    ensures k < |t| ==> Vacant(t[k])
  {
    if t == [] then 0
    else
      var k := FreeEntry(t[..|t| - 1]);
      if k < |t| - 1 || Vacant(t[|t| - 1]) then k else |t|
  }

  function WithEntry(t: Table, k: nat, e: Entry): (t': Table)
    requires k <= |t|
    ensures |t'| == if k == |t| then |t| + 1 else |t|
    ensures t'[k] == Some(e)
    ensures forall i :: 0 <= i < |t| && i != k ==> t'[i] == t[i]
  {
    if k == |t| then t + [Some(e)] else t[k := Some(e)]
  }

  /** The first slot of a local table that holds `v`, or its length. */
  function FirstSlot(fds: seq<int>, v: int): (l: nat)
    ensures l <= |fds|
    ensures forall i :: 0 <= i < l ==> fds[i] != v
    ensures l < |fds| ==> fds[l] == v
  {
    if fds == [] then 0
    else
      var l := FirstSlot(fds[..|fds| - 1], v);
      if l < |fds| - 1 || fds[|fds| - 1] == v then l else |fds|
  }

  function Bound(fds: seq<int>, serverFd: int): (fds': seq<int>)
    ensures var l := FirstSlot(fds, -1);
      && |fds'| == (if l == |fds| then |fds| + 1 else |fds|)
      && fds'[l] == serverFd
      && forall i :: 0 <= i < |fds| && i != l ==> fds'[i] == fds[i]
  {
    var l := FirstSlot(fds, -1);
    if l == |fds| then fds + [serverFd] else fds[l := serverFd]
  }

  function Unbound(fds: seq<int>, serverFd: int): (fds': seq<int>)
    ensures |fds'| == |fds|
    ensures var l := FirstSlot(fds, serverFd);
      forall i :: 0 <= i < |fds| ==> fds'[i] == if i == l then -1 else fds[i]
  {
    var l := FirstSlot(fds, serverFd);
    if l == |fds| then fds else fds[l := -1]
  }

  // ---------- Operations ----------

  /** Bind `target` to a new server entry and a local slot of process `p`. */
  function Install(s: Tables, p: nat, target: Target): Tables
    requires p < |s.fds|
  {
    var k := FreeEntry(s.table);
    s.(table := WithEntry(s.table, k, Entry(k, 1, target)), fds := s.fds[p := Bound(s.fds[p], k)])
  }

  /** How an open of a file can go: no local path or a failing open(2), no
      memory for the entry (the kernel descriptor is then closed again, which
      may itself fail), or success with the kernel's descriptor. */
  datatype OpenOutcome = OpenFailed | NoMemory(kernelFd: int, closed: bool) | Got(kernelFd: int)

  function OpenFile(s: Tables, p: nat, outcome: OpenOutcome): (Tables, Option<nat>)
    requires p < |s.fds|
  {
    match outcome
    case OpenFailed => (s, None)
    case NoMemory(kfd, closed) =>
      (s.(kernelFds := if closed then s.kernelFds else s.kernelFds + {kfd}), None)
    case Got(kfd) =>
      (Install(s, p, File(kfd)).(kernelFds := s.kernelFds + {kfd}), Some(FirstSlot(s.fds[p], -1)))
  }

  function OpenDevice(s: Tables, p: nat, name: string, gotMemory: bool): (Tables, Option<nat>)
    requires p < |s.fds|
  {
    var (devices, device) := Reg.Opened(s.devices, name);
    if device.None? then (s, None)
    else if !gotMemory then (s.(devices := devices), None)
    else (Install(s, p, Device(device.value)).(devices := devices), Some(FirstSlot(s.fds[p], -1)))
  }

  function OpenSocket(s: Tables, p: nat, socket: nat, gotMemory: bool): (Tables, Option<nat>)
    requires p < |s.fds|
  {
    if !gotMemory then (s, None)
    else (Install(s, p, Socket(socket)), Some(FirstSlot(s.fds[p], -1)))
  }

  function Lookup(t: Table, fd: int): Option<Entry> {
    if 0 <= fd < |t| then t[fd] else None
  }

  /** Whether closing the object itself works; `ok` is the answer of close(2)
      or of the socket, a device always agrees, and an unused entry refuses. */
  predicate ObjectCloses(target: Target, ok: bool) {
    match target
    case File(_) => ok
    case Socket(_) => ok
    case Device(_) => true
    case Unused => false
  }

  function KernelAfterClose(kernelFds: set<int>, target: Target): set<int> {
    if target.File? then kernelFds - {target.kernelFd} else kernelFds
  }

  function Close(s: Tables, p: nat, fd: int, ok: bool): (Tables, bool)
    requires p < |s.fds|
  {
    match Lookup(s.table, fd)
    case None => (s, false)
    case Some(e) =>
      if e.refCount > 1 then
        (s.(table := s.table[fd := Some(e.(refCount := e.refCount - 1))],
            fds := s.fds[p := Unbound(s.fds[p], fd)]), true)
      else if !ObjectCloses(e.target, ok) then (s, false)
      else
        (s.(table := s.table[fd := None],
            fds := s.fds[p := Unbound(s.fds[p], fd)],
            kernelFds := KernelAfterClose(s.kernelFds, e.target)), true)
  }

  /** Close every descriptor of process `p` from slot `l` on, as process
      teardown does; `ok(i)` is the outcome of closing what slot `i` holds. */
  function CloseFrom(s: Tables, p: nat, l: nat, ok: nat -> bool): (r: Tables)
    requires p < |s.fds| && l <= |s.fds[p]|
    ensures |r.fds| == |s.fds| && |r.fds[p]| == |s.fds[p]|
    decreases |s.fds[p]| - l
  {
    if l == |s.fds[p]| then s
    else if s.fds[p][l] == -1 then CloseFrom(s, p, l + 1, ok)
    else CloseFrom(Close(s, p, s.fds[p][l], ok(l)).0, p, l + 1, ok)
  }

  function CloseAll(s: Tables, p: nat, ok: nat -> bool): Tables
    requires p < |s.fds|
  {
    CloseFrom(s, p, 0, ok)
  }

  /** Exec tears the old process down and puts one without descriptors in its place. */
  function Replace(s: Tables, p: nat, ok: nat -> bool): Tables
    requires p < |s.fds|
  {
    var r := CloseAll(s, p, ok);
    r.(fds := r.fds[p := []])
  }

  /** A new process starts with no descriptors: fork does not copy them. */
  function AddProcess(s: Tables): Tables {
    s.(fds := s.fds + [[]])
  }

  // ---------- Invariant ----------

  /** Slot `l` of process `p` holds server descriptor `fd`. */
  predicate Holds(s: Tables, p: nat, l: nat, fd: int) {
    p < |s.fds| && l < |s.fds[p]| && s.fds[p][l] == fd && fd != -1
  }

  ghost predicate EntriesLive(t: Table) {
    forall i :: 0 <= i < |t| && t[i].Some? ==>
      t[i].value.fd == i && t[i].value.refCount == 1 && !t[i].value.target.Unused?
  }

  ghost predicate SlotsLive(s: Tables) {
    forall p: nat, l: nat :: p < |s.fds| && l < |s.fds[p]| && s.fds[p][l] != -1 ==>
      Lookup(s.table, s.fds[p][l]).Some?
  }

  ghost predicate SlotsDistinct(s: Tables) {
    forall p: nat, l: nat, q: nat, m: nat
      | p < |s.fds| && l < |s.fds[p]| && q < |s.fds| && m < |s.fds[q]|
      :: s.fds[p][l] == s.fds[q][m] != -1 ==> p == q && l == m
  }

  ghost predicate FilesDistinct(s: Tables) {
    && (forall i :: 0 <= i < |s.table| && s.table[i].Some? && s.table[i].value.target.File? ==>
          s.table[i].value.target.kernelFd in s.kernelFds)
    && (forall i, j ::
          0 <= i < j < |s.table| && s.table[i].Some? && s.table[j].Some? && s.table[i].value.target.File? ==>
          s.table[i].value.target != s.table[j].value.target)
  }

  function HandlesOn(t: Table, d: Reg.DeviceId): nat {
    if t == [] then 0
    else HandlesOn(t[..|t| - 1], d) + if t[|t| - 1].Some? && t[|t| - 1].value.target == Device(d) then 1 else 0
  }

  /** The open count the registry has on record for a device (0 if it has none). */
  function OpensOf(devices: seq<Reg.Record>, d: Reg.DeviceId): int {
    if devices == [] then 0
    else OpensOf(devices[..|devices| - 1], d)
         + if devices[|devices| - 1].device == d then devices[|devices| - 1].refCount else 0
  }

  ghost predicate DevicesCounted(s: Tables) {
    && Reg.Sound(s.devices) && Reg.UniqueDevices(s.devices)
    && forall d :: HandlesOn(s.table, d) <= OpensOf(s.devices, d)
  }

  ghost predicate Inv(s: Tables) {
    && EntriesLive(s.table)
    && SlotsLive(s)
    && SlotsDistinct(s)
    && FilesDistinct(s)
    && DevicesCounted(s)
  }

  ghost predicate NoOrphans(s: Tables) {
    forall i :: 0 <= i < |s.table| && s.table[i].Some? ==> IsHeld(s, i)
  }

  ghost predicate IsHeld(s: Tables, fd: int) {
    exists p: nat, l: nat :: Holds(s, p, l, fd)
  }

  ghost predicate NoLeaks(s: Tables) {
    forall kfd :: kfd in s.kernelFds ==> HasEntry(s.table, kfd)
  }

  ghost predicate HasEntry(t: Table, kfd: int) {
    exists i :: 0 <= i < |t| && t[i].Some? && t[i].value.target == File(kfd)
  }

  /** Live entries and occupied slots correspond one to one, and the kernel
      descriptors obtained by `open` are those of the live file entries. */
  ghost predicate Exact(s: Tables) {
    Inv(s) && NoOrphans(s) && NoLeaks(s)
  }

  // ---------- Opening keeps the invariant ----------

  lemma FreeEntryIsEmpty(s: Tables)
    requires Inv(s)
    ensures Lookup(s.table, FreeEntry(s.table)).None?
    ensures forall p: nat, l: nat :: p < |s.fds| && l < |s.fds[p]| ==> s.fds[p][l] != FreeEntry(s.table)
  {
  }

  lemma InstallKeepsSlots(s: Tables, p: nat, target: Target)
    requires Inv(s) && p < |s.fds| && !target.Unused?
    ensures EntriesLive(Install(s, p, target).table)
    ensures SlotsLive(Install(s, p, target))
    ensures SlotsDistinct(Install(s, p, target))
  {
    FreeEntryIsEmpty(s);
    var s' := Install(s, p, target);
    forall q: nat, m: nat | q < |s'.fds| && m < |s'.fds[q]| && s'.fds[q][m] != -1
      ensures Lookup(s'.table, s'.fds[q][m]).Some?
      ensures s'.fds[q][m] == FreeEntry(s.table) ==> q == p && m == FirstSlot(s.fds[p], -1)
      ensures s'.fds[q][m] != FreeEntry(s.table) ==> m < |s.fds[q]| && s'.fds[q][m] == s.fds[q][m]
    {
    }
  }

  lemma InstallCountsHandles(s: Tables, p: nat, target: Target, d: Reg.DeviceId)
    requires Inv(s) && p < |s.fds|
    ensures HandlesOn(Install(s, p, target).table, d) == HandlesOn(s.table, d) + if target == Device(d) then 1 else 0
  {
    FreeEntryIsEmpty(s);
    var k := FreeEntry(s.table);
    if k < |s.table| {
      HandlesAfterUpdate(s.table, k, Some(Entry(k, 1, target)), d);
    } else {
      assert (s.table + [Some(Entry(k, 1, target))])[..k] == s.table;
    }
  }

  lemma {:induction false} HandlesAfterUpdate(t: Table, k: nat, o: Option<Entry>, d: Reg.DeviceId)
    requires k < |t|
    ensures HandlesOn(t[k := o], d)
         == HandlesOn(t, d)
            - (if t[k].Some? && t[k].value.target == Device(d) then 1 else 0)
            + (if o.Some? && o.value.target == Device(d) then 1 else 0)
  {
    var n := |t| - 1;
    if k < n {
      HandlesAfterUpdate(t[..n], k, o, d);
      assert t[k := o][..n] == t[..n][k := o];
    } else {
      assert t[k := o][..n] == t[..n];
    }
  }

  lemma {:induction false} OpensAfterRecount(es: seq<Reg.Record>, k: nat, count: int, d: Reg.DeviceId)
    requires k < |es|
    ensures OpensOf(Reg.Recounted(es, k, count), d)
         == OpensOf(es, d) + if es[k].device == d then count - es[k].refCount else 0
  {
    var n := |es| - 1;
    if k < n {
      OpensAfterRecount(es[..n], k, count, d);
      assert Reg.Recounted(es, k, count)[..n] == Reg.Recounted(es[..n], k, count);
    } else {
      assert Reg.Recounted(es, k, count)[..n] == es[..n];
    }
  }

  lemma OpenFileKeepsInv(s: Tables, p: nat, outcome: OpenOutcome)
    requires Inv(s) && p < |s.fds|
    requires !outcome.OpenFailed? ==> outcome.kernelFd !in s.kernelFds
    ensures Inv(OpenFile(s, p, outcome).0)
  {
    match outcome
    case OpenFailed =>
    case NoMemory(_, _) =>
    case Got(kfd) =>
      var target := File(kfd);
      InstallKeepsSlots(s, p, target);
      forall d { InstallCountsHandles(s, p, target, d); }
      FilesAfterInstall(s, p, target, s.kernelFds + {kfd});
  }

  lemma FilesAfterInstall(s: Tables, p: nat, target: Target, kernelFds: set<int>)
    requires Inv(s) && p < |s.fds| && s.kernelFds <= kernelFds
    requires target.File? ==> target.kernelFd in kernelFds - s.kernelFds
    ensures FilesDistinct(Install(s, p, target).(kernelFds := kernelFds))
  {
  }

  lemma OpenSocketKeepsInv(s: Tables, p: nat, socket: nat, gotMemory: bool)
    requires Inv(s) && p < |s.fds|
    ensures Inv(OpenSocket(s, p, socket, gotMemory).0)
  {
    if gotMemory {
      var target := Socket(socket);
      InstallKeepsSlots(s, p, target);
      forall d { InstallCountsHandles(s, p, target, d); }
      FilesAfterInstall(s, p, target, s.kernelFds);
    }
  }

  lemma RecordedOpenKeepsInv(s: Tables, k: nat)
    requires Inv(s) && k < |s.devices|
    ensures var devices := Reg.Recounted(s.devices, k, s.devices[k].refCount + 1);
      && Inv(s.(devices := devices))
      && OpensOf(devices, s.devices[k].device) > HandlesOn(s.table, s.devices[k].device)
  {
    var count := s.devices[k].refCount + 1;
    Reg.MeaningAfterRecount(s.devices, k, count);
    forall d ensures HandlesOn(s.table, d) <= OpensOf(Reg.Recounted(s.devices, k, count), d) {
      OpensAfterRecount(s.devices, k, count, d);
    }
    OpensAfterRecount(s.devices, k, count, s.devices[k].device);
  }

  lemma InstallDeviceKeepsInv(s: Tables, p: nat, device: Reg.DeviceId)
    requires Inv(s) && p < |s.fds| && HandlesOn(s.table, device) < OpensOf(s.devices, device)
    ensures Inv(Install(s, p, Device(device)))
  {
    var target := Device(device);
    InstallKeepsSlots(s, p, target);
    forall d { InstallCountsHandles(s, p, target, d); }
    FilesAfterInstall(s, p, target, s.kernelFds);
  }

  lemma OpenDeviceKeepsInv(s: Tables, p: nat, name: string, gotMemory: bool)
    requires Inv(s) && p < |s.fds|
    ensures Inv(OpenDevice(s, p, name, gotMemory).0)
  {
    match Reg.IndexOf(s.devices, name)
    case None =>
    case Some(k) =>
      RecordedOpenKeepsInv(s, k);
      if gotMemory {
        InstallDeviceKeepsInv(s.(devices := Reg.Opened(s.devices, name).0), p, s.devices[k].device);
      }
  }

  // ---------- Closing keeps the invariant ----------

  /** Slot `l` of `p` holds a descriptor whose object the kernel agrees to close. */
  predicate Closes(s: Tables, p: nat, l: nat, ok: bool)
    requires p < |s.fds| && l < |s.fds[p]|
  {
    var e := Lookup(s.table, s.fds[p][l]);
    e.Some? && ObjectCloses(e.value.target, ok)
  }

  /** `s` without the descriptor in slot `l` of process `p`. */
  function Dropped(s: Tables, p: nat, l: nat): Tables
    requires p < |s.fds| && l < |s.fds[p]| && Lookup(s.table, s.fds[p][l]).Some?
  {
    var fd := s.fds[p][l];
    s.(table := s.table[fd := None],
       fds := s.fds[p := s.fds[p][l := -1]],
       kernelFds := KernelAfterClose(s.kernelFds, s.table[fd].value.target))
  }

  /** The first slot that matches is the only one, and the reference count is
      one: a close of what a slot holds drops that slot or changes nothing. */
  lemma CloseDropsOrFails(s: Tables, p: nat, l: nat, ok: bool)
    requires Inv(s) && p < |s.fds| && l < |s.fds[p]|
    ensures Close(s, p, s.fds[p][l], ok) == if Closes(s, p, l, ok) then (Dropped(s, p, l), true) else (s, false)
  {
    var fd := s.fds[p][l];
    if Closes(s, p, l, ok) {
      assert FirstSlot(s.fds[p], fd) == l by {
        assert s.fds[p][FirstSlot(s.fds[p], fd)] == s.fds[p][l];
      }
      assert Unbound(s.fds[p], fd) == s.fds[p][l := -1];
    }
  }

  lemma DropKeepsInv(s: Tables, p: nat, l: nat)
    requires Inv(s) && p < |s.fds| && l < |s.fds[p]| && Lookup(s.table, s.fds[p][l]).Some?
    ensures Inv(Dropped(s, p, l))
  {
    var fd, s' := s.fds[p][l], Dropped(s, p, l);
    forall d ensures HandlesOn(s'.table, d) <= OpensOf(s'.devices, d) {
      HandlesAfterUpdate(s.table, fd, None, d);
    }
    assert SlotsLive(s') by {
      forall q: nat, m: nat | q < |s'.fds| && m < |s'.fds[q]| && s'.fds[q][m] != -1
        ensures Lookup(s'.table, s'.fds[q][m]).Some?
      {
        assert s'.fds[q][m] == s.fds[q][m] != fd;
      }
    }
  }

  lemma CloseKeepsInv(s: Tables, p: nat, l: nat, ok: bool)
    requires Inv(s) && p < |s.fds| && l < |s.fds[p]|
    ensures Inv(Close(s, p, s.fds[p][l], ok).0)
  {
    CloseDropsOrFails(s, p, l, ok);
    if Closes(s, p, l, ok) { DropKeepsInv(s, p, l); }
  }

  // ---------- Tearing a process down ----------

  /** `r` is `s` after process `p` gave up the descriptors in its slots from
      `l` on whose closing worked, and nothing else changed. */
  ghost predicate TornDown(s: Tables, p: nat, l: nat, ok: nat -> bool, r: Tables)
    requires p < |s.fds|
  {
    && |r.fds| == |s.fds| && |r.table| == |s.table| && r.devices == s.devices
    && |r.fds[p]| == |s.fds[p]|
    && (forall q: nat :: q < |s.fds| && q != p ==> r.fds[q] == s.fds[q])
    && (forall m: nat :: m < |s.fds[p]| ==>
          r.fds[p][m] == if m >= l && Closes(s, p, m, ok(m)) then -1 else s.fds[p][m])
    && (forall m: nat :: m < |s.fds[p]| && m >= l && Closes(s, p, m, ok(m)) ==> r.table[s.fds[p][m]].None?)
    && (forall i :: 0 <= i < |s.table| ==>
          r.table[i] == s.table[i] || GivenUp(s, p, l, ok, i))
  }

  ghost predicate GivenUp(s: Tables, p: nat, l: nat, ok: nat -> bool, i: int)
    requires p < |s.fds|
  {
    exists m: nat :: l <= m < |s.fds[p]| && s.fds[p][m] == i && Closes(s, p, m, ok(m))
  }

  lemma {:induction false} TeardownVisitsEverySlotOnce(s: Tables, p: nat, l: nat, ok: nat -> bool)
    requires Inv(s) && p < |s.fds| && l <= |s.fds[p]|
    ensures Inv(CloseFrom(s, p, l, ok))
    ensures TornDown(s, p, l, ok, CloseFrom(s, p, l, ok))
    decreases |s.fds[p]| - l
  {
    if l < |s.fds[p]| {
      CloseDropsOrFails(s, p, l, ok(l));
      if Closes(s, p, l, ok(l)) {
        DropKeepsInv(s, p, l);
        TeardownVisitsEverySlotOnce(Dropped(s, p, l), p, l + 1, ok);
        TornDownAfterDrop(s, p, l, ok, CloseFrom(s, p, l, ok));
      } else {
        TeardownVisitsEverySlotOnce(s, p, l + 1, ok);
        TornDownAfterRefusal(s, p, l, ok, CloseFrom(s, p, l + 1, ok));
      }
    }
  }

  lemma TornDownAfterRefusal(s: Tables, p: nat, l: nat, ok: nat -> bool, r: Tables)
    requires p < |s.fds| && l < |s.fds[p]| && !Closes(s, p, l, ok(l))
    requires TornDown(s, p, l + 1, ok, r)
    ensures TornDown(s, p, l, ok, r)
  {
    forall i | 0 <= i < |s.table| && r.table[i] != s.table[i] ensures GivenUp(s, p, l, ok, i) {
      assert GivenUp(s, p, l + 1, ok, i);
    }
  }

  lemma TornDownAfterDrop(s: Tables, p: nat, l: nat, ok: nat -> bool, r: Tables)
    requires Inv(s) && p < |s.fds| && l < |s.fds[p]| && Closes(s, p, l, ok(l))
    requires TornDown(Dropped(s, p, l), p, l + 1, ok, r)
    ensures TornDown(s, p, l, ok, r)
  {
    var s', fd := Dropped(s, p, l), s.fds[p][l];
    forall m: nat | m < |s.fds[p]| && m != l
      ensures s'.fds[p][m] == s.fds[p][m] && Closes(s', p, m, ok(m)) == Closes(s, p, m, ok(m))
    {
      assert s.fds[p][m] != fd;
    }
    forall i | 0 <= i < |s.table| && r.table[i] != s.table[i] ensures GivenUp(s, p, l, ok, i) {
      if i != fd {
        assert GivenUp(s', p, l + 1, ok, i);
        var m: nat :| l + 1 <= m < |s'.fds[p]| && s'.fds[p][m] == i && Closes(s', p, m, ok(m));
        assert Closes(s, p, m, ok(m));
      }
    }
  }

  lemma ReplaceKeepsInv(s: Tables, p: nat, ok: nat -> bool)
    requires Inv(s) && p < |s.fds|
    ensures Inv(Replace(s, p, ok))
    ensures |Replace(s, p, ok).fds| == |s.fds| && Replace(s, p, ok).fds[p] == []
    ensures forall q: nat :: q < |s.fds| && q != p ==> Replace(s, p, ok).fds[q] == s.fds[q]
  {
    TeardownVisitsEverySlotOnce(s, p, 0, ok);
    var r, r' := CloseAll(s, p, ok), Replace(s, p, ok);
    forall q: nat, m: nat | q < |r'.fds| && m < |r'.fds[q]| ensures q != p && r'.fds[q][m] == r.fds[q][m] {
    }
  }

  lemma HoldersCarryOver(s: Tables, s': Tables)
    requires NoOrphans(s) && s'.table == s.table
    requires |s.fds| <= |s'.fds| && forall q: nat :: q < |s.fds| ==> s'.fds[q] == s.fds[q]
    ensures NoOrphans(s')
  {
    forall i | 0 <= i < |s.table| && s.table[i].Some? ensures IsHeld(s', i) {
      assert IsHeld(s, i);
      var q: nat, m: nat :| Holds(s, q, m, i);
      assert Holds(s', q, m, i);
    }
  }

  lemma AddProcessKeepsInv(s: Tables)
    requires Inv(s)
    ensures Inv(AddProcess(s))
    ensures Exact(s) ==> Exact(AddProcess(s))
  {
    var s' := AddProcess(s);
    forall q: nat, m: nat | q < |s'.fds| && m < |s'.fds[q]|
      ensures q < |s.fds| && s'.fds[q][m] == s.fds[q][m]
    {
    }
    if Exact(s) { HoldersCarryOver(s, s'); }
  }

  // ---------- Exactness ----------

  lemma InstallKeepsExact(s: Tables, p: nat, target: Target)
    requires Exact(s) && p < |s.fds|
    ensures NoOrphans(Install(s, p, target))
    ensures forall kfd :: HasEntry(s.table, kfd) ==> HasEntry(Install(s, p, target).table, kfd)
    ensures target.File? ==> HasEntry(Install(s, p, target).table, target.kernelFd)
  {
    FreeEntryIsEmpty(s);
    var s', k := Install(s, p, target), FreeEntry(s.table);
    assert Holds(s', p, FirstSlot(s.fds[p], -1), k);
    forall i | 0 <= i < |s'.table| && s'.table[i].Some? ensures IsHeld(s', i) {
      if i != k {
        var q: nat, m: nat :| Holds(s, q, m, i);
        assert Holds(s', q, m, i);
      }
    }
    forall kfd | HasEntry(s.table, kfd) ensures HasEntry(s'.table, kfd) {
      var i :| 0 <= i < |s.table| && s.table[i].Some? && s.table[i].value.target == File(kfd);
      assert s'.table[i] == s.table[i];
    }
    assert s'.table[k] == Some(Entry(k, 1, target));
  }

  lemma OpenFileKeepsExact(s: Tables, p: nat, outcome: OpenOutcome)
    requires Exact(s) && p < |s.fds|
    requires !outcome.OpenFailed? ==> outcome.kernelFd !in s.kernelFds
    ensures Exact(OpenFile(s, p, outcome).0) <==> !(outcome.NoMemory? && !outcome.closed)
  {
    OpenFileKeepsInv(s, p, outcome);
    match outcome
    case OpenFailed =>
    case NoMemory(kfd, closed) =>
      assert !HasEntry(s.table, kfd);
      HoldersCarryOver(s, OpenFile(s, p, outcome).0);
    case Got(kfd) =>
      InstallKeepsExact(s, p, File(kfd));
      HoldersCarryOver(Install(s, p, File(kfd)), OpenFile(s, p, outcome).0);
  }

  lemma OpenSocketKeepsExact(s: Tables, p: nat, socket: nat, gotMemory: bool)
    requires Exact(s) && p < |s.fds|
    ensures Exact(OpenSocket(s, p, socket, gotMemory).0)
  {
    OpenSocketKeepsInv(s, p, socket, gotMemory);
    if gotMemory { InstallKeepsExact(s, p, Socket(socket)); }
  }

  lemma OpenDeviceKeepsExact(s: Tables, p: nat, name: string, gotMemory: bool)
    requires Exact(s) && p < |s.fds|
    ensures Exact(OpenDevice(s, p, name, gotMemory).0)
  {
    OpenDeviceKeepsInv(s, p, name, gotMemory);
    var s', device := OpenDevice(s, p, name, gotMemory).0, Reg.Opened(s.devices, name).1;
    if device.Some? && gotMemory {
      InstallKeepsExact(s, p, Device(device.value));
      HoldersCarryOver(Install(s, p, Device(device.value)), s');
    } else {
      HoldersCarryOver(s, s');
    }
  }

  lemma DropKeepsExact(s: Tables, p: nat, l: nat)
    requires Exact(s) && p < |s.fds| && l < |s.fds[p]| && Lookup(s.table, s.fds[p][l]).Some?
    ensures Exact(Dropped(s, p, l))
  {
    DropKeepsInv(s, p, l);
    var fd, s' := s.fds[p][l], Dropped(s, p, l);
    forall i | 0 <= i < |s'.table| && s'.table[i].Some? ensures IsHeld(s', i) {
      var q: nat, m: nat :| Holds(s, q, m, i);
      assert Holds(s', q, m, i);
    }
    forall kfd | kfd in s'.kernelFds ensures HasEntry(s'.table, kfd) {
      var i :| 0 <= i < |s.table| && s.table[i].Some? && s.table[i].value.target == File(kfd);
      assert i != fd && s'.table[i] == s.table[i];
    }
  }

  /** A failed close changes nothing, so exactness survives every close. */
  lemma CloseKeepsExact(s: Tables, p: nat, l: nat, ok: bool)
    requires Exact(s) && p < |s.fds| && l < |s.fds[p]|
    ensures Exact(Close(s, p, s.fds[p][l], ok).0)
  {
    CloseDropsOrFails(s, p, l, ok);
    if Closes(s, p, l, ok) { DropKeepsExact(s, p, l); }
  }

  lemma {:induction false} CloseFromKeepsExact(s: Tables, p: nat, l: nat, ok: nat -> bool)
    requires Exact(s) && p < |s.fds| && l <= |s.fds[p]|
    ensures Exact(CloseFrom(s, p, l, ok))
    decreases |s.fds[p]| - l
  {
    if l < |s.fds[p]| {
      CloseKeepsExact(s, p, l, ok(l));
      CloseDropsOrFails(s, p, l, ok(l));
      CloseFromKeepsExact(if s.fds[p][l] == -1 then s else Close(s, p, s.fds[p][l], ok(l)).0, p, l + 1, ok);
    }
  }

  /** Every close that replacing process `p` attempts is granted. */
  ghost predicate AllClose(s: Tables, p: nat, ok: nat -> bool)
    requires p < |s.fds|
  {
    forall m: nat :: m < |s.fds[p]| && s.fds[p][m] != -1 ==> Closes(s, p, m, ok(m))
  }

  /** That is, what the process has open are devices, or the kernel agrees. */
  lemma AllCloseMeans(s: Tables, p: nat, ok: nat -> bool)
    requires Inv(s) && p < |s.fds|
    ensures AllClose(s, p, ok) <==>
      forall m :: m in Denotes(s, p) ==> Denotes(s, p)[m].Device? || ok(m)
  {
    forall m: nat | m < |s.fds[p]| && s.fds[p][m] != -1
      ensures m in Denotes(s, p) && (Closes(s, p, m, ok(m)) <==> Denotes(s, p)[m].Device? || ok(m))
    {
    }
  }

  /** Exec leaves the tables exact if and only if every close it attempts is
      granted: a refused one orphans its entry for good. */
  lemma ReplaceKeepsExactIffAllClose(s: Tables, p: nat, ok: nat -> bool)
    requires Exact(s) && p < |s.fds|
    ensures Exact(Replace(s, p, ok)) <==> AllClose(s, p, ok)
  {
    CloseFromKeepsExact(s, p, 0, ok);
    TeardownVisitsEverySlotOnce(s, p, 0, ok);
    ReplaceKeepsInv(s, p, ok);
    var r, r' := CloseAll(s, p, ok), Replace(s, p, ok);
    if AllClose(s, p, ok) {
      forall i | 0 <= i < |r'.table| && r'.table[i].Some? ensures IsHeld(r', i) {
        var q: nat, m: nat :| Holds(r, q, m, i);
        assert Holds(r', q, m, i);
      }
    } else {
      var m: nat :| m < |s.fds[p]| && s.fds[p][m] != -1 && !Closes(s, p, m, ok(m));
      RefusedCloseOrphans(s, p, m, ok);
    }
  }

  lemma RefusedCloseOrphans(s: Tables, p: nat, m: nat, ok: nat -> bool)
    requires Inv(s) && p < |s.fds| && m < |s.fds[p]| && s.fds[p][m] != -1 && !Closes(s, p, m, ok(m))
    ensures !NoOrphans(Replace(s, p, ok))
  {
    TeardownVisitsEverySlotOnce(s, p, 0, ok);
    ReplaceKeepsInv(s, p, ok);
    var r', fd := Replace(s, p, ok), s.fds[p][m];
    assert !GivenUp(s, p, 0, ok, fd);
    forall q: nat, l: nat | q < |r'.fds| && l < |r'.fds[q]| ensures r'.fds[q][l] != fd {
      assert q != p && r'.fds[q][l] == s.fds[q][l];
    }
    assert r'.table[fd].Some? && !IsHeld(r', fd);
  }

  // ---------- What the tables mean to a process ----------

  /** The abstract descriptor table of process `p`. */
  ghost function Denotes(s: Tables, p: nat): map<nat, Target>
    requires p < |s.fds|
  {
    map l: nat | l < |s.fds[p]| && Lookup(s.table, s.fds[p][l]).Some? ::
      Lookup(s.table, s.fds[p][l]).value.target
  }

  ghost predicate LowestFree(m: map<nat, Target>, l: nat) {
    l !in m && forall i: nat :: i < l ==> i in m
  }

  /** Opening binds the lowest free local descriptor to the new object and
      changes what no other descriptor of any process denotes. */
  lemma InstallRefinesMap(s: Tables, p: nat, target: Target)
    requires Inv(s) && p < |s.fds|
    ensures var l, s' := FirstSlot(s.fds[p], -1), Install(s, p, target);
      && LowestFree(Denotes(s, p), l)
      && Denotes(s', p) == Denotes(s, p)[l := target]
      && forall q: nat :: q < |s.fds| && q != p ==> Denotes(s', q) == Denotes(s, q)
  {
    FreeEntryIsEmpty(s);
    var l, s', k := FirstSlot(s.fds[p], -1), Install(s, p, target), FreeEntry(s.table);
    assert LowestFree(Denotes(s, p), l);
    forall q: nat, m: nat | q < |s.fds| && m < |s.fds[q]|
      ensures Lookup(s'.table, s.fds[q][m]) == Lookup(s.table, s.fds[q][m])
    {
    }
    assert Denotes(s', p) == Denotes(s, p)[l := target];
    forall q: nat | q < |s.fds| && q != p ensures Denotes(s', q) == Denotes(s, q) {
      assert s'.fds[q] == s.fds[q];
    }
  }

  /** From `s` to `s'`, local descriptor `l` of `p` became bound to `target`
      (or none did), and no other descriptor of any process changed meaning. */
  ghost predicate Binds(s: Tables, p: nat, l: Option<nat>, target: Target, s': Tables)
    requires p < |s.fds|
  {
    && |s'.fds| == |s.fds|
    && (forall q: nat :: q < |s.fds| && q != p ==> Denotes(s', q) == Denotes(s, q))
    && match l
       case None => Denotes(s', p) == Denotes(s, p)
       case Some(l) => LowestFree(Denotes(s, p), l) && Denotes(s', p) == Denotes(s, p)[l := target]
  }

  lemma DenotesSame(s: Tables, s': Tables)
    requires s'.table == s.table && s'.fds == s.fds
    ensures forall q: nat :: q < |s.fds| ==> Denotes(s', q) == Denotes(s, q)
  {
    forall q: nat | q < |s.fds| ensures Denotes(s', q) == Denotes(s, q) {
      assert s'.fds[q] == s.fds[q];
    }
  }

  /** The file bound is one that no process had bound before. */
  lemma OpenFileRefinesMap(s: Tables, p: nat, outcome: OpenOutcome)
    requires Inv(s) && p < |s.fds|
    requires !outcome.OpenFailed? ==> outcome.kernelFd !in s.kernelFds
    ensures var (s', l) := OpenFile(s, p, outcome);
      && (l.Some? <==> outcome.Got?)
      && Binds(s, p, l, if l.Some? then File(outcome.kernelFd) else Unused, s')
    ensures outcome.Got? ==>
      forall q: nat, m :: q < |s.fds| && m in Denotes(s, q) ==> Denotes(s, q)[m] != File(outcome.kernelFd)
  {
    match outcome
    case OpenFailed =>
    case NoMemory(_, _) => DenotesSame(s, OpenFile(s, p, outcome).0);
    case Got(kfd) =>
      InstallRefinesMap(s, p, File(kfd));
      DenotesSame(Install(s, p, File(kfd)), OpenFile(s, p, outcome).0);
  }

  /** Exactly one open is counted, on that name alone, also when there is no memory
      for the descriptor. */
  lemma OpenDeviceRefinesMap(s: Tables, p: nat, name: string, gotMemory: bool)
    requires Inv(s) && p < |s.fds|
    ensures var (s', l) := OpenDevice(s, p, name, gotMemory);
      && (l.Some? <==> name in Reg.Meaning(s.devices) && gotMemory)
      && Binds(s, p, l, if l.Some? then Device(Reg.Meaning(s.devices)[name].device) else Unused, s')
    ensures var (s', meaning) := (OpenDevice(s, p, name, gotMemory).0, Reg.Meaning(s.devices));
      && s'.kernelFds == s.kernelFds
      && Reg.Meaning(s'.devices) ==
           if name in meaning then meaning[name := Reg.Holding(meaning[name].device, meaning[name].count + 1)]
           else meaning
  {
    Reg.OpenRefinesMap(s.devices, name);
    var s', device := OpenDevice(s, p, name, gotMemory).0, Reg.Opened(s.devices, name).1;
    if device.Some? && gotMemory {
      InstallRefinesMap(s, p, Device(device.value));
      DenotesSame(Install(s, p, Device(device.value)), s');
    } else {
      DenotesSame(s, s');
    }
  }

  lemma OpenSocketRefinesMap(s: Tables, p: nat, socket: nat, gotMemory: bool)
    requires Inv(s) && p < |s.fds|
    ensures var (s', l) := OpenSocket(s, p, socket, gotMemory);
      (l.Some? <==> gotMemory) && Binds(s, p, l, Socket(socket), s')
  {
    InstallRefinesMap(s, p, Socket(socket));
  }

  /** From `s` to `s'`, local descriptor `l` of `p` became unbound and no other
      descriptor of any process changed meaning. */
  ghost predicate Unbinds(s: Tables, p: nat, l: nat, s': Tables)
    requires p < |s.fds|
  {
    && |s'.fds| == |s.fds| && |s'.fds[p]| == |s.fds[p]|
    && l in Denotes(s, p) && Denotes(s', p) == Denotes(s, p) - {l}
    && forall q: nat :: q < |s.fds| && q != p ==> Denotes(s', q) == Denotes(s, q)
  }

  /** Closing unbinds exactly the one local descriptor if that stands for a device
      or the kernel agrees, and a second close of it fails and changes nothing.
      No close is counted on a device. */
  lemma CloseRefinesMap(s: Tables, p: nat, l: nat, ok: bool, again: bool)
    requires Inv(s) && p < |s.fds| && l < |s.fds[p]|
    ensures var (s', closed) := Close(s, p, s.fds[p][l], ok);
      && (closed <==> l in Denotes(s, p) && (Denotes(s, p)[l].Device? || ok))
      && (!closed ==> s' == s) && s'.devices == s.devices
      && (closed ==> s'.kernelFds == s.kernelFds - if Denotes(s, p)[l].File? then {Denotes(s, p)[l].kernelFd} else {})
      && (closed ==> Unbinds(s, p, l, s') && Close(s', p, s'.fds[p][l], again) == (s', false))
  {
    CloseDropsOrFails(s, p, l, ok);
    if Closes(s, p, l, ok) {
      var s' := Dropped(s, p, l);
      forall q: nat, m: nat | q < |s.fds| && m < |s.fds[q]| && !(q == p && m == l)
        ensures Lookup(s'.table, s'.fds[q][m]) == Lookup(s.table, s.fds[q][m])
      {
      }
      assert Denotes(s', p) == Denotes(s, p) - {l};
      forall q: nat | q < |s.fds| && q != p ensures Denotes(s', q) == Denotes(s, q) {
        assert s'.fds[q] == s.fds[q];
      }
    }
  }

  /** If a refused close freed the kernel's descriptor all the same, the invariant
      is lost: the kernel may hand the number out again, and then the descriptor
      that could not be closed and the new one denote the same file. */
  lemma RefusedButFreedAliases(s: Tables, p: nat, l: nat, q: nat, kernelFd: int)
    requires Inv(s) && p < |s.fds| && q < |s.fds|
    requires l in Denotes(s, p) && Denotes(s, p)[l] == File(kernelFd)
    ensures var freed := s.(kernelFds := s.kernelFds - {kernelFd});
      var (s', m) := OpenFile(freed, q, Got(kernelFd));
      && !Inv(freed) && kernelFd !in freed.kernelFds
      && m.Some? && (p, l) != (q, m.value)
      && l in Denotes(s', p) && m.value in Denotes(s', q)
      && Denotes(s', p)[l] == Denotes(s', q)[m.value] == File(kernelFd)
  {
    var freed := s.(kernelFds := s.kernelFds - {kernelFd});
    var fd := s.fds[p][l];
    assert s.table[fd].value.target == File(kernelFd);
    assert !FilesDistinct(freed);
    InstallRefinesMap(s, q, File(kernelFd));
    DenotesSame(Install(s, q, File(kernelFd)), OpenFile(freed, q, Got(kernelFd)).0);
  }

  /** What process `p` still denotes if only some of its objects could be closed. */
  ghost function Refused(m: map<nat, Target>, ok: nat -> bool): map<nat, Target> {
    map l | l in m && !m[l].Device? && !ok(l) :: m[l]
  }

  /** After teardown a process denotes exactly what could not be closed, and
      every other process denotes what it did. */
  lemma TeardownRefinesMap(s: Tables, p: nat, ok: nat -> bool)
    requires Inv(s) && p < |s.fds|
    ensures Denotes(CloseAll(s, p, ok), p) == Refused(Denotes(s, p), ok)
    ensures forall q: nat :: q < |s.fds| && q != p ==> Denotes(CloseAll(s, p, ok), q) == Denotes(s, q)
  {
    TeardownVisitsEverySlotOnce(s, p, 0, ok);
    var r := CloseAll(s, p, ok);
    TeardownLeavesRefused(s, p, ok, r);
    forall q: nat | q < |s.fds| && q != p ensures Denotes(r, q) == Denotes(s, q) {
      TeardownSparesOthers(s, p, ok, r, q);
    }
  }

  /** Exec leaves the process without descriptors, and the others alone. */
  lemma ReplaceRefinesMap(s: Tables, p: nat, ok: nat -> bool)
    requires Inv(s) && p < |s.fds|
    ensures |Replace(s, p, ok).fds| == |s.fds| && Denotes(Replace(s, p, ok), p) == map[]
    ensures forall q: nat :: q < |s.fds| && q != p ==> Denotes(Replace(s, p, ok), q) == Denotes(s, q)
  {
    TeardownRefinesMap(s, p, ok);
    var r, r' := CloseAll(s, p, ok), Replace(s, p, ok);
    forall q: nat | q < |s.fds| && q != p ensures Denotes(r', q) == Denotes(r, q) {
      assert r'.fds[q] == r.fds[q];
    }
  }

  lemma TeardownLeavesRefused(s: Tables, p: nat, ok: nat -> bool, r: Tables)
    requires Inv(s) && p < |s.fds| && TornDown(s, p, 0, ok, r)
    ensures Denotes(r, p) == Refused(Denotes(s, p), ok)
  {
    forall m: nat | m < |s.fds[p]| && !Closes(s, p, m, ok(m)) {
      KeptThroughTeardown(s, p, ok, r, p, m);
    }
  }

  lemma TeardownSparesOthers(s: Tables, p: nat, ok: nat -> bool, r: Tables, q: nat)
    requires Inv(s) && p < |s.fds| && TornDown(s, p, 0, ok, r) && q < |s.fds| && q != p
    ensures Denotes(r, q) == Denotes(s, q)
  {
    forall m: nat | m < |s.fds[q]| { KeptThroughTeardown(s, p, ok, r, q, m); }
  }

  lemma KeptThroughTeardown(s: Tables, p: nat, ok: nat -> bool, r: Tables, q: nat, m: nat)
    requires Inv(s) && p < |s.fds| && TornDown(s, p, 0, ok, r)
    requires q < |s.fds| && m < |s.fds[q]| && (q != p || !Closes(s, p, m, ok(m)))
    ensures Lookup(r.table, s.fds[q][m]) == Lookup(s.table, s.fds[q][m])
  {
    var fd := s.fds[q][m];
    if Lookup(s.table, fd).Some? {
      assert !GivenUp(s, p, 0, ok, fd);
    }
  }

  /** Removing a device from the registry never takes one that a live
      descriptor still points to, and keeps the invariant. */
  lemma RemoveSparesOpenDevices(s: Tables, name: string)
    requires Inv(s) && Reg.Removed(s.devices, name).1
    ensures HandlesOn(s.table, s.devices[Reg.IndexOf(s.devices, name).value].device) == 0
    ensures Inv(s.(devices := Reg.Removed(s.devices, name).0))
  {
    var k := Reg.IndexOf(s.devices, name).value;
    Reg.RemoveRefinesMap(s.devices, name);
    forall d ensures HandlesOn(s.table, d) <= OpensOf(Reg.Erased(s.devices, k), d) {
      OpensAfterErase(s.devices, k, d);
    }
    OpensIfAbsent(Reg.Erased(s.devices, k), s.devices[k].device);
    OpensAfterErase(s.devices, k, s.devices[k].device);
  }

  lemma {:induction false} OpensAfterErase(es: seq<Reg.Record>, k: nat, d: Reg.DeviceId)
    requires k < |es|
    ensures OpensOf(Reg.Erased(es, k), d) == OpensOf(es, d) - if es[k].device == d then es[k].refCount else 0
  {
    var n := |es| - 1;
    if k < n {
      OpensAfterErase(es[..n], k, d);
      assert Reg.Erased(es, k)[..n - 1] == Reg.Erased(es[..n], k);
    } else {
      assert Reg.Erased(es, k) == es[..n];
    }
  }

  lemma {:induction false} OpensIfAbsent(es: seq<Reg.Record>, d: Reg.DeviceId)
    requires forall i :: 0 <= i < |es| ==> es[i].device != d
    ensures OpensOf(es, d) == 0
  {
    if es != [] { OpensIfAbsent(es[..|es| - 1], d); }
  }

  /** Registering a device that is new to the registry keeps the invariant. */
  lemma AddDeviceKeepsInv(s: Tables, name: string, device: Option<Reg.DeviceId>, gotMemory: bool)
    requires Inv(s)
    requires device.Some? ==> forall i :: 0 <= i < |s.devices| ==> s.devices[i].device != device.value
    ensures Inv(s.(devices := Reg.Added(s.devices, name, device, gotMemory).0))
    ensures Exact(s) ==> Exact(s.(devices := Reg.Added(s.devices, name, device, gotMemory).0))
  {
    Reg.AddRefinesMap(s.devices, name, device, gotMemory);
    var devices := Reg.Added(s.devices, name, device, gotMemory).0;
    var s' := s.(devices := devices);
    if devices != s.devices {
      assert devices[..|s.devices|] == s.devices;
    }
    if Exact(s) { HoldersCarryOver(s, s'); }
  }
}
