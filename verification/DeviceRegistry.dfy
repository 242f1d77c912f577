/**
 The registry behind /dev: a list of (name, device, open count) records
 searched by name.  `Devices` is the mutable class; the functions above it
 say what each operation does to the list, and the lemmas say what the list
 means: a map from names to devices with an exact count of open handles.
 */
module DeviceRegistry {
  import opened Options

  type DeviceId = nat

  datatype Record = Record(name: string, device: DeviceId, refCount: int)

  // ---------- Invariant ----------

  ghost predicate UniqueNames(es: seq<Record>) {
    forall i, j :: 0 <= i < j < |es| ==> es[i].name != es[j].name
  }

  ghost predicate UniqueDevices(es: seq<Record>) {
    forall i, j :: 0 <= i < j < |es| ==> es[i].device != es[j].device
  }

  ghost predicate Sound(es: seq<Record>) {
    && UniqueNames(es)
    && forall i :: 0 <= i < |es| ==> es[i].refCount >= 0
  }

  // ---------- The operations, on the list ----------

  ghost predicate IsFirst(es: seq<Record>, name: string, k: nat) {
    k < |es| && es[k].name == name && forall j :: 0 <= j < k ==> es[j].name != name
  }

  function IndexOf(es: seq<Record>, name: string): (r: Option<nat>)
    ensures r.Some? ==> IsFirst(es, name, r.value)
    ensures r.None? ==> forall j :: 0 <= j < |es| ==> es[j].name != name
  {
    if es == [] then None
    else match IndexOf(es[..|es| - 1], name)
      case Some(k) => Some(k)
      case None => if es[|es| - 1].name == name then Some(|es| - 1) else None
  }

  function Added(es: seq<Record>, name: string, device: Option<DeviceId>, gotMemory: bool): (seq<Record>, bool) {
    if IndexOf(es, name).Some? || device.None? || !gotMemory then (es, false)
    else (es + [Record(name, device.value, 0)], true)
  }

  function Erased(es: seq<Record>, k: nat): (r: seq<Record>)
    requires k < |es|
    ensures |r| == |es| - 1
    ensures forall i :: 0 <= i < |r| ==> r[i] == if i < k then es[i] else es[i + 1]
  {
    es[..k] + es[k + 1..]
  }

  function Removed(es: seq<Record>, name: string): (seq<Record>, bool) {
    match IndexOf(es, name)
    case None => (es, false)
    case Some(k) =>
      if es[k].refCount > 0 then (es, false) else (Erased(es, k), true)
  }

  function Recounted(es: seq<Record>, k: nat, count: int): (r: seq<Record>)
    requires k < |es|
    ensures |r| == |es| && r[k].refCount == count
    ensures forall i :: 0 <= i < |es| ==> r[i].name == es[i].name && r[i].device == es[i].device
    ensures forall i :: 0 <= i < |es| && i != k ==> r[i] == es[i]
  {
    es[k := es[k].(refCount := count)]
  }

  function Opened(es: seq<Record>, name: string): (seq<Record>, Option<DeviceId>) {
    match IndexOf(es, name)
    case None => (es, None)
    case Some(k) => (Recounted(es, k, es[k].refCount + 1), Some(es[k].device))
  }

  function Closed(es: seq<Record>, name: string): (seq<Record>, bool) {
    match IndexOf(es, name)
    case None => (es, false)
    case Some(k) =>
      if es[k].refCount <= 0 then (es, false)
      else (Recounted(es, k, es[k].refCount - 1), true)
  }

  function StillOpen(es: seq<Record>): seq<Record> {
    if es == [] then []
    else StillOpen(es[..|es| - 1]) + if es[|es| - 1].refCount > 0 then [es[|es| - 1]] else []
  }

  // ---------- What the list means ----------

  datatype Holding = Holding(device: DeviceId, count: int)

  /** The abstract registry: every name with its device and its open count. */
  ghost function Meaning(es: seq<Record>): map<string, Holding> {
    if es == [] then map[]
    else
      var e := es[|es| - 1];
      Meaning(es[..|es| - 1])[e.name := Holding(e.device, e.refCount)]
  }

  /** `m` agrees with `es` record by record and holds nothing else. */
  ghost predicate Agrees(es: seq<Record>, m: map<string, Holding>) {
    && (forall i :: 0 <= i < |es| ==> es[i].name in m && m[es[i].name] == Holding(es[i].device, es[i].refCount))
    && (forall n :: n in m ==> IndexOf(es, n).Some?)
  }

  lemma FoundIfThere(es: seq<Record>, i: nat)
    requires i < |es|
    ensures IndexOf(es, es[i].name).Some?
  {
    assert es[i].name == es[i].name;
  }

  lemma AgreesNext(es: seq<Record>, e: Record, m: map<string, Holding>)
    requires Agrees(es, m) && forall i :: 0 <= i < |es| ==> es[i].name != e.name
    ensures Agrees(es + [e], m[e.name := Holding(e.device, e.refCount)])
  {
    var es', m' := es + [e], m[e.name := Holding(e.device, e.refCount)];
    assert es'[|es|] == e;
    forall i | 0 <= i < |es| ensures es'[i] == es[i] && es[i].name in m && m'[es[i].name] == m[es[i].name] {
    }
    forall n | n in m' ensures IndexOf(es', n).Some? {
      FoundIfThere(es', if n == e.name then |es| else IndexOf(es, n).value);
    }
  }

  lemma {:induction false} MeaningAgrees(es: seq<Record>)
    requires UniqueNames(es)
    ensures Agrees(es, Meaning(es))
  {
    if es != [] {
      var init, e := es[..|es| - 1], es[|es| - 1];
      assert es == init + [e];
      MeaningAgrees(init);
      AgreesNext(init, e, Meaning(init));
    }
  }

  lemma AgreementIsUnique(es: seq<Record>, m: map<string, Holding>)
    requires UniqueNames(es) && Agrees(es, m)
    ensures Meaning(es) == m
  {
    MeaningAgrees(es);
    forall n | n in m ensures n in Meaning(es) && Meaning(es)[n] == m[n] {
      var k := IndexOf(es, n).value;
      assert es[k].name == n;
    }
    forall n | n in Meaning(es) ensures n in m {
      var k := IndexOf(es, n).value;
      assert es[k].name == n;
    }
  }

  lemma IndexOfLooksUp(es: seq<Record>, name: string)
    requires UniqueNames(es)
    ensures IndexOf(es, name).Some? <==> name in Meaning(es)
    ensures IndexOf(es, name).Some? ==>
      var e := es[IndexOf(es, name).value]; Meaning(es)[name] == Holding(e.device, e.refCount)
  {
    MeaningAgrees(es);
  }

  lemma AddRefinesMap(es: seq<Record>, name: string, device: Option<DeviceId>, gotMemory: bool)
    requires Sound(es)
    ensures var (es', ok) := Added(es, name, device, gotMemory);
      && Sound(es')
      && (ok <==> name !in Meaning(es) && device.Some? && gotMemory)
      && Meaning(es') == if ok then Meaning(es)[name := Holding(device.value, 0)] else Meaning(es)
  {
    IndexOfLooksUp(es, name);
    var (es', ok) := Added(es, name, device, gotMemory);
    if ok {
      assert es'[|es|] == Record(name, device.value, 0);
      assert forall i :: 0 <= i < |es| ==> es'[i] == es[i];
    }
  }

  lemma ErasedKeepsOthers(es: seq<Record>, k: nat, i: nat)
    requires k < |es| && i < |es| && i != k
    ensures es[i] in Erased(es, k)
    ensures IndexOf(Erased(es, k), es[i].name).Some?
  {
    var j := if i < k then i else i - 1;
    assert Erased(es, k)[j] == es[i];
  }

  lemma ErasedStaysUnique(es: seq<Record>, k: nat)
    requires UniqueNames(es) && k < |es|
    ensures UniqueNames(Erased(es, k))
    ensures forall i :: 0 <= i < |es| - 1 ==> Erased(es, k)[i].name != es[k].name
  {
  }

  lemma ErasedAgrees(es: seq<Record>, k: nat, m: map<string, Holding>)
    requires UniqueNames(es) && k < |es| && Agrees(es, m)
    ensures Agrees(Erased(es, k), m - {es[k].name})
  {
    ErasedStaysUnique(es, k);
    forall n | n in m - {es[k].name} ensures IndexOf(Erased(es, k), n).Some? {
      ErasedKeepsOthers(es, k, IndexOf(es, n).value);
    }
  }

  lemma MeaningAfterErase(es: seq<Record>, k: nat)
    requires UniqueNames(es) && k < |es|
    ensures UniqueNames(Erased(es, k))
    ensures Meaning(Erased(es, k)) == Meaning(es) - {es[k].name}
  {
    MeaningAgrees(es);
    ErasedStaysUnique(es, k);
    ErasedAgrees(es, k, Meaning(es));
    AgreementIsUnique(Erased(es, k), Meaning(es) - {es[k].name});
  }

  lemma RecountedAgrees(es: seq<Record>, k: nat, m: map<string, Holding>, count: int)
    requires UniqueNames(es) && k < |es| && Agrees(es, m)
    ensures Agrees(Recounted(es, k, count), m[es[k].name := Holding(es[k].device, count)])
  {
    var es' := Recounted(es, k, count);
    forall n | n == es[k].name || n in m ensures IndexOf(es', n).Some? {
      var i := if n == es[k].name then k else IndexOf(es, n).value;
      assert es'[i].name == n;
    }
  }

  lemma MeaningAfterRecount(es: seq<Record>, k: nat, count: int)
    requires Sound(es) && k < |es| && count >= 0
    ensures Sound(Recounted(es, k, count))
    ensures Meaning(Recounted(es, k, count)) == Meaning(es)[es[k].name := Holding(es[k].device, count)]
  {
    MeaningAgrees(es);
    RecountedAgrees(es, k, Meaning(es), count);
    AgreementIsUnique(Recounted(es, k, count), Meaning(es)[es[k].name := Holding(es[k].device, count)]);
  }

  lemma RemoveRefinesMap(es: seq<Record>, name: string)
    requires Sound(es)
    ensures var (es', ok) := Removed(es, name);
      && Sound(es')
      && (ok <==> name in Meaning(es) && Meaning(es)[name].count == 0)
      && Meaning(es') == if ok then Meaning(es) - {name} else Meaning(es)
  {
    IndexOfLooksUp(es, name);
    match IndexOf(es, name)
    case None =>
    case Some(k) => MeaningAfterErase(es, k);
  }

  lemma OpenRefinesMap(es: seq<Record>, name: string)
    requires Sound(es)
    ensures Sound(Opened(es, name).0)
    ensures match Opened(es, name).1
      case None => name !in Meaning(es) && Opened(es, name).0 == es
      case Some(v) =>
        && name in Meaning(es) && v == Meaning(es)[name].device
        && Meaning(Opened(es, name).0) == Meaning(es)[name := Holding(v, Meaning(es)[name].count + 1)]
  {
    IndexOfLooksUp(es, name);
    match IndexOf(es, name)
    case None =>
    case Some(k) =>
      MeaningAfterRecount(es, k, es[k].refCount + 1);
      assert Opened(es, name) == (Recounted(es, k, es[k].refCount + 1), Some(es[k].device));
      assert Meaning(es)[name] == Holding(es[k].device, es[k].refCount);
  }

  lemma CloseRefinesMap(es: seq<Record>, name: string)
    requires Sound(es)
    ensures Sound(Closed(es, name).0)
    ensures Closed(es, name).1 <==> name in Meaning(es) && Meaning(es)[name].count > 0
    ensures if Closed(es, name).1
      then var h := Meaning(es)[name];
        Meaning(Closed(es, name).0) == Meaning(es)[name := Holding(h.device, h.count - 1)]
      else Closed(es, name).0 == es
  {
    IndexOfLooksUp(es, name);
    match IndexOf(es, name)
    case None =>
    case Some(k) =>
      if es[k].refCount > 0 { MeaningAfterRecount(es, k, es[k].refCount - 1); }
  }

  /** The names in list order. */
  function Names(es: seq<Record>): (r: seq<string>)
    ensures |r| == |es| && forall i :: 0 <= i < |r| ==> r[i] == es[i].name
  {
    seq(|es|, i requires 0 <= i < |es| => es[i].name)
  }

  /** A new name goes to the end, a removed one leaves the others in their order,
      and opening and closing move nothing. */
  lemma OrderIsKept(es: seq<Record>, name: string, device: Option<DeviceId>, gotMemory: bool)
    requires UniqueNames(es)
    ensures es <= Added(es, name, device, gotMemory).0
    ensures Names(Opened(es, name).0) == Names(Closed(es, name).0) == Names(es)
    ensures var (es', ok) := Removed(es, name);
      ok ==> exists k :: 0 <= k < |es| && es[k].name == name && es' == es[..k] + es[k + 1..]
  {
    if Removed(es, name).1 {
      var k := IndexOf(es, name).value;
      assert es[k].name == name && Removed(es, name).0 == es[..k] + es[k + 1..];
    }
  }

  // ---------- Histories ----------

  datatype Op =
    | Add(name: string, device: Option<DeviceId>, gotMemory: bool)
    | Remove(name: string)
    | Open(name: string)
    | Close(name: string)

  function Apply(es: seq<Record>, op: Op): (seq<Record>, bool) {
    match op
    case Add(name, device, gotMemory) => Added(es, name, device, gotMemory)
    case Remove(name) => Removed(es, name)
    case Open(name) => var (es', d) := Opened(es, name); (es', d.Some?)
    case Close(name) => Closed(es, name)
  }

  /** The list after a history of calls on an empty registry. */
  function After(ops: seq<Op>): seq<Record> {
    if ops == [] then [] else Apply(After(ops[..|ops| - 1]), ops[|ops| - 1]).0
  }

  /** Whether call number `i` of the history reported success. */
  predicate Succeeded(ops: seq<Op>, i: nat)
    requires i < |ops|
  {
    Apply(After(ops[..i]), ops[i]).1
  }

  /** How often `op` succeeded from call number `from` on. */
  function Successes(ops: seq<Op>, from: nat, op: Op): nat
    requires from <= |ops|
  {
    if from == |ops| then 0
    else Successes(ops[..|ops| - 1], from, op)
         + if ops[|ops| - 1] == op && Succeeded(ops, |ops| - 1) then 1 else 0
  }

  lemma ApplyRefinesMap(es: seq<Record>, op: Op)
    requires Sound(es)
    ensures var (es', ok) := Apply(es, op);
      && Sound(es')
      && (forall n :: n != op.name ==> (n in Meaning(es') <==> n in Meaning(es)))
      && (forall n :: n != op.name && n in Meaning(es) ==> Meaning(es')[n] == Meaning(es)[n])
  {
    match op
    case Add(name, device, gotMemory) => AddRefinesMap(es, name, device, gotMemory);
    case Remove(name) => RemoveRefinesMap(es, name);
    case Open(name) => OpenRefinesMap(es, name);
    case Close(name) => CloseRefinesMap(es, name);
  }

  lemma {:induction false} HistoriesAreSound(ops: seq<Op>)
    ensures Sound(After(ops))
  {
    if ops != [] {
      HistoriesAreSound(ops[..|ops| - 1]);
      ApplyRefinesMap(After(ops[..|ops| - 1]), ops[|ops| - 1]);
    }
  }

  /** After `name` was added by call `a` and not removed since, its count is
      the successful opens minus the successful closes since that call. */
  ghost predicate AddedAndKept(ops: seq<Op>, a: nat, name: string) {
    && a < |ops| && ops[a].Add? && ops[a].name == name && Succeeded(ops, a)
    && forall i :: a < i < |ops| && ops[i] == Remove(name) ==> !Succeeded(ops, i)
  }

  lemma KeptBefore(ops: seq<Op>, a: nat, name: string)
    requires AddedAndKept(ops, a, name) && a < |ops| - 1
    ensures AddedAndKept(ops[..|ops| - 1], a, name)
  {
    var init := ops[..|ops| - 1];
    forall i | a <= i < |init| ensures init[i] == ops[i] && Succeeded(init, i) == Succeeded(ops, i) {
      assert init[..i] == ops[..i];
    }
  }

  lemma {:induction false} CountIsOpensMinusCloses(ops: seq<Op>, a: nat, name: string)
    requires AddedAndKept(ops, a, name)
    ensures name in Meaning(After(ops))
    ensures Meaning(After(ops))[name].device == ops[a].device.value
    ensures Meaning(After(ops))[name].count
         == Successes(ops, a + 1, Open(name)) - Successes(ops, a + 1, Close(name))
  {
    var init, last := ops[..|ops| - 1], ops[|ops| - 1];
    var es := After(init);
    HistoriesAreSound(init);
    if a == |ops| - 1 {
      AddRefinesMap(es, name, last.device, last.gotMemory);
    } else {
      KeptBefore(ops, a, name);
      CountIsOpensMinusCloses(init, a, name);
      assert init[a] == ops[a];
      if last.name != name {
        ApplyRefinesMap(es, last);
      } else {
        match last
        case Add(_, device, gotMemory) => AddRefinesMap(es, name, device, gotMemory);
        case Remove(_) => RemoveRefinesMap(es, name);
        case Open(_) => OpenRefinesMap(es, name);
        case Close(_) => CloseRefinesMap(es, name);
      }
    }
  }

  // ---------- The mutable registry ----------

  /** The list part-way through the destructor's loop, which has looked at the
      first `done` of the original entries. */
  function Swept(was: seq<Record>, done: nat): seq<Record>
    requires done <= |was|
  {
    StillOpen(was[..done]) + was[done..]
  }

  lemma StillOpenNext(es: seq<Record>, e: Record)
    ensures StillOpen(es + [e]) == StillOpen(es) + if e.refCount > 0 then [e] else []
  {
    assert (es + [e])[..|es|] == es;
  }

  lemma SweepOne(was: seq<Record>, done: nat)
    requires done < |was|
    ensures var i := |StillOpen(was[..done])|;
      && i < |Swept(was, done)| && Swept(was, done)[i] == was[done]
      && if was[done].refCount > 0
         then Swept(was, done + 1) == Swept(was, done) && |StillOpen(was[..done + 1])| == i + 1
         else Swept(was, done + 1) == Erased(Swept(was, done), i) && |StillOpen(was[..done + 1])| == i
  {
    var kept, e, rest := StillOpen(was[..done]), was[done], was[done + 1..];
    assert was[..done + 1] == was[..done] + [e];
    StillOpenNext(was[..done], e);
    assert was[done..] == [e] + rest;
    PassOver(kept, e, rest);
  }

  lemma PassOver(kept: seq<Record>, e: Record, rest: seq<Record>)
    ensures kept + ([e] + rest) == kept + [e] + rest
    ensures Erased(kept + ([e] + rest), |kept|) == kept + [] + rest
  {
  }

  /** Removing the first entry not yet passed over, as part of the sweep. */
  lemma SweepStep(was: seq<Record>, done: nat, es: seq<Record>)
    requires done < |was| && es == Swept(was, done) && UniqueNames(es)
    ensures var i := |StillOpen(was[..done])|;
      && i < |es| && Removed(es, es[i].name) == (Swept(was, done + 1), was[done].refCount <= 0)
      && |StillOpen(was[..done + 1])| == if was[done].refCount <= 0 then i else i + 1
  {
    SweepOne(was, done);
    FirstOfItsName(es, |StillOpen(was[..done])|);
  }

  class Devices {
    var entries: seq<Record>

    ghost predicate Valid()
      reads this
    {
      Sound(entries)
    }

    constructor ()
      ensures Valid() && entries == []
    {
      entries := [];
    }

    method GetIndex(name: string) returns (r: Option<nat>)
      ensures r == IndexOf(entries, name)
    {
      for i := 0 to |entries|
        invariant forall j :: 0 <= j < i ==> entries[j].name != name
      {
        if entries[i].name == name {
          return Some(i);
        }
      }
      r := None;
    }

    method Exists(name: string) returns (r: bool)
      requires Valid()
      ensures r <==> name in Meaning(entries)
    {
      var index := GetIndex(name);
      IndexOfLooksUp(entries, name);
      r := index.Some?;
    }

    method Add(name: string, device: Option<DeviceId>, gotMemory: bool) returns (ok: bool)
      requires Valid()
      modifies this
      ensures Valid() && (entries, ok) == Added(old(entries), name, device, gotMemory)
    {
      AddRefinesMap(entries, name, device, gotMemory);
      var taken := Exists(name);
      IndexOfLooksUp(entries, name);
      if taken || device.None? || !gotMemory {
        return false;
      }
      entries := entries + [Record(name, device.value, 0)];
      ok := true;
    }

    method Remove(name: string) returns (ok: bool)
      requires Valid()
      modifies this
      ensures Valid() && (entries, ok) == Removed(old(entries), name)
    {
      RemoveRefinesMap(entries, name);
      var index := GetIndex(name);
      if index.None? || entries[index.value].refCount > 0 {
        return false;
      }
      entries := entries[..index.value] + entries[index.value + 1..];
      ok := true;
    }

    method Open(name: string) returns (device: Option<DeviceId>)
      requires Valid()
      modifies this
      ensures Valid() && (entries, device) == Opened(old(entries), name)
    {
      OpenRefinesMap(entries, name);
      var index := GetIndex(name);
      if index.None? {
        return None;
      }
      var e := entries[index.value];
      entries := entries[index.value := e.(refCount := e.refCount + 1)];
      device := Some(e.device);
    }

    method Close(name: string) returns (ok: bool)
      requires Valid()
      modifies this
      ensures Valid() && (entries, ok) == Closed(old(entries), name)
    {
      CloseRefinesMap(entries, name);
      var index := GetIndex(name);
      if index.None? || entries[index.value].refCount <= 0 {
        return false;
      }
      var e := entries[index.value];
      entries := entries[index.value := e.(refCount := e.refCount - 1)];
      ok := true;
    }

    /** The destructor's loop: removing while indexing into the shrinking list. */
    method Destroy()
      requires Valid()
      modifies this
      ensures Valid() && entries == StillOpen(old(entries))
    {
      var i := 0;
      ghost var was, done := entries, 0;
      while i < |entries|
        invariant Valid() && done <= |was| && i == |StillOpen(was[..done])|
        invariant entries == Swept(was, done)
        decreases |entries| - i
      {
        SweepStep(was, done, entries);
        var removed := Remove(entries[i].name);
        if !removed {
          i := i + 1;
        }
        done := done + 1;
      }
      assert was[..done] == was && was[done..] == [];
    }
  }

  lemma FirstOfItsName(es: seq<Record>, i: nat)
    requires UniqueNames(es) && i < |es|
    ensures IndexOf(es, es[i].name) == Some(i)
  {
    var r := IndexOf(es, es[i].name);
    assert r.Some? && es[r.value].name == es[i].name;
  }

  /** `at` lists, in order, the positions of exactly the entries with a positive
      count, and what stands there is `kept`. */
  ghost predicate OrderedRemainder(es: seq<Record>, at: seq<nat>, kept: seq<Record>) {
    && |at| == |kept|
    && (forall i :: 0 <= i < |at| ==> at[i] < |es| && es[at[i]] == kept[i])
    && (forall i, j :: 0 <= i < j < |at| ==> at[i] < at[j])
    && (forall k: nat :: k < |es| ==> (k in at <==> es[k].refCount > 0))
  }

  lemma RemainderNext(es: seq<Record>, e: Record, at: seq<nat>, kept: seq<Record>)
    requires OrderedRemainder(es, at, kept)
    ensures e.refCount > 0 ==> OrderedRemainder(es + [e], at + [|es|], kept + [e])
    ensures e.refCount <= 0 ==> OrderedRemainder(es + [e], at, kept)
  {
    var es', at' := es + [e], at + [|es|];
    assert es'[|es|] == e;
    assert forall k :: 0 <= k < |es| ==> es'[k] == es[k];
    assert |es| !in at;
    forall k: nat ensures k in at' <==> k in at || k == |es| {
      assert at'[|at|] == |es|;
      if k in at {
        var i :| 0 <= i < |at| && at[i] == k;
        assert at'[i] == k;
      }
    }
  }

  /** Exactly the entries with a positive count survive, in their old order:
      `at` gives each survivor's old position. */
  lemma {:induction false} StillOpenIsTheOrderedRemainder(es: seq<Record>) returns (at: seq<nat>)
    ensures OrderedRemainder(es, at, StillOpen(es))
  {
    at := [];
    if es != [] {
      var init, e := es[..|es| - 1], es[|es| - 1];
      assert es == init + [e];
      at := StillOpenIsTheOrderedRemainder(init);
      RemainderNext(init, e, at, StillOpen(init));
      if e.refCount > 0 {
        at := at + [|init|];
      }
    }
  }
}
