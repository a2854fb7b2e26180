/**
 The loops of system_build (system/builder/system_builder.c:158-490), filling a fresh Runtime. SystemBuild is
 proved to return 0 exactly when the specification Build has a result, and then to leave that result behind.
 */
module SystemBuilder {
  import opened Builder
  import opened TagRuntime
  import opened Tags
  import opened Words

  /** The images after finalize: zeroed, with the sizes of the bound devices' descriptors. */
  function BlankImages(cfg: SystemConfig, reg: Registry, drivers: seq<seq<nat>>, dir: Dir): Images {
    seq(|drivers|, b requires 0 <= b < |drivers| => BlankDriver(cfg, reg, drivers[b], dir))
  }

  function BlankDriver(cfg: SystemConfig, reg: Registry, bound: seq<nat>, dir: Dir): (r: seq<seq<byte>>)
    ensures |r| == |bound|
  {
    seq(|bound|, d requires 0 <= d < |bound| => seq(ImageSize(cfg, reg, bound[d], dir), _ => 0))
  }

  function ImageSize(cfg: SystemConfig, reg: Registry, device: nat, dir: Dir): nat {
    if device < |cfg.devices| && cfg.devices[device].model.Some? && cfg.devices[device].model.value in reg then
      var desc := reg[cfg.devices[device].model.value];
      if dir == In then desc.txBytes else desc.rxBytes
    else 0
  }

  method BackendExists(cfg: SystemConfig, name: string) returns (found: bool)
    ensures found <==> FirstBackend(cfg, name, 0).Some?
  {
    found := false;
    var b := 0;
    while b < |cfg.backends|
      invariant 0 <= b <= |cfg.backends|
      invariant forall k :: 0 <= k < b ==> !BackendNamed(cfg, k, name)
    {
      if cfg.backends[b].name.Some? && cfg.backends[b].name.value == name {
        assert BackendNamed(cfg, b, name);
        return true;
      }
      b := b + 1;
    }
  }

  /** The first loop of system_build and the limit on backends after it. */
  method CheckDevices(cfg: SystemConfig, reg: Registry) returns (ok: bool)
    ensures ok <==> DevicesOk(cfg, reg)
  {
    var i := 0;
    while i < |cfg.devices|
      invariant 0 <= i <= |cfg.devices|
      invariant forall k :: 0 <= k < i ==> DeviceOk(cfg, reg, k)
    {
      var d := cfg.devices[i];
      if d.backend.None? || d.model.None? {
        assert !DeviceOk(cfg, reg, i);
        return false;
      }
      var found := BackendExists(cfg, d.backend.value);
      if !found || d.model.value !in reg {
        assert !DeviceOk(cfg, reg, i);
        return false;
      }
      i := i + 1;
    }
    ok := |cfg.backends| <= MAX_BACKENDS;
  }

  /** ethercat_bind_device */
  method BindDevice(cfg: SystemConfig, bound: seq<nat>, slaveCount: nat, device: nat) returns (ok: bool)
    requires device < |cfg.devices| && forall k :: 0 <= k < |bound| ==> bound[k] < |cfg.devices|
    ensures ok <==> Bindable(cfg, bound, slaveCount, device)
    ensures var position := cfg.devices[device].position;
      ok <==>
        && |bound| < |cfg.devices| && position > 0 && (slaveCount > 0 ==> position <= slaveCount)
        && forall k :: 0 <= k < |bound| ==> cfg.devices[bound[k]].position != position
  {
    if |bound| >= |cfg.devices| {
      return false;
    }
    var position := cfg.devices[device].position;
    if position == 0 || (slaveCount > 0 && position > slaveCount) {
      return false;
    }
    var k := 0;
    while k < |bound|
      invariant 0 <= k <= |bound|
      invariant forall j :: 0 <= j < k ==> cfg.devices[bound[j]].position != position
    {
      if cfg.devices[bound[k]].position == position {
        return false;
      }
      k := k + 1;
    }
    ok := true;
  }

  /** The device loop of one backend. */
  method BindDevices(cfg: SystemConfig, name: string, slaveCount: nat) returns (r: Option<seq<nat>>)
    ensures r == BindPrefix(cfg, name, slaveCount, |cfg.devices|)
  {
    hide Bindable;
    var bound: seq<nat> := [];
    var i := 0;
    while i < |cfg.devices|
      invariant 0 <= i <= |cfg.devices|
      invariant BindPrefix(cfg, name, slaveCount, i) == Some(bound)
    {
      if cfg.devices[i].backend.Some? && cfg.devices[i].backend.value == name {
        var ok := BindDevice(cfg, bound, slaveCount, i);
        if !ok {
          BindFailureIsFinal(cfg, name, slaveCount, i + 1, |cfg.devices|);
          return None;
        }
        bound := bound + [i];
      }
      i := i + 1;
    }
    r := Some(bound);
  }

  lemma {:induction false} BindFailureIsFinal(cfg: SystemConfig, name: string, slaveCount: nat, m: nat, n: nat)
    requires m <= n <= |cfg.devices| && BindPrefix(cfg, name, slaveCount, m).None?
    ensures BindPrefix(cfg, name, slaveCount, n).None?
    decreases n
  {
    if m < n {
      BindFailureIsFinal(cfg, name, slaveCount, m, n - 1);
    }
  }

  /** The backend loop. */
  method BindAllBackends(cfg: SystemConfig, envs: seq<BackendEnv>) returns (r: Option<seq<seq<nat>>>)
    requires |envs| == |cfg.backends|
    ensures r == BindBackends(cfg, envs, |cfg.backends|)
  {
    hide Matching, BindPrefix;
    var drivers: seq<seq<nat>> := [];
    var b := 0;
    while b < |cfg.backends|
      invariant 0 <= b <= |cfg.backends|
      invariant BindBackends(cfg, envs, b) == Some(drivers)
    {
      var backend, env := cfg.backends[b], envs[b];
      if backend.name.None? || backend.ifname.None? || !env.created || !env.initOk {
        BackendFailureIsFinal(cfg, envs, b + 1, |cfg.backends|);
        return None;
      }
      var bound := BindDevices(cfg, backend.name.value, env.slaveCount);
      if bound.None? || !env.finalizeOk {
        BackendFailureIsFinal(cfg, envs, b + 1, |cfg.backends|);
        return None;
      }
      drivers := drivers + [bound.value];
      b := b + 1;
    }
    r := Some(drivers);
  }

  lemma {:induction false} BackendFailureIsFinal(cfg: SystemConfig, envs: seq<BackendEnv>, m: nat, n: nat)
    requires m <= n <= |cfg.backends| == |envs| && BindBackends(cfg, envs, m).None?
    ensures BindBackends(cfg, envs, n).None?
    decreases n
  {
    if m < n {
      BackendFailureIsFinal(cfg, envs, m, n - 1);
    }
  }

  /** The process variables: table entries, and cleared slots of their types. */
  method BuildProcs(rt: Runtime, procs: seq<ProcDesc>) returns (ok: bool)
    requires rt.Valid() && rt.Table() == [] && |procs| <= STORE_SIZE
    modifies rt`tagCount, rt`procCount, rt.entries, rt.procValues
    ensures rt.Valid()
    ensures ok <==> AddProcs([], procs, |procs|).Some?
    ensures ok ==> rt.Table() == AddProcs([], procs, |procs|).value && rt.Mem().proc == ProcSlots(procs)
  {
    hide AddEntry;
    var i := 0;
    while i < |procs|
      invariant 0 <= i <= |procs| && rt.Valid()
      invariant AddProcs([], procs, i) == Some(rt.Table())
      invariant forall k :: 0 <= k < i ==> rt.procValues[k] == Slot(procs[k].typ, CLEARED)
    {
      var rc := rt.TableAdd(ProcEntry(procs[i], i));
      if rc != 0 {
        ProcFailureIsFinal(procs, i + 1, |procs|);
        return false;
      }
      rt.procValues[i] := Slot(procs[i].typ, CLEARED);
      i := i + 1;
    }
    rt.procCount := |procs|;
    assert rt.Mem().proc == ProcSlots(procs);
    ok := true;
  }

  lemma {:induction false} ProcFailureIsFinal(procs: seq<ProcDesc>, m: nat, n: nat)
    requires m <= n <= |procs| && AddProcs([], procs, m).None?
    ensures AddProcs([], procs, n).None?
    decreases n
  {
    if m < n {
      ProcFailureIsFinal(procs, m, n - 1);
    }
  }

  /** One HMI descriptor; `vars` HMI variables have been added before it. */
  method BuildHmi(rt: Runtime, d: HmiDesc, vars: nat) returns (r: Option<nat>)
    requires rt.Valid() && vars <= STORE_SIZE
    modifies rt`tagCount, rt.entries, rt.hmiValues
    ensures rt.Valid()
    ensures match AddHmi(HmiState(old(rt.Table()), old(rt.hmiValues[..vars])), d)
      case None => r == None
      case Some(s) => r == Some(|s.slots|) && |s.slots| <= STORE_SIZE
                      && rt.Table() == s.table && rt.hmiValues[..|s.slots|] == s.slots
  {
    hide HasName, IdOf;
    match d
    case HmiAlias(name, access, aliasOf) =>
      if aliasOf.None? {
        return None;
      }
      var target := rt.FindId(aliasOf.value);
      if target == 0 {
        return None;
      }
      var entry := rt.GetEntry(target);
      var rc := rt.TableAdd(Entry("hmi." + name, entry.value.typ, Alias(target, access)));
      r := if rc == 0 then Some(vars) else None;
    case HmiVariable(name, access, typ, _) =>
      if vars >= STORE_SIZE {
        return None;
      }
      rt.hmiValues[vars] := Slot(typ, CLEARED);
      var rc := rt.TableAdd(Entry("hmi." + name, typ, HmiVar(vars, access)));
      assert rt.hmiValues[..vars + 1] == old(rt.hmiValues[..vars]) + [Slot(typ, CLEARED)];
      r := if rc == 0 then Some(vars + 1) else None;
    case HmiOther(_) =>
      r := None;
  }

  method BuildHmis(rt: Runtime, hmis: seq<HmiDesc>) returns (ok: bool)
    requires rt.Valid()
    modifies rt`tagCount, rt`hmiCount, rt.entries, rt.hmiValues
    ensures rt.Valid()
    ensures match AddHmis(old(rt.Table()), hmis, |hmis|)
      case None => !ok
      case Some(s) => ok && rt.Table() == s.table && rt.Mem().hmi == s.slots
  {
    hide AddHmi;
    ghost var table := rt.Table();
    var vars: nat := 0;
    var i := 0;
    assert rt.hmiValues[..0] == [];
    while i < |hmis|
      invariant 0 <= i <= |hmis| && rt.Valid() && vars <= STORE_SIZE
      invariant AddHmis(table, hmis, i) == Some(HmiState(rt.Table(), rt.hmiValues[..vars]))
    {
      var r := BuildHmi(rt, hmis[i], vars);
      if r.None? {
        HmiFailureIsFinal(table, hmis, i + 1, |hmis|);
        return false;
      }
      vars := r.value;
      i := i + 1;
    }
    rt.hmiCount := vars;
    ok := true;
  }

  lemma {:induction false} HmiFailureIsFinal(table: seq<Entry>, hmis: seq<HmiDesc>, m: nat, n: nat)
    requires m <= n <= |hmis| && AddHmis(table, hmis, m).None?
    ensures AddHmis(table, hmis, n).None?
    decreases n
  {
    if m < n {
      HmiFailureIsFinal(table, hmis, m, n - 1);
    }
  }

  /** system_build_tags_for_device */
  method BuildTagsForDevice(rt: Runtime, deviceName: Option<string>, desc: DeviceDesc, backend: u16, device: u16)
    returns (ok: bool)
    requires rt.Valid()
    modifies rt`tagCount, rt.entries
    ensures rt.Valid()
    ensures ok ==> deviceName.Some?
    ensures deviceName.Some? ==>
      match AddTags(old(rt.Table()), deviceName.value, desc, backend, device, |desc.tags|)
      case None => !ok
      case Some(t) => ok && rt.Table() == t
  {
    hide AddEntry, IoEntry, HasName;
    ghost var table := rt.Table();
    if deviceName.None? {
      return false;
    }
    var i := 0;
    while i < |desc.tags|
      invariant 0 <= i <= |desc.tags| && rt.Valid()
      invariant AddTags(table, deviceName.value, desc, backend, device, i) == Some(rt.Table())
    {
      if !ValidTagDesc(desc.tags[i], desc) {
        TagFailureIsFinal(table, deviceName.value, desc, backend, device, i + 1, |desc.tags|);
        return false;
      }
      var rc := rt.TableAdd(IoEntry(deviceName.value, desc.tags[i], backend, device));
      if rc != 0 {
        TagFailureIsFinal(table, deviceName.value, desc, backend, device, i + 1, |desc.tags|);
        return false;
      }
      i := i + 1;
    }
    ok := true;
  }

  lemma {:induction false} TagFailureIsFinal(table: seq<Entry>, name: string, desc: DeviceDesc, backend: u16, device: u16,
      m: nat, n: nat)
    requires m <= n <= |desc.tags| && AddTags(table, name, desc, backend, device, m).None?
    ensures AddTags(table, name, desc, backend, device, n).None?
    decreases n
  {
    if m < n {
      TagFailureIsFinal(table, name, desc, backend, device, m, n - 1);
    }
  }

  lemma DeviceOkMeans(cfg: SystemConfig, reg: Registry, i: nat)
    requires DevicesOk(cfg, reg) && i < |cfg.devices|
    ensures var d := cfg.devices[i];
      d.backend.Some? && d.model.Some? && FirstBackend(cfg, d.backend.value, 0).Some? && d.model.value in reg
  {
    assert DeviceOk(cfg, reg, i);
  }

  /** The last loop of system_build. */
  method BuildDevices(rt: Runtime, cfg: SystemConfig, reg: Registry) returns (ok: bool)
    requires rt.Valid() && DevicesOk(cfg, reg)
    modifies rt`tagCount, rt.entries
    ensures rt.Valid()
    ensures match AddDevices(old(rt.Table()), cfg, reg, |cfg.devices|)
      case None => !ok
      case Some(t) => ok && rt.Table() == t
  {
    hide AddTags, DeviceOk, Matching;
    ghost var table := rt.Table();
    var i := 0;
    while i < |cfg.devices|
      invariant 0 <= i <= |cfg.devices| && rt.Valid()
      invariant AddDevices(table, cfg, reg, i) == Some(rt.Table())
    {
      DeviceOkMeans(cfg, reg, i);
      var d := cfg.devices[i];
      var backend := FindBackendIndex(cfg, d.backend.value);
      var device := FindBackendDeviceIndex(cfg, i, d.backend.value);
      assert backend.value == FirstBackend(cfg, d.backend.value, 0).value;
      ok := BuildTagsForDevice(rt, d.name, reg[d.model.value], backend.value, device.value);
      if !ok {
        DeviceFailureIsFinal(table, cfg, reg, i + 1, |cfg.devices|);
        return false;
      }
      i := i + 1;
    }
    ok := true;
  }

  lemma {:induction false} DeviceFailureIsFinal(table: seq<Entry>, cfg: SystemConfig, reg: Registry, m: nat, n: nat)
    requires DevicesOk(cfg, reg) && m <= n <= |cfg.devices| && AddDevices(table, cfg, reg, m).None?
    ensures AddDevices(table, cfg, reg, n).None?
    decreases n
  {
    if m < n {
      DeviceFailureIsFinal(table, cfg, reg, m, n - 1);
    }
  }

  /** system_build */
  method SystemBuild(rt: Runtime, cfg: SystemConfig, reg: Registry, envs: seq<BackendEnv>)
    returns (rc: int, drivers: seq<seq<nat>>)
    requires rt.Valid() && rt.Table() == [] && |envs| == |cfg.backends|
    modifies rt`tagCount, rt`procCount, rt`hmiCount, rt`inputs, rt`outputs, rt.entries, rt.procValues, rt.hmiValues
    ensures rt.Valid()
    ensures rc == if Build(cfg, reg, envs).Some? then 0 else -1
    ensures rc == 0 ==>
      var b := Build(cfg, reg, envs).value;
      && drivers == b.drivers && rt.Table() == b.table && rt.Mem().proc == b.proc && rt.Mem().hmi == b.hmi
      && rt.inputs == BlankImages(cfg, reg, drivers, In) && rt.outputs == BlankImages(cfg, reg, drivers, Out)
  {
    rc, drivers := -1, [];
    if cfg.backends == [] || cfg.devices == [] {
      return;
    }
    var ok := CheckDevices(cfg, reg);
    if !ok {
      return;
    }
    rt.inputs, rt.outputs := [], [];
    var bound := BindAllBackends(cfg, envs);
    if bound.None? || |cfg.procVars| > STORE_SIZE {
      return;
    }
    ok := BuildProcs(rt, cfg.procVars);
    if !ok {
      return;
    }
    ok := BuildHmis(rt, cfg.hmiTags);
    if !ok {
      return;
    }
    ok := BuildDevices(rt, cfg, reg);
    if !ok {
      return;
    }
    drivers := bound.value;
    rt.inputs := BlankImages(cfg, reg, drivers, In);
    rt.outputs := BlankImages(cfg, reg, drivers, Out);
    rc := 0;
  }

  /** A built runtime meets what the tag accessors and RangeChecksNeverFire ask for. */
  lemma BuiltRuntimeIsSound(cfg: SystemConfig, reg: Registry, envs: seq<BackendEnv>, mem: Memory)
    requires |envs| == |cfg.backends| && Build(cfg, reg, envs).Some?
    requires var b := Build(cfg, reg, envs).value;
      mem.inputs == BlankImages(cfg, reg, b.drivers, In) && mem.outputs == BlankImages(cfg, reg, b.drivers, Out)
    ensures var b := Build(cfg, reg, envs).value;
      TableOk(cfg, reg, b) && ImagesMatch(cfg, reg, b.drivers, mem)
  {
    BuildMakesTableOk(cfg, reg, envs);
    var b := Build(cfg, reg, envs).value;
    forall k, d | 0 <= k < |b.drivers| && 0 <= d < |b.drivers[k]|
      ensures b.drivers[k][d] < |cfg.devices| && DeviceOk(cfg, reg, b.drivers[k][d])
    {
      assert b.drivers[k] == Matching(cfg, cfg.backends[k].name.value, |cfg.devices|);
    }
  }

  /**
   Every read of an I/O tag of a built runtime, through its id, succeeds with the tag's own size whenever the caller's
   buffer is large enough and offset + size does not wrap.
   */
  lemma BuiltIoTagsReadable(cfg: SystemConfig, reg: Registry, b: Built, mem: Memory, id: nat, outSize: nat)
    requires TableOk(cfg, reg, b) && ImagesMatch(cfg, reg, b.drivers, mem)
    requires 0 < id <= |b.table| && b.table[id - 1].ref.Io?
    requires b.table[id - 1].ref.offset + BuilderTypeSize(b.table[id - 1].typ) < U32
    requires outSize >= TypeSize(b.table[id - 1].typ)
    ensures ReadTag(b.table, mem, id, outSize).Ok?
    ensures |ReadTag(b.table, mem, id, outSize).value| == TypeSize(b.table[id - 1].typ)
  {
    var e := b.table[id - 1];
    RangeChecksNeverFire(cfg, reg, b, mem, e, CLEARED);
  }

  /**
   In every table system_build makes, resolution is unbounded resolution cut off beyond four hops, a write needs every
   link and the final HMI variable read-write, and an alias ends at a variable of its own type, never at I/O.
   */
  lemma BuiltAliasesResolve(cfg: SystemConfig, reg: Registry, envs: seq<BackendEnv>, id: nat, forWrite: bool)
    requires |envs| == |cfg.backends| && Build(cfg, reg, envs).Some?
    requires 0 < id <= |Build(cfg, reg, envs).value.table|
    ensures var t := Build(cfg, reg, envs).value.table;
      && AliasesPointBack(t)
      && Resolve(t, id, forWrite, 0)
         == (if Hops(t, id) <= 4 && (forWrite ==> AllWritable(t, id)) then Chase(t, id) else None)
      && (t[id - 1].ref.Alias? ==> Chase(t, id).Some? && !Chase(t, id).value.ref.Io? && Chase(t, id).value.typ == t[id - 1].typ)
  {
    BuildMakesTableOk(cfg, reg, envs);
    var t := Build(cfg, reg, envs).value.table;
    hide Build, Resolve, Hops, AllWritable, AliasesPointBack;
    ResolverAgreesWithinFourHops(t, id, forWrite);
    if t[id - 1].ref.Alias? {
      AliasEndsAtVariable(t, id);
    }
  }

  /**
   On a built runtime, whose slots have the types of their tags, a successful write is read back through every id that
   resolves to the same slot, bytes or bit.
   */
  lemma BuiltReadAfterWrite(table: seq<Entry>, mem: Memory, id: nat, input: seq<byte>, junk: Bytes4, other: nat, outSize: nat)
    requires SlotsMatch(table, mem.proc, mem.hmi)
    requires WriteTag(table, mem, id, input, junk).Ok? && Resolve(table, other, false, 0).Some?
    requires var w, r := Resolve(table, id, true, 0).value, Resolve(table, other, false, 0).value;
      && FootprintOf(r) == FootprintOf(w) && outSize >= TypeSize(w.typ)
      && (w.typ == TBool ==> input[0] == 0 || input[0] == 1)
    ensures ReadTag(table, WriteTag(table, mem, id, input, junk).value, other, outSize)
         == Ok(input[..TypeSize(Resolve(table, id, true, 0).value.typ)])
  {
    var w, r := Resolve(table, id, true, 0).value, Resolve(table, other, false, 0).value;
    ResolvedIsEntry(table, id, true, 0);
    ResolvedIsEntry(table, other, false, 0);
    hide WriteTag, ReadTag, Resolve;
    assert SlotMatches(w, mem.proc, mem.hmi) && SlotMatches(r, mem.proc, mem.hmi);
    ReadAfterWrite(table, mem, id, input, junk, other, outSize);
  }

  lemma {:induction false} ResolvedIsEntry(table: seq<Entry>, id: nat, forWrite: bool, depth: nat)
    requires Resolve(table, id, forWrite, depth).Some?
    ensures Resolve(table, id, forWrite, depth).value in table
    ensures !Resolve(table, id, forWrite, depth).value.ref.Alias?
    decreases 5 - depth
  {
    match Get(table, id)
    case None =>
    case Some(e) =>
      if e.ref.Alias? {
        ResolvedIsEntry(table, e.ref.target, forWrite, depth + 1);
      }
  }
}
