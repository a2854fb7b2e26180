/**
 system_build (system/builder/system_builder.c): from a configuration to the tag table, the stores and the
 bound devices. The descriptor registry is a map; what the hardware answers while a backend is created,
 initialised and finalised is an input per backend.
 */
module Builder {
  import opened TagRuntime
  import opened Tags
  import opened Words

  const MAX_BACKENDS: nat := 4

  /** `dir == None` is a value outside the enumeration; `name == None` is a null pointer, here and below. */
  datatype TagDesc = TagDesc(name: Option<string>, dir: Option<Dir>, typ: TagType, offset: u32, bit: nat)

  datatype DeviceDesc = DeviceDesc(rxBytes: u32, txBytes: u32, tags: seq<TagDesc>)

  datatype BackendConfig = BackendConfig(name: Option<string>, ifname: Option<string>)

  datatype DeviceConfig = DeviceConfig(name: Option<string>, model: Option<string>, backend: Option<string>, position: u16)

  datatype ProcDesc = ProcDesc(name: string, typ: TagType, initial: Bytes4)

  /** HMI_RO is 0, HMI_RW is 1; HmiOther is a kind outside the enumeration. */
  datatype HmiDesc =
    | HmiAlias(name: string, access: nat, aliasOf: Option<string>)
    | HmiVariable(name: string, access: nat, typ: TagType, initial: Bytes4)
    | HmiOther(name: string)

  datatype SystemConfig = SystemConfig(
    backends: seq<BackendConfig>,
    devices: seq<DeviceConfig>,
    procVars: seq<ProcDesc>,
    hmiTags: seq<HmiDesc>
  )

  type Registry = map<string, DeviceDesc>

  /** What creating, initialising and finalising one backend answers. */
  datatype BackendEnv = BackendEnv(created: bool, initOk: bool, slaveCount: nat, finalizeOk: bool)

  // ---------------------------------------------------------------- names and indices

  ghost predicate BackendNamed(cfg: SystemConfig, b: nat, name: string) {
    b < |cfg.backends| && cfg.backends[b].name == Some(name)
  }

  /** find_backend_index: the first backend with the name. */
  method FindBackendIndex(cfg: SystemConfig, name: string) returns (index: Option<u16>)
    requires |cfg.backends| <= MAX_BACKENDS
    ensures match index
      case None => forall b :: 0 <= b < |cfg.backends| ==> !BackendNamed(cfg, b, name)
      case Some(i) => BackendNamed(cfg, i, name) && forall b :: 0 <= b < i ==> !BackendNamed(cfg, b, name)
  {
    var i := 0;
    while i < |cfg.backends|
      invariant 0 <= i <= |cfg.backends|
      invariant forall b :: 0 <= b < i ==> !BackendNamed(cfg, b, name)
    {
      if cfg.backends[i].name.Some? && cfg.backends[i].name.value == name {
        return Some(i);
      }
      i := i + 1;
    }
    index := None;
  }

  ghost function FirstBackend(cfg: SystemConfig, name: string, from: nat): Option<nat>
    requires from <= |cfg.backends|
    ensures match FirstBackend(cfg, name, from)
      case None => forall b :: from <= b < |cfg.backends| ==> !BackendNamed(cfg, b, name)
      case Some(i) => from <= i && BackendNamed(cfg, i, name) && forall b :: from <= b < i ==> !BackendNamed(cfg, b, name)
    decreases |cfg.backends| - from
  {
    if from == |cfg.backends| then None
    else if cfg.backends[from].name == Some(name) then Some(from)
    else FirstBackend(cfg, name, from + 1)
  }

  /** The configured devices below `n` that belong to the backend called `name`, in order. */
  ghost function Matching(cfg: SystemConfig, name: string, n: nat): (r: seq<nat>)
    requires n <= |cfg.devices|
    ensures |r| <= n && forall k :: 0 <= k < |r| ==> r[k] < n && cfg.devices[r[k]].backend == Some(name)
  {
    if n == 0 then []
    else
      var before := Matching(cfg, name, n - 1);
      if cfg.devices[n - 1].backend == Some(name) then before + [n - 1] else before
  }

  /** A device's place among those of its backend is the number of them before it. */
  lemma {:induction false} PlaceInMatching(cfg: SystemConfig, name: string, i: nat, n: nat)
    requires i < n <= |cfg.devices| && cfg.devices[i].backend == Some(name)
    ensures |Matching(cfg, name, i)| < |Matching(cfg, name, n)|
    ensures Matching(cfg, name, n)[|Matching(cfg, name, i)|] == i
  {
    if n > i + 1 {
      PlaceInMatching(cfg, name, i, n - 1);
    }
  }

  /** find_backend_device_index: counts in 16 bits, wrapping. */
  method FindBackendDeviceIndex(cfg: SystemConfig, device: nat, name: string) returns (index: Option<u16>)
    ensures match index
      case None => device >= |cfg.devices| || cfg.devices[device].backend != Some(name)
      case Some(k) => device < |cfg.devices| && cfg.devices[device].backend == Some(name)
                      && k == Trunc16(|Matching(cfg, name, device)|)
  {
    var count: u16 := 0;
    var i := 0;
    while i < |cfg.devices|
      invariant 0 <= i <= |cfg.devices|
      invariant count == Trunc16(|Matching(cfg, name, i)|)
      invariant device < i ==> cfg.devices[device].backend != Some(name)
    {
      if cfg.devices[i].backend.Some? && cfg.devices[i].backend.value == name {
        if i == device {
          return Some(count);
        }
        count := Trunc16(count + 1);
      }
      i := i + 1;
    }
    index := None;
  }

  // ---------------------------------------------------------------- binding

  ghost predicate PositionTaken(cfg: SystemConfig, bound: seq<nat>, position: u16)
    requires forall k :: 0 <= k < |bound| ==> bound[k] < |cfg.devices|
  {
    exists k :: 0 <= k < |bound| && cfg.devices[bound[k]].position == position
  }

  ghost predicate Bindable(cfg: SystemConfig, bound: seq<nat>, slaveCount: nat, i: nat)
    requires i < |cfg.devices| && forall k :: 0 <= k < |bound| ==> bound[k] < |cfg.devices|
  {
    var position := cfg.devices[i].position;
    && |bound| < |cfg.devices| && position != 0 && (slaveCount == 0 || position <= slaveCount)
    && !PositionTaken(cfg, bound, position)
  }

  /** Binding, in configuration order, the devices below `n` that name this backend. */
  ghost function BindPrefix(cfg: SystemConfig, name: string, slaveCount: nat, n: nat): (r: Option<seq<nat>>)
    requires n <= |cfg.devices|
    ensures r.Some? ==> r.value == Matching(cfg, name, n)
  {
    if n == 0 then Some([])
    else
      match BindPrefix(cfg, name, slaveCount, n - 1)
      case None => None
      case Some(bound) =>
        if cfg.devices[n - 1].backend != Some(name) then Some(bound)
        else if Bindable(cfg, bound, slaveCount, n - 1) then Some(bound + [n - 1])
        else None
  }

  ghost predicate PositionsDistinct(cfg: SystemConfig, bound: seq<nat>)
    requires forall k :: 0 <= k < |bound| ==> bound[k] < |cfg.devices|
  {
    && (forall k :: 0 <= k < |bound| ==> cfg.devices[bound[k]].position != 0)
    && (forall k, l :: 0 <= k < l < |bound| ==> cfg.devices[bound[k]].position != cfg.devices[bound[l]].position)
  }

  lemma {:induction false} BoundPositionsDistinct(cfg: SystemConfig, name: string, slaveCount: nat, n: nat)
    requires n <= |cfg.devices| && BindPrefix(cfg, name, slaveCount, n).Some?
    ensures PositionsDistinct(cfg, BindPrefix(cfg, name, slaveCount, n).value)
  {
    if n > 0 {
      BoundPositionsDistinct(cfg, name, slaveCount, n - 1);
    }
  }

  lemma {:induction false} DistinctFit(values: seq<int>, limit: nat)
    requires forall k :: 0 <= k < |values| ==> 0 < values[k] <= limit
    requires forall k, l :: 0 <= k < l < |values| ==> values[k] != values[l]
    ensures |values| <= limit
    decreases limit
  {
    if k :| 0 <= k < |values| && values[k] == limit {
      DistinctFit(values[..k] + values[k + 1..], limit - 1);
    } else if values != [] {
      assert values[0] != limit;
      DistinctFit(values, limit - 1);
    }
  }

  /** One backend cannot have bound more than 65535 devices: positions are 16 bits, nonzero and distinct. */
  lemma FewEnoughDevices(cfg: SystemConfig, name: string, slaveCount: nat)
    requires BindPrefix(cfg, name, slaveCount, |cfg.devices|).Some?
    ensures |Matching(cfg, name, |cfg.devices|)| < 0x1_0000
  {
    BoundPositionsDistinct(cfg, name, slaveCount, |cfg.devices|);
    var bound := Matching(cfg, name, |cfg.devices|);
    DistinctFit(seq(|bound|, k requires 0 <= k < |bound| => cfg.devices[bound[k]].position), 0xFFFF);
  }

  ghost function BindBackends(cfg: SystemConfig, envs: seq<BackendEnv>, n: nat): (r: Option<seq<seq<nat>>>)
    requires n <= |cfg.backends| == |envs|
    ensures r.Some? ==> |r.value| == n
    ensures r.Some? ==> forall b :: 0 <= b < n ==>
        cfg.backends[b].name.Some? && r.value[b] == Matching(cfg, cfg.backends[b].name.value, |cfg.devices|)
  {
    if n == 0 then Some([])
    else
      match BindBackends(cfg, envs, n - 1)
      case None => None
      case Some(drivers) =>
        var backend, env := cfg.backends[n - 1], envs[n - 1];
        if backend.name.None? || backend.ifname.None? || !env.created || !env.initOk then None
        else
          match BindPrefix(cfg, backend.name.value, env.slaveCount, |cfg.devices|)
          case None => None
          case Some(bound) => if env.finalizeOk then Some(drivers + [bound]) else None
  }

  lemma {:induction false} BackendBound(cfg: SystemConfig, envs: seq<BackendEnv>, n: nat, b: nat)
    requires b < n <= |cfg.backends| == |envs| && BindBackends(cfg, envs, n).Some?
    ensures cfg.backends[b].name.Some?
    ensures BindPrefix(cfg, cfg.backends[b].name.value, envs[b].slaveCount, |cfg.devices|).Some?
  {
    if b < n - 1 {
      BackendBound(cfg, envs, n - 1, b);
    }
  }

  /**
   Addressing: after a successful build, the pair that find_backend_index and find_backend_device_index
   compute for a configured device selects that very device among the bound ones; the 16-bit count has not wrapped.
   */
  lemma AddressSelectsOwner(cfg: SystemConfig, envs: seq<BackendEnv>, i: nat, b: nat)
    requires |envs| == |cfg.backends| && BindBackends(cfg, envs, |cfg.backends|).Some?
    requires i < |cfg.devices| && cfg.devices[i].backend.Some?
    requires BackendNamed(cfg, b, cfg.devices[i].backend.value)
    ensures var drivers := BindBackends(cfg, envs, |cfg.backends|).value;
      var d := Trunc16(|Matching(cfg, cfg.devices[i].backend.value, i)|);
      d < |drivers[b]| && drivers[b][d] == i
  {
    var name := cfg.devices[i].backend.value;
    BackendBound(cfg, envs, |cfg.backends|, b);
    PlaceFits(cfg, name, envs[b].slaveCount, i);
    assert BindBackends(cfg, envs, |cfg.backends|).value[b] == Matching(cfg, name, |cfg.devices|);
    hide Matching, BindPrefix, BindBackends, Trunc16;
  }

  lemma PlaceFits(cfg: SystemConfig, name: string, slaveCount: nat, i: nat)
    requires BindPrefix(cfg, name, slaveCount, |cfg.devices|).Some?
    requires i < |cfg.devices| && cfg.devices[i].backend == Some(name)
    ensures var d := Trunc16(|Matching(cfg, name, i)|);
      d < |Matching(cfg, name, |cfg.devices|)| && Matching(cfg, name, |cfg.devices|)[d] == i
  {
    hide Matching, BindPrefix;
    FewEnoughDevices(cfg, name, slaveCount);
    PlaceInMatching(cfg, name, i, |cfg.devices|);
    SmallCountIsKept(|Matching(cfg, name, i)|);
    hide Trunc16;
  }

  lemma SmallCountIsKept(n: nat)
    requires n < 0x1_0000
    ensures Trunc16(n) == n
  {
  }

  // ---------------------------------------------------------------- validating I/O tags

  /** tag_type_size of the builder, which knows no BOOL. */
  function BuilderTypeSize(t: TagType): nat {
    match t
    case TU8 => 1
    case TU16 => 2
    case TU32 => 4
    case TReal => 4
    case TBool => 0
    case TOther => 0
  }

  /** validate_tag_desc; the end offset is a 32-bit sum. */
  predicate ValidTagDesc(tag: TagDesc, desc: DeviceDesc) {
    tag.name.Some? && tag.dir.Some? &&
    var ioSize := if tag.dir.value == In then desc.txBytes else desc.rxBytes;
    ioSize != 0 &&
    if tag.typ == TBool then tag.bit < 8 && tag.offset < ioSize
    else tag.bit == 0 && BuilderTypeSize(tag.typ) != 0
         && Add32(tag.offset, BuilderTypeSize(tag.typ)) <= ioSize
  }

  /**
   A validated tag passes the run-time range checks exactly when offset + size does not wrap 32 bits;
   with a wrap, validation accepts what every access then refuses.
   */
  lemma ValidatedTagInRangeIffNoWrap(tag: TagDesc, desc: DeviceDesc, e: Entry)
    requires ValidTagDesc(tag, desc) && e.ref.Io?
    requires e.typ == tag.typ && e.ref.offset == tag.offset && e.ref.bit == tag.bit
    ensures IoInRange(e, if tag.dir.value == In then desc.txBytes else desc.rxBytes)
       <==> tag.offset + BuilderTypeSize(tag.typ) < U32
  {
  }

  // ---------------------------------------------------------------- the table

  function ProcEntry(d: ProcDesc, k: nat): Entry {
    Entry("proc." + d.name, d.typ, Proc(k))
  }

  ghost function AddProcs(table: seq<Entry>, procs: seq<ProcDesc>, n: nat): Option<seq<Entry>>
    requires n <= |procs|
  {
    if n == 0 then Some(table)
    else
      match AddProcs(table, procs, n - 1)
      case None => None
      case Some(t) => AddEntry(t, ProcEntry(procs[n - 1], n - 1))
  }

  /** The table and the HMI store while HMI descriptors are being added. */
  datatype HmiState = HmiState(table: seq<Entry>, slots: seq<Slot>)

  const CLEARED: Bytes4 := [0, 0, 0, 0]

  ghost function AddHmi(s: HmiState, d: HmiDesc): Option<HmiState> {
    match d
    case HmiAlias(name, access, aliasOf) =>
      if aliasOf.None? then None
      else
        var target := IdOf(s.table, aliasOf.value);
        if target == 0 then None
        else
          (match AddEntry(s.table, Entry("hmi." + name, s.table[target - 1].typ, Alias(target, access)))
           case None => None
           case Some(t) => Some(HmiState(t, s.slots)))
    case HmiVariable(name, access, typ, _) =>
      if |s.slots| >= STORE_SIZE then None
      else
        (match AddEntry(s.table, Entry("hmi." + name, typ, HmiVar(|s.slots|, access)))
         case None => None
         case Some(t) => Some(HmiState(t, s.slots + [Slot(typ, CLEARED)])))
    case HmiOther(_) => None
  }

  ghost function AddHmis(table: seq<Entry>, hmis: seq<HmiDesc>, n: nat): Option<HmiState>
    requires n <= |hmis|
  {
    if n == 0 then Some(HmiState(table, []))
    else
      match AddHmis(table, hmis, n - 1)
      case None => None
      case Some(s) => AddHmi(s, hmis[n - 1])
  }

  function IoEntry(deviceName: string, tag: TagDesc, backend: u16, device: u16): Entry
    requires tag.name.Some? && tag.dir.Some?
  {
    Entry(deviceName + "." + tag.name.value, tag.typ, Io(backend, device, tag.dir.value, tag.offset, tag.bit))
  }

  ghost function AddTags(table: seq<Entry>, deviceName: string, desc: DeviceDesc, backend: u16, device: u16,
      n: nat): Option<seq<Entry>>
    requires n <= |desc.tags|
  {
    if n == 0 then Some(table)
    else
      match AddTags(table, deviceName, desc, backend, device, n - 1)
      case None => None
      case Some(t) =>
        if ValidTagDesc(desc.tags[n - 1], desc) then AddEntry(t, IoEntry(deviceName, desc.tags[n - 1], backend, device))
        else None
  }

  /** The first loop of system_build: every device names an existing backend and a registered model. */
  ghost predicate DeviceOk(cfg: SystemConfig, reg: Registry, i: nat)
    requires i < |cfg.devices|
  {
    var d := cfg.devices[i];
    d.backend.Some? && d.model.Some? && FirstBackend(cfg, d.backend.value, 0).Some? && d.model.value in reg
  }

  ghost predicate DevicesOk(cfg: SystemConfig, reg: Registry) {
    && |cfg.backends| <= MAX_BACKENDS
    && forall i :: 0 <= i < |cfg.devices| ==> DeviceOk(cfg, reg, i)
  }

  ghost function AddDevices(table: seq<Entry>, cfg: SystemConfig, reg: Registry, n: nat): Option<seq<Entry>>
    requires DevicesOk(cfg, reg) && n <= |cfg.devices|
  {
    if n == 0 then Some(table)
    else
      match AddDevices(table, cfg, reg, n - 1)
      case None => None
      case Some(t) =>
        assert DeviceOk(cfg, reg, n - 1);
        var d := cfg.devices[n - 1];
        if d.name.None? then None
        else
          var desc := reg[d.model.value];
          AddTags(t, d.name.value, desc, FirstBackend(cfg, d.backend.value, 0).value,
                  Trunc16(|Matching(cfg, d.backend.value, n - 1)|), |desc.tags|)
  }

  datatype Built = Built(table: seq<Entry>, proc: seq<Slot>, hmi: seq<Slot>, drivers: seq<seq<nat>>)

  ghost function ProcSlots(procs: seq<ProcDesc>): (r: seq<Slot>)
    ensures |r| == |procs|
  {
    seq(|procs|, k requires 0 <= k < |procs| => Slot(procs[k].typ, CLEARED))
  }

  /** system_build on a fresh runtime: what it leaves behind when it returns 0, None when it returns -1. */
  ghost function Build(cfg: SystemConfig, reg: Registry, envs: seq<BackendEnv>): Option<Built>
    requires |envs| == |cfg.backends|
  {
    if cfg.backends == [] || cfg.devices == [] || !DevicesOk(cfg, reg) then None
    else
      match BindBackends(cfg, envs, |cfg.backends|)
      case None => None
      case Some(drivers) =>
        if |cfg.procVars| > STORE_SIZE then None
        else
          match AddProcs([], cfg.procVars, |cfg.procVars|)
          case None => None
          case Some(t) =>
            match AddHmis(t, cfg.hmiTags, |cfg.hmiTags|)
            case None => None
            case Some(s) =>
              match AddDevices(s.table, cfg, reg, |cfg.devices|)
              case None => None
              case Some(t2) => Some(Built(t2, ProcSlots(cfg.procVars), s.slots, drivers))
  }

  // ---------------------------------------------------------------- what a built table guarantees

  ghost predicate SlotsMatch(table: seq<Entry>, proc: seq<Slot>, hmi: seq<Slot>) {
    forall i :: 0 <= i < |table| ==> SlotMatches(table[i], proc, hmi)
  }

  ghost predicate SlotMatches(e: Entry, proc: seq<Slot>, hmi: seq<Slot>) {
    match e.ref
    case Proc(k) => k < |proc| && proc[k].typ == e.typ
    case HmiVar(k, _) => k < |hmi| && hmi[k].typ == e.typ
    case _ => true
  }

  ghost predicate NoIo(table: seq<Entry>) {
    forall i :: 0 <= i < |table| ==> !table[i].ref.Io?
  }

  lemma {:induction false} ProcsAdded(procs: seq<ProcDesc>, n: nat)
    requires n <= |procs| && AddProcs([], procs, n).Some?
    ensures var t := AddProcs([], procs, n).value;
      && |t| == n && NamesUnique(t)
      && (forall k :: 0 <= k < n ==> t[k] == ProcEntry(procs[k], k))
  {
    if n > 0 {
      ProcsAdded(procs, n - 1);
    }
  }

  /** Everything the tag accessors rely on while the table holds no I/O tag yet. */
  ghost predicate VariablesOk(s: HmiState, proc: seq<Slot>) {
    NamesUnique(s.table) && AliasesPointBack(s.table) && NoIo(s.table) && SlotsMatch(s.table, proc, s.slots)
  }

  lemma EntryKeepsNamesUnique(table: seq<Entry>, e: Entry)
    requires NamesUnique(table) && AddEntry(table, e).Some?
    ensures NamesUnique(AddEntry(table, e).value) && AddEntry(table, e).value == table + [e]
  {
    forall i | 0 <= i < |table| ensures table[i].name != e.name {
      assert !HasName(table, e.name);
    }
  }

  lemma AppendKeepsAliases(table: seq<Entry>, e: Entry)
    requires AliasesPointBack(table)
    requires e.ref.Alias? ==>
        0 < e.ref.target <= |table| && table[e.ref.target - 1].typ == e.typ && !table[e.ref.target - 1].ref.Io?
    ensures AliasesPointBack(table + [e])
  {
    forall i | 0 <= i < |table| + 1 ensures AliasOk(table + [e], i) {
      if i < |table| {
        assert AliasOk(table, i);
      }
    }
  }

  /** Appending an entry whose slot is there, to stores that have only grown. */
  lemma AppendKeepsSlots(table: seq<Entry>, e: Entry, proc: seq<Slot>, hmi: seq<Slot>, hmi2: seq<Slot>)
    requires SlotsMatch(table, proc, hmi) && hmi <= hmi2 && SlotMatches(e, proc, hmi2)
    ensures SlotsMatch(table + [e], proc, hmi2)
  {
    forall i | 0 <= i < |table| + 1 ensures SlotMatches((table + [e])[i], proc, hmi2) {
      if i < |table| {
        assert SlotMatches(table[i], proc, hmi);
      }
    }
  }

  lemma HmiEntryKeepsVariablesOk(s: HmiState, proc: seq<Slot>, e: Entry, slots: seq<Slot>)
    requires VariablesOk(s, proc) && AddEntry(s.table, e).Some? && !e.ref.Io?
    requires s.slots <= slots && SlotMatches(e, proc, slots)
    requires e.ref.Alias? ==> 0 < e.ref.target <= |s.table| && s.table[e.ref.target - 1].typ == e.typ
    ensures VariablesOk(HmiState(s.table + [e], slots), proc)
  {
    EntryKeepsNamesUnique(s.table, e);
    AppendKeepsAliases(s.table, e);
    AppendKeepsSlots(s.table, e, proc, s.slots, slots);
    hide AddEntry, NamesUnique, AliasesPointBack, SlotsMatch;
  }

  lemma HmiKeepsVariablesOk(s: HmiState, proc: seq<Slot>, d: HmiDesc)
    requires VariablesOk(s, proc) && AddHmi(s, d).Some?
    ensures VariablesOk(AddHmi(s, d).value, proc)
    ensures s.table <= AddHmi(s, d).value.table && s.slots <= AddHmi(s, d).value.slots
  {
    match d
    case HmiAlias(name, access, aliasOf) =>
      var target := IdOf(s.table, aliasOf.value);
      HmiEntryKeepsVariablesOk(s, proc, Entry("hmi." + name, s.table[target - 1].typ, Alias(target, access)), s.slots);
      hide VariablesOk, HasName;
    case HmiVariable(name, access, typ, _) =>
      var slots := s.slots + [Slot(typ, CLEARED)];
      HmiEntryKeepsVariablesOk(s, proc, Entry("hmi." + name, typ, HmiVar(|s.slots|, access)), slots);
      hide VariablesOk, HasName;
  }

  lemma {:induction false} HmisKeepVariablesOk(table: seq<Entry>, proc: seq<Slot>, hmis: seq<HmiDesc>, n: nat)
    requires n <= |hmis| && VariablesOk(HmiState(table, []), proc) && AddHmis(table, hmis, n).Some?
    ensures VariablesOk(AddHmis(table, hmis, n).value, proc)
    ensures table <= AddHmis(table, hmis, n).value.table
  {
    if n > 0 {
      HmisKeepVariablesOk(table, proc, hmis, n - 1);
      HmiKeepsVariablesOk(AddHmis(table, hmis, n - 1).value, proc, hmis[n - 1]);
    }
  }

  /** The entry is tag `k` of configured device `i`, valid, and addressed to the driver slot bound for device `i`. */
  ghost predicate OwnedBy(cfg: SystemConfig, reg: Registry, drivers: seq<seq<nat>>, e: Entry, i: nat, k: nat) {
    && e.ref.Io? && i < |cfg.devices|
    && cfg.devices[i].name.Some? && cfg.devices[i].model.Some? && cfg.devices[i].model.value in reg
    && var desc := reg[cfg.devices[i].model.value];
      && k < |desc.tags| && ValidTagDesc(desc.tags[k], desc)
      && e == IoEntry(cfg.devices[i].name.value, desc.tags[k], e.ref.backend, e.ref.device)
      && e.ref.backend < |drivers| && e.ref.device < |drivers[e.ref.backend]|
      && drivers[e.ref.backend][e.ref.device] == i
  }

  ghost predicate Owned(cfg: SystemConfig, reg: Registry, drivers: seq<seq<nat>>, e: Entry) {
    exists i: nat, k: nat :: OwnedBy(cfg, reg, drivers, e, i, k)
  }

  ghost predicate TableOk(cfg: SystemConfig, reg: Registry, b: Built) {
    && NamesUnique(b.table) && AliasesPointBack(b.table) && SlotsMatch(b.table, b.proc, b.hmi)
    && forall j :: 0 <= j < |b.table| && b.table[j].ref.Io? ==> Owned(cfg, reg, b.drivers, b.table[j])
  }

  lemma IoEntryKeepsTableOk(cfg: SystemConfig, reg: Registry, b: Built, e: Entry)
    requires TableOk(cfg, reg, b) && AddEntry(b.table, e).Some? && Owned(cfg, reg, b.drivers, e) && e.ref.Io?
    ensures TableOk(cfg, reg, b.(table := AddEntry(b.table, e).value))
    ensures b.table <= AddEntry(b.table, e).value
  {
    EntryKeepsNamesUnique(b.table, e);
    AppendKeepsAliases(b.table, e);
    AppendKeepsSlots(b.table, e, b.proc, b.hmi, b.hmi);
    hide AddEntry, NamesUnique, AliasesPointBack, SlotsMatch, Owned;
    var t := b.table + [e];
    assert forall i :: 0 <= i < |b.table| ==> t[i] == b.table[i];
  }

  lemma {:induction false} TagsKeepTableOk(cfg: SystemConfig, reg: Registry, b: Built, i: nat, backend: u16, device: u16, n: nat)
    requires TableOk(cfg, reg, b) && i < |cfg.devices|
    requires cfg.devices[i].name.Some? && cfg.devices[i].model.Some? && cfg.devices[i].model.value in reg
    requires backend < |b.drivers| && device < |b.drivers[backend]| && b.drivers[backend][device] == i
    requires var desc := reg[cfg.devices[i].model.value];
      n <= |desc.tags| && AddTags(b.table, cfg.devices[i].name.value, desc, backend, device, n).Some?
    ensures var t := AddTags(b.table, cfg.devices[i].name.value, reg[cfg.devices[i].model.value], backend, device, n).value;
      TableOk(cfg, reg, b.(table := t)) && b.table <= t
    decreases n
  {
    if n > 0 {
      var name, desc := cfg.devices[i].name.value, reg[cfg.devices[i].model.value];
      TagsKeepTableOk(cfg, reg, b, i, backend, device, n - 1);
      var before := AddTags(b.table, name, desc, backend, device, n - 1).value;
      var e := IoEntry(name, desc.tags[n - 1], backend, device);
      assert OwnedBy(cfg, reg, b.drivers, e, i, n - 1);
      IoEntryKeepsTableOk(cfg, reg, b.(table := before), e);
    }
  }

  lemma {:induction false} DevicesKeepTableOk(cfg: SystemConfig, reg: Registry, envs: seq<BackendEnv>, b: Built, n: nat)
    requires |envs| == |cfg.backends| && BindBackends(cfg, envs, |cfg.backends|) == Some(b.drivers)
    requires DevicesOk(cfg, reg) && TableOk(cfg, reg, b) && n <= |cfg.devices|
    requires AddDevices(b.table, cfg, reg, n).Some?
    ensures TableOk(cfg, reg, b.(table := AddDevices(b.table, cfg, reg, n).value))
    ensures b.table <= AddDevices(b.table, cfg, reg, n).value
    decreases n
  {
    if n > 0 {
      DevicesKeepTableOk(cfg, reg, envs, b, n - 1);
      var before := AddDevices(b.table, cfg, reg, n - 1).value;
      assert DeviceOk(cfg, reg, n - 1);
      var d := cfg.devices[n - 1];
      var backend := FirstBackend(cfg, d.backend.value, 0).value;
      AddressSelectsOwner(cfg, envs, n - 1, backend);
      var desc := reg[d.model.value];
      var device := Trunc16(|Matching(cfg, d.backend.value, n - 1)|);
      assert AddDevices(b.table, cfg, reg, n) == AddTags(before, d.name.value, desc, backend, device, |desc.tags|);
      hide AddDevices, AddTags, BindBackends, Matching, TableOk, FirstBackend;
      TagsKeepTableOk(cfg, reg, b.(table := before), n - 1, backend, device, |desc.tags|);
    }
  }

  /**
   Every table that system_build makes from an empty one: names are unique; aliases point back to an entry
   of their own type that is not I/O; variables have a slot of their own type; every I/O tag is a valid tag of some
   configured device and is addressed to the driver slot bound for that device.
   */
  lemma BuildMakesTableOk(cfg: SystemConfig, reg: Registry, envs: seq<BackendEnv>)
    requires |envs| == |cfg.backends| && Build(cfg, reg, envs).Some?
    ensures TableOk(cfg, reg, Build(cfg, reg, envs).value)
  {
    var b := Build(cfg, reg, envs).value;
    ProcsAdded(cfg.procVars, |cfg.procVars|);
    var t := AddProcs([], cfg.procVars, |cfg.procVars|).value;
    assert VariablesOk(HmiState(t, []), b.proc);
    HmisKeepVariablesOk(t, b.proc, cfg.hmiTags, |cfg.hmiTags|);
    var s := AddHmis(t, cfg.hmiTags, |cfg.hmiTags|).value;
    DevicesKeepTableOk(cfg, reg, envs, b.(table := s.table), |cfg.devices|);
  }

  /** The images the drivers hand out have the sizes of the bound devices' descriptors. */
  ghost predicate ImagesMatch(cfg: SystemConfig, reg: Registry, drivers: seq<seq<nat>>, mem: Memory) {
    && |mem.inputs| == |mem.outputs| == |drivers|
    && (forall b :: 0 <= b < |drivers| ==> |mem.inputs[b]| == |mem.outputs[b]| == |drivers[b]|)
    && (forall b, d :: 0 <= b < |drivers| && 0 <= d < |drivers[b]| ==>
          && drivers[b][d] < |cfg.devices| && cfg.devices[drivers[b][d]].model.Some?
          && cfg.devices[drivers[b][d]].model.value in reg
          && var desc := reg[cfg.devices[drivers[b][d]].model.value];
            |mem.inputs[b][d]| == desc.txBytes && |mem.outputs[b][d]| == desc.rxBytes)
  }

  /**
   On a built runtime reading an I/O tag, and writing an output tag, succeeds exactly when offset + size stays
   below 2^32: no other run-time check ever fires.
   */
  lemma RangeChecksNeverFire(cfg: SystemConfig, reg: Registry, b: Built, mem: Memory, e: Entry, value: Bytes4)
    requires ImagesMatch(cfg, reg, b.drivers, mem) && Owned(cfg, reg, b.drivers, e)
    ensures e.ref.Io? && e.typ != TOther
    ensures ReadIo(mem, e).Ok? <==> e.ref.offset + BuilderTypeSize(e.typ) < U32
    ensures e.ref.dir == Out ==> (WriteIo(mem, e, value).Ok? <==> e.ref.offset + BuilderTypeSize(e.typ) < U32)
  {
    var i: nat, k: nat :| OwnedBy(cfg, reg, b.drivers, e, i, k);
    var desc := reg[cfg.devices[i].model.value];
    ValidatedTagInRangeIffNoWrap(desc.tags[k], desc, e);
  }
}
