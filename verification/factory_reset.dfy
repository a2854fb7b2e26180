/**
 What initialisation achieves on a built system: every variable reads its configured initial value after boot,
 and a factory reset brings that state back from whatever tag writes came in between.
 */
module FactoryReset {
  import opened Builder
  import opened StoreInit
  import opened Tags
  import opened Words

  // ---------------------------------------------------------------- where the builder puts variables

  /** How many of the first `n` HMI descriptors are variables: the store cell of the next one. */
  ghost function VarCount(hmis: seq<HmiDesc>, n: nat): (c: nat)
    requires n <= |hmis|
    ensures c <= n
  {
    if n == 0 then 0 else VarCount(hmis, n - 1) + if hmis[n - 1].HmiVariable? then 1 else 0
  }

  lemma {:induction false} CellsDiffer(hmis: seq<HmiDesc>, i: nat, j: nat)
    requires i < j <= |hmis| && hmis[i].HmiVariable?
    ensures VarCount(hmis, i) < VarCount(hmis, j)
  {
    if i < j - 1 {
      CellsDiffer(hmis, i, j - 1);
    }
  }

  /** The descriptor, among the first `n`, that an HMI cell belongs to. */
  ghost function OwnerOfCell(hmis: seq<HmiDesc>, n: nat, c: nat): (j: nat)
    requires n <= |hmis| && c < VarCount(hmis, n)
    ensures j < n && hmis[j].HmiVariable? && VarCount(hmis, j) == c
  {
    if c < VarCount(hmis, n - 1) then OwnerOfCell(hmis, n - 1, c) else n - 1
  }

  ghost predicate ProcPlaced(table: seq<Entry>, d: ProcDesc, k: nat) {
    k < |table| && table[k] == ProcEntry(d, k) && |table[k].name| < NAME_STORAGE
  }

  function HmiEntry(d: HmiDesc, c: nat): Entry
    requires d.HmiVariable?
  {
    Entry("hmi." + d.name, d.typ, HmiVar(c, d.access))
  }

  ghost predicate HmiPlaced(table: seq<Entry>, slots: seq<Slot>, d: HmiDesc, c: nat) {
    d.HmiVariable? ==>
      HmiEntry(d, c) in table && |HmiEntry(d, c).name| < NAME_STORAGE && c < |slots| && slots[c].typ == d.typ
  }

  ghost predicate HmisPlaced(table: seq<Entry>, slots: seq<Slot>, hmis: seq<HmiDesc>, n: nat)
    requires n <= |hmis|
  {
    |slots| == VarCount(hmis, n) && forall j :: 0 <= j < n ==> HmiPlaced(table, slots, hmis[j], VarCount(hmis, j))
  }

  lemma {:induction false} AddProcsPlaces(procs: seq<ProcDesc>, n: nat)
    requires n <= |procs| && AddProcs([], procs, n).Some?
    ensures |AddProcs([], procs, n).value| == n
    ensures forall k :: 0 <= k < n ==> ProcPlaced(AddProcs([], procs, n).value, procs[k], k)
  {
    if n > 0 {
      AddProcsPlaces(procs, n - 1);
      hide HasName;
    }
  }

  lemma {:induction false} AddHmisPlaces(table: seq<Entry>, hmis: seq<HmiDesc>, n: nat)
    requires n <= |hmis| && AddHmis(table, hmis, n).Some?
    ensures var s := AddHmis(table, hmis, n).value;
      table <= s.table && HmisPlaced(s.table, s.slots, hmis, n)
  {
    if n > 0 {
      AddHmisPlaces(table, hmis, n - 1);
      var before, s := AddHmis(table, hmis, n - 1).value, AddHmis(table, hmis, n).value;
      AddHmiPlaces(before, hmis[n - 1]);
      hide AddHmi, AddHmis;
      forall j | 0 <= j < n ensures HmiPlaced(s.table, s.slots, hmis[j], VarCount(hmis, j)) {
        assert j < n - 1 ==> HmiPlaced(before.table, before.slots, hmis[j], VarCount(hmis, j));
      }
    }
  }

  lemma AddHmiPlaces(before: HmiState, d: HmiDesc)
    requires AddHmi(before, d).Some?
    ensures var s := AddHmi(before, d).value;
      && before.table <= s.table && before.slots <= s.slots
      && |s.slots| == |before.slots| + (if d.HmiVariable? then 1 else 0)
      && HmiPlaced(s.table, s.slots, d, |before.slots|)
  {
    hide HasName;
  }

  lemma {:induction false} AddTagsExtends(table: seq<Entry>, name: string, desc: DeviceDesc, backend: u16, device: u16, n: nat)
    requires n <= |desc.tags| && AddTags(table, name, desc, backend, device, n).Some?
    ensures table <= AddTags(table, name, desc, backend, device, n).value
  {
    if n > 0 {
      AddTagsExtends(table, name, desc, backend, device, n - 1);
    }
  }

  lemma {:induction false} AddDevicesExtends(table: seq<Entry>, cfg: SystemConfig, reg: Registry, n: nat)
    requires DevicesOk(cfg, reg) && n <= |cfg.devices| && AddDevices(table, cfg, reg, n).Some?
    ensures table <= AddDevices(table, cfg, reg, n).value
    decreases n
  {
    if n > 0 {
      AddDevicesExtends(table, cfg, reg, n - 1);
      assert DeviceOk(cfg, reg, n - 1);
      var d := cfg.devices[n - 1];
      var desc := reg[d.model.value];
      AddTagsExtends(AddDevices(table, cfg, reg, n - 1).value, d.name.value, desc, FirstBackend(cfg, d.backend.value, 0).value,
        Trunc16(|Matching(cfg, d.backend.value, n - 1)|), |desc.tags|);
    }
  }

  /** What initialisation needs of a built system. */
  ghost predicate Placed(cfg: SystemConfig, b: Built) {
    && NamesUnique(b.table) && AliasesPointBack(b.table) && SlotsMatch(b.table, b.proc, b.hmi)
    && b.proc == ProcSlots(cfg.procVars)
    && (forall k :: 0 <= k < |cfg.procVars| ==> ProcPlaced(b.table, cfg.procVars[k], k))
    && HmisPlaced(b.table, b.hmi, cfg.hmiTags, |cfg.hmiTags|)
  }

  lemma BuildPlaces(cfg: SystemConfig, reg: Registry, envs: seq<BackendEnv>)
    requires |envs| == |cfg.backends| && Build(cfg, reg, envs).Some?
    ensures Placed(cfg, Build(cfg, reg, envs).value)
  {
    BuildMakesTableOk(cfg, reg, envs);
    AddProcsPlaces(cfg.procVars, |cfg.procVars|);
    var t := AddProcs([], cfg.procVars, |cfg.procVars|).value;
    AddHmisPlaces(t, cfg.hmiTags, |cfg.hmiTags|);
    var s := AddHmis(t, cfg.hmiTags, |cfg.hmiTags|).value;
    AddDevicesExtends(s.table, cfg, reg, |cfg.devices|);
    var b := Build(cfg, reg, envs).value;
    hide AddProcs, AddHmis, AddDevices, Build, BindBackends;
    forall j | 0 <= j < |cfg.hmiTags| ensures HmiPlaced(b.table, b.hmi, cfg.hmiTags[j], VarCount(cfg.hmiTags, j)) {
      assert HmiPlaced(s.table, s.slots, cfg.hmiTags[j], VarCount(cfg.hmiTags, j));
    }
  }

  // ---------------------------------------------------------------- initial values arrive

  lemma ProcTarget(cfg: SystemConfig, b: Built, k: nat)
    requires Placed(cfg, b) && k < |cfg.procVars|
    ensures ProcInitOf(b.table, |b.proc|, cfg.procVars[k]).target == Some(k)
    ensures IdOf(b.table, "proc." + cfg.procVars[k].name) == k + 1
  {
    assert ProcPlaced(b.table, cfg.procVars[k], k);
    IdOfEntry(b.table, k);
  }

  lemma EntryFound(table: seq<Entry>, e: Entry)
    requires NamesUnique(table) && e in table
    ensures IdOf(table, e.name) != 0 && table[IdOf(table, e.name) - 1] == e
  {
    var i :| 0 <= i < |table| && table[i] == e;
    IdOfEntry(table, i);
    hide IdOf, NamesUnique;
  }

  lemma {:induction false} HmiTarget(cfg: SystemConfig, b: Built, j: nat)
    requires Placed(cfg, b) && j < |cfg.hmiTags| && cfg.hmiTags[j].HmiVariable?
    ensures HmiInitOf(b.table, |b.hmi|, cfg.hmiTags[j]).target == Some(VarCount(cfg.hmiTags, j))
    ensures var id := IdOf(b.table, "hmi." + cfg.hmiTags[j].name);
      id != 0 && b.table[id - 1] == HmiEntry(cfg.hmiTags[j], VarCount(cfg.hmiTags, j))
  {
    var c := VarCount(cfg.hmiTags, j);
    assert HmiPlaced(b.table, b.hmi, cfg.hmiTags[j], c) && NamesUnique(b.table);
    hide Placed, HmisPlaced, NamesUnique, IdOf, VarCount;
    EntryFound(b.table, HmiEntry(cfg.hmiTags[j], c));
  }

  ghost predicate ProcsHold(cfg: SystemConfig, proc: seq<Slot>) {
    |proc| == |cfg.procVars| && forall k :: 0 <= k < |proc| ==> Holds(proc[k], cfg.procVars[k].typ, cfg.procVars[k].initial)
  }

  ghost predicate HmiHolds(cfg: SystemConfig, hmi: seq<Slot>, j: nat)
    requires j < |cfg.hmiTags|
  {
    cfg.hmiTags[j].HmiVariable? ==>
      var c := VarCount(cfg.hmiTags, j);
      c < |hmi| && Holds(hmi[c], cfg.hmiTags[j].typ, cfg.hmiTags[j].initial)
  }

  ghost predicate HmisHold(cfg: SystemConfig, hmi: seq<Slot>) {
    |hmi| == VarCount(cfg.hmiTags, |cfg.hmiTags|) && forall j :: 0 <= j < |cfg.hmiTags| ==> HmiHolds(cfg, hmi, j)
  }

  /** Both stores hold the configured initial values. */
  ghost predicate Initialised(cfg: SystemConfig, mem: Memory) {
    ProcsHold(cfg, mem.proc) && HmisHold(cfg, mem.hmi)
  }

  lemma ProcInitInitialises(cfg: SystemConfig, b: Built, proc: seq<Slot>)
    requires Placed(cfg, b) && |proc| == |b.proc|
    ensures ProcsHold(cfg, ApplyAll(proc, ProcInits(b.table, |proc|, cfg.procVars)))
  {
    var inits := ProcInits(b.table, |proc|, cfg.procVars);
    forall k | 0 <= k < |inits| ensures inits[k].target == Some(k) {
      ProcTarget(cfg, b, k);
    }
    hide Placed, ProcInitOf;
    forall k | 0 <= k < |inits| ensures Holds(ApplyAll(proc, inits)[k], cfg.procVars[k].typ, cfg.procVars[k].initial) {
      SoleTargetHolds(proc, inits, k, k);
    }
  }

  lemma HmiInitInitialises(cfg: SystemConfig, b: Built, hmi: seq<Slot>)
    requires Placed(cfg, b) && |hmi| == |b.hmi|
    ensures HmisHold(cfg, ApplyAll(hmi, HmiInits(b.table, |hmi|, cfg.hmiTags)))
  {
    var inits := HmiInits(b.table, |hmi|, cfg.hmiTags);
    forall j | 0 <= j < |inits|
      ensures inits[j].target == if cfg.hmiTags[j].HmiVariable? then Some(VarCount(cfg.hmiTags, j)) else None
    {
      if cfg.hmiTags[j].HmiVariable? {
        HmiTarget(cfg, b, j);
      }
    }
    forall j | 0 <= j < |cfg.hmiTags| ensures HmiHolds(cfg, ApplyAll(hmi, inits), j) {
      if cfg.hmiTags[j].HmiVariable? {
        CellsDiffer(cfg.hmiTags, j, |cfg.hmiTags|);
        OthersTargetOtherCells(cfg, inits, j);
        hide Placed, HmiInitOf, VarCount, ApplyAll;
        SoleTargetHolds(hmi, inits, j, VarCount(cfg.hmiTags, j));
      }
    }
  }

  lemma OthersTargetOtherCells(cfg: SystemConfig, inits: seq<Init>, j: nat)
    requires |inits| == |cfg.hmiTags| && j < |inits| && cfg.hmiTags[j].HmiVariable?
    requires forall i :: 0 <= i < |inits| ==>
        inits[i].target == if cfg.hmiTags[i].HmiVariable? then Some(VarCount(cfg.hmiTags, i)) else None
    ensures forall i :: 0 <= i < |inits| && i != j ==> inits[i].target != Some(VarCount(cfg.hmiTags, j))
  {
    forall i | 0 <= i < |inits| && i != j && cfg.hmiTags[i].HmiVariable?
      ensures VarCount(cfg.hmiTags, i) != VarCount(cfg.hmiTags, j)
    {
      if i < j {
        CellsDiffer(cfg.hmiTags, i, j);
      } else {
        CellsDiffer(cfg.hmiTags, j, i);
      }
    }
  }

  /** The stores have the sizes the builder gave them, and every slot the type of its variable. */
  ghost predicate ShapedLike(mem: Memory, b: Built) {
    && |mem.proc| == |b.proc| && (forall k :: 0 <= k < |b.proc| ==> mem.proc[k].typ == b.proc[k].typ)
    && |mem.hmi| == |b.hmi| && (forall c :: 0 <= c < |b.hmi| ==> mem.hmi[c].typ == b.hmi[c].typ)
  }

  lemma InitialisedIsShaped(cfg: SystemConfig, b: Built, mem: Memory)
    requires Placed(cfg, b) && Initialised(cfg, mem)
    ensures ShapedLike(mem, b)
  {
    forall c | 0 <= c < |b.hmi| ensures mem.hmi[c].typ == b.hmi[c].typ {
      var j := OwnerOfCell(cfg.hmiTags, |cfg.hmiTags|, c);
      assert HmiPlaced(b.table, b.hmi, cfg.hmiTags[j], c) && HmiHolds(cfg, mem.hmi, j);
    }
  }

  lemma BootInitialises(cfg: SystemConfig, b: Built, mem: Memory)
    requires Placed(cfg, b) && ShapedLike(mem, b)
    ensures Initialised(cfg, Boot(b.table, mem, cfg))
  {
    ProcInitInitialises(cfg, b, mem.proc);
    HmiInitInitialises(cfg, b, mem.hmi);
    hide ProcsHold, HmisHold, ApplyAll, ProcInits, HmiInits;
  }

  lemma ResetInitialises(cfg: SystemConfig, b: Built, mem: Memory, cmd: nat, junk: Bytes4)
    requires Placed(cfg, b) && ShapedLike(mem, b) && ResetRequested(b.table, mem, cmd)
    ensures Initialised(cfg, PollReset(b.table, mem, cfg, cmd, junk))
  {
    WriteKeepsShaped(b, mem, cmd, [0], junk);
    var cleared := Written(b.table, mem, cmd, [0], junk);
    HmiInitInitialises(cfg, b, cleared.hmi);
    ProcInitInitialises(cfg, b, cleared.proc);
    hide ProcsHold, HmisHold, ApplyAll, ProcInits, HmiInits, Written, ResetRequested;
  }

  lemma WriteKeepsShaped(b: Built, mem: Memory, id: nat, input: seq<byte>, junk: Bytes4)
    requires ShapedLike(mem, b)
    ensures ShapedLike(Written(b.table, mem, id, input, junk), b)
  {
    if WriteTag(b.table, mem, id, input, junk).Ok? {
      WriteKeepsShape(b.table, mem, id, input, junk);
      hide WriteTag;
    }
  }

  // ---------------------------------------------------------------- what is read back

  /** Every process variable, and every HMI variable, reads its configured initial value through its own name. */
  ghost predicate ReadsInitialValues(cfg: SystemConfig, table: seq<Entry>, mem: Memory) {
    && (forall k :: 0 <= k < |cfg.procVars| ==> ProcReadsInitial(cfg.procVars[k], table, mem))
    && (forall j :: 0 <= j < |cfg.hmiTags| ==> HmiReadsInitial(cfg.hmiTags[j], table, mem))
  }

  ghost predicate ProcReadsInitial(d: ProcDesc, table: seq<Entry>, mem: Memory) {
    d.typ != TOther ==>
      ReadTag(table, mem, IdOf(table, "proc." + d.name), TypeSize(d.typ)) == Ok(d.initial[..TypeSize(d.typ)])
  }

  ghost predicate HmiReadsInitial(d: HmiDesc, table: seq<Entry>, mem: Memory) {
    d.HmiVariable? && d.typ != TOther ==>
      ReadTag(table, mem, IdOf(table, "hmi." + d.name), TypeSize(d.typ)) == Ok(d.initial[..TypeSize(d.typ)])
  }

  lemma InitialisedProcReads(cfg: SystemConfig, b: Built, mem: Memory, k: nat)
    requires Placed(cfg, b) && Initialised(cfg, mem) && k < |cfg.procVars|
    ensures ProcReadsInitial(cfg.procVars[k], b.table, mem)
  {
    ProcTarget(cfg, b, k);
    assert ProcPlaced(b.table, cfg.procVars[k], k);
    hide IdOf, NamesUnique, AliasesPointBack, SlotsMatch, VarCount, HmisPlaced, HmisHold;
  }

  lemma InitialisedHmiReads(cfg: SystemConfig, b: Built, mem: Memory, j: nat)
    requires Placed(cfg, b) && Initialised(cfg, mem) && j < |cfg.hmiTags|
    ensures HmiReadsInitial(cfg.hmiTags[j], b.table, mem)
  {
    if cfg.hmiTags[j].HmiVariable? {
      HmiTarget(cfg, b, j);
      assert HmiHolds(cfg, mem.hmi, j);
    }
    hide IdOf, NamesUnique, AliasesPointBack, SlotsMatch, VarCount, HmisPlaced, ProcsHold;
  }

  lemma InitialisedReads(cfg: SystemConfig, b: Built, mem: Memory)
    requires Placed(cfg, b) && Initialised(cfg, mem)
    ensures ReadsInitialValues(cfg, b.table, mem)
  {
    hide Placed, Initialised, ProcReadsInitial, HmiReadsInitial;
    forall k | 0 <= k < |cfg.procVars| ensures ProcReadsInitial(cfg.procVars[k], b.table, mem) {
      InitialisedProcReads(cfg, b, mem, k);
    }
    forall j | 0 <= j < |cfg.hmiTags| ensures HmiReadsInitial(cfg.hmiTags[j], b.table, mem) {
      InitialisedHmiReads(cfg, b, mem, j);
    }
  }

  /** The id leads, through any aliases, to something other than an I/O tag. */
  ghost predicate NotIo(table: seq<Entry>, id: nat) {
    Resolve(table, id, false, 0).Some? ==> !Resolve(table, id, false, 0).value.ref.Io?
  }

  /** Two initialised memories cannot be told apart by reading variables. */
  lemma InitialisedAgree(cfg: SystemConfig, m1: Memory, m2: Memory, table: seq<Entry>, id: nat, outSize: nat)
    requires Initialised(cfg, m1) && Initialised(cfg, m2) && NotIo(table, id)
    ensures ReadTag(table, m1, id, outSize) == ReadTag(table, m2, id, outSize)
  {
    var r := Resolve(table, id, false, 0);
    if r.Some? && r.value.ref.HmiVar? && r.value.ref.index < |m1.hmi| {
      var j := OwnerOfCell(cfg.hmiTags, |cfg.hmiTags|, r.value.ref.index);
      assert HmiHolds(cfg, m1.hmi, j) && HmiHolds(cfg, m2.hmi, j);
    }
    hide Resolve, VarCount;
  }

  // ---------------------------------------------------------------- whole runs

  /** What touches the stores after boot: tag writes of any kind, and one poll of the command tag per PLC cycle. */
  datatype TagEvent = Write(id: nat, input: seq<byte>, junk: Bytes4) | Poll(junk: Bytes4)

  ghost function Step(table: seq<Entry>, cfg: SystemConfig, cmd: nat, mem: Memory, event: TagEvent): Memory {
    match event
    case Write(id, input, junk) => Written(table, mem, id, input, junk)
    case Poll(junk) => PollReset(table, mem, cfg, cmd, junk)
  }

  ghost function Run(table: seq<Entry>, cfg: SystemConfig, cmd: nat, mem: Memory, events: seq<TagEvent>): Memory {
    if events == [] then mem
    else Step(table, cfg, cmd, Run(table, cfg, cmd, mem, events[..|events| - 1]), events[|events| - 1])
  }

  lemma {:induction false} RunKeepsShaped(cfg: SystemConfig, b: Built, cmd: nat, mem: Memory, events: seq<TagEvent>)
    requires Placed(cfg, b) && ShapedLike(mem, b)
    ensures ShapedLike(Run(b.table, cfg, cmd, mem, events), b)
  {
    if events != [] {
      var last := |events| - 1;
      RunKeepsShaped(cfg, b, cmd, mem, events[..last]);
      var before := Run(b.table, cfg, cmd, mem, events[..last]);
      match events[last]
      case Write(id, input, junk) =>
        WriteKeepsShaped(b, before, id, input, junk);
      case Poll(junk) =>
        if ResetRequested(b.table, before, cmd) {
          ResetInitialises(cfg, b, before, cmd, junk);
          InitialisedIsShaped(cfg, b, PollReset(b.table, before, cfg, cmd, junk));
          hide Placed, Initialised, PollReset;
        }
    }
  }

  lemma ShapedSlotsMatch(b: Built, mem: Memory)
    requires SlotsMatch(b.table, b.proc, b.hmi) && ShapedLike(mem, b)
    ensures SlotsMatch(b.table, mem.proc, mem.hmi)
  {
    forall i | 0 <= i < |b.table| ensures SlotMatches(b.table[i], mem.proc, mem.hmi) {
      assert SlotMatches(b.table[i], b.proc, b.hmi);
    }
  }

  /** After boot, and after any run of writes and resets, every slot still has the type of its tag. */
  lemma SlotTypesFollowTags(cfg: SystemConfig, reg: Registry, envs: seq<BackendEnv>, cmd: nat, mem: Memory, events: seq<TagEvent>)
    requires |envs| == |cfg.backends| && Build(cfg, reg, envs).Some?
    requires var b := Build(cfg, reg, envs).value; mem.proc == b.proc && mem.hmi == b.hmi
    ensures var b := Build(cfg, reg, envs).value;
      var end := Run(b.table, cfg, cmd, Boot(b.table, mem, cfg), events);
      ShapedLike(end, b) && SlotsMatch(b.table, end.proc, end.hmi)
  {
    BuildPlaces(cfg, reg, envs);
    var b := Build(cfg, reg, envs).value;
    hide Build;
    var boot := Boot(b.table, mem, cfg);
    BootInitialises(cfg, b, mem);
    InitialisedIsShaped(cfg, b, boot);
    RunKeepsShaped(cfg, b, cmd, boot, events);
    ShapedSlotsMatch(b, Run(b.table, cfg, cmd, boot, events));
  }

  /** After system_build, proc_init and hmi_init, every variable reads back its configured initial value. */
  lemma BootReadsInitialValues(cfg: SystemConfig, reg: Registry, envs: seq<BackendEnv>, mem: Memory)
    requires |envs| == |cfg.backends| && Build(cfg, reg, envs).Some?
    requires var b := Build(cfg, reg, envs).value; mem.proc == b.proc && mem.hmi == b.hmi
    ensures var b := Build(cfg, reg, envs).value;
      ReadsInitialValues(cfg, b.table, Boot(b.table, mem, cfg))
  {
    BuildPlaces(cfg, reg, envs);
    var b := Build(cfg, reg, envs).value;
    hide Build;
    BootInitialises(cfg, b, mem);
    InitialisedReads(cfg, b, Boot(b.table, mem, cfg));
  }

  /**
   Whatever writes and resets came before, a requested factory reset brings back the initial values, and no read of
   a variable, direct or through aliases, can tell the stores from those after boot.
   */
  lemma ResetRestoresBoot(cfg: SystemConfig, reg: Registry, envs: seq<BackendEnv>, cmd: nat, mem: Memory,
      events: seq<TagEvent>, junk: Bytes4)
    requires |envs| == |cfg.backends| && Build(cfg, reg, envs).Some?
    requires var b := Build(cfg, reg, envs).value; mem.proc == b.proc && mem.hmi == b.hmi
    requires var b := Build(cfg, reg, envs).value;
      ResetRequested(b.table, Run(b.table, cfg, cmd, Boot(b.table, mem, cfg), events), cmd)
    ensures var b := Build(cfg, reg, envs).value;
      var boot := Boot(b.table, mem, cfg);
      var after := PollReset(b.table, Run(b.table, cfg, cmd, boot, events), cfg, cmd, junk);
      && ReadsInitialValues(cfg, b.table, after)
      && forall id: nat, outSize: nat :: NotIo(b.table, id) ==>
          ReadTag(b.table, after, id, outSize) == ReadTag(b.table, boot, id, outSize)
  {
    BuildPlaces(cfg, reg, envs);
    SlotTypesFollowTags(cfg, reg, envs, cmd, mem, events);
    var b := Build(cfg, reg, envs).value;
    hide Build;
    var boot := Boot(b.table, mem, cfg);
    BootInitialises(cfg, b, mem);
    var before := Run(b.table, cfg, cmd, boot, events);
    ResetInitialises(cfg, b, before, cmd, junk);
    var after := PollReset(b.table, before, cfg, cmd, junk);
    InitialisedReads(cfg, b, after);
    hide *;
    forall id: nat, outSize: nat | NotIo(b.table, id)
      ensures ReadTag(b.table, after, id, outSize) == ReadTag(b.table, boot, id, outSize)
    {
      InitialisedAgree(cfg, after, boot, b.table, id, outSize);
    }
  }

  // ---------------------------------------------------------------- does a reset ask for the next one

  /** The configured initial value of the variable behind an entry. */
  ghost function InitialOf(cfg: SystemConfig, e: Entry): Bytes4 {
    match e.ref
    case Proc(k) => if k < |cfg.procVars| then cfg.procVars[k].initial else CLEARED
    case HmiVar(c, _) =>
      var n := |cfg.hmiTags|;
      if c < VarCount(cfg.hmiTags, n) then cfg.hmiTags[OwnerOfCell(cfg.hmiTags, n, c)].initial else CLEARED
    case _ => CLEARED
  }

  /** The stored byte of a one-byte variable that was readable before is its initial value's first byte. */
  lemma InitialisedByte(cfg: SystemConfig, b: Built, mem: Memory, after: Memory, e: Entry)
    requires Placed(cfg, b) && ShapedLike(mem, b) && Initialised(cfg, after)
    requires !e.ref.Io? && TypeSize(e.typ) == 1 && ReadEntry(mem, e).Ok?
    ensures ReadEntry(after, e) == Ok([InitialOf(cfg, e)[0]])
  {
    InitialisedIsShaped(cfg, b, after);
    if e.ref.HmiVar? {
      var j := OwnerOfCell(cfg.hmiTags, |cfg.hmiTags|, e.ref.index);
      assert HmiHolds(cfg, after.hmi, j);
      var slot := after.hmi[e.ref.index];
      assert slot.v[..1][0] == InitialOf(cfg, e)[..1][0];
      assert slot.v[..1] == [InitialOf(cfg, e)[0]];
    } else {
      var slot := after.proc[e.ref.index];
      assert slot.v[..1][0] == InitialOf(cfg, e)[..1][0];
      assert slot.v[..1] == [InitialOf(cfg, e)[0]];
    }
  }

  lemma RequestedMeans(table: seq<Entry>, mem: Memory, cmd: nat)
    ensures ResetRequested(table, mem, cmd) <==>
      cmd != 0 && match Resolve(table, cmd, false, 0)
      case None => false
      case Some(e) => TypeSize(e.typ) == 1 && ReadEntry(mem, e).Ok? && ReadEntry(mem, e).value[0] != 0
  {
    hide Resolve;
  }

  /** An I/O tag is named directly, so resolving it for writing gives the same entry. */
  lemma IoResolvesForWriting(table: seq<Entry>, cmd: nat)
    requires AliasesPointBack(table) && Resolve(table, cmd, false, 0).Some? && Resolve(table, cmd, false, 0).value.ref.Io?
    ensures Resolve(table, cmd, true, 0) == Resolve(table, cmd, false, 0)
  {
    if table[cmd - 1].ref.Alias? {
      ResolverAgreesWithinFourHops(table, cmd, false);
      AliasEndsAtVariable(table, cmd);
    }
  }

  /** Clearing an I/O command takes effect exactly when it is an output. */
  lemma ClearedIo(table: seq<Entry>, mem: Memory, cmd: nat, junk: Bytes4)
    requires AliasesPointBack(table) && ResetRequested(table, mem, cmd) && Resolve(table, cmd, false, 0).value.ref.Io?
    ensures var e := Resolve(table, cmd, false, 0).value;
      ReadEntry(Written(table, mem, cmd, [0], junk), e) == if e.ref.dir == In then ReadEntry(mem, e) else Ok([0])
  {
    IoResolvesForWriting(table, cmd);
    RequestedMeans(table, mem, cmd);
    var e := Resolve(table, cmd, false, 0).value;
    hide Resolve;
    var value := Partial([0], 1, junk);
    assert value[0] == 0 && value[..1] == [0];
    if e.ref.dir == Out {
      EntryReadsBack(mem, e, value, e);
    }
  }

  /**
   After a reset the command is requested again, and so the next PLC cycle resets again, exactly in two cases: it leads,
   directly or through aliases and whether read-only or not, to a variable configured to start true; or it is an input.
   */
  lemma ResetRepeatsIffCommandStartsTrue(cfg: SystemConfig, b: Built, mem: Memory, cmd: nat, junk: Bytes4)
    requires Placed(cfg, b) && ShapedLike(mem, b) && ResetRequested(b.table, mem, cmd)
    ensures Resolve(b.table, cmd, false, 0).Some?
    ensures var e := Resolve(b.table, cmd, false, 0).value;
      ResetRequested(b.table, PollReset(b.table, mem, cfg, cmd, junk), cmd)
      <==> if e.ref.Io? then e.ref.dir == In else InitialOf(cfg, e)[0] != 0
  {
    RequestedMeans(b.table, mem, cmd);
    var e := Resolve(b.table, cmd, false, 0).value;
    var after := PollReset(b.table, mem, cfg, cmd, junk);
    RequestedMeans(b.table, after, cmd);
    if e.ref.Io? {
      ClearedIo(b.table, mem, cmd, junk);
      var cleared := Written(b.table, mem, cmd, [0], junk);
      assert after.inputs == cleared.inputs && after.outputs == cleared.outputs;
      hide Placed, ShapedLike, ResetRequested, Resolve, Written, ApplyAll;
      assert ReadEntry(after, e) == ReadEntry(cleared, e);
    } else {
      ResetInitialises(cfg, b, mem, cmd, junk);
      hide ResetRequested, Resolve, PollReset;
      InitialisedByte(cfg, b, mem, after, e);
    }
  }
}
