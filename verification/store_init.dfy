/**
 Initial values and the factory reset (app/plc/store_init.c, main.c:65-75). The retained-storage hooks do nothing
 in the source and are not represented.
 */
module StoreInit {
  import opened Builder
  import opened TagRuntime
  import opened Tags
  import opened Words

  datatype StartMode = StartHmiInit | StartCold | StartFactory

  // ---------------------------------------------------------------- applying initial values

  /** Where one descriptor's initial value goes; no target when the init loop skips the descriptor. */
  datatype Init = Init(target: Option<nat>, typ: TagType, initial: Bytes4)

  /** proc_apply_initial and hmi_apply_initial assign one member of the union: the bytes behind it stay. */
  function ApplyInitial(slot: Slot, typ: TagType, initial: Bytes4): Slot {
    Slot(typ, initial[..TypeSize(typ)] + slot.v[TypeSize(typ)..])
  }

  ghost function ApplyOne(slots: seq<Slot>, init: Init): (r: seq<Slot>)
    ensures |r| == |slots|
  {
    match init.target
    case Some(k) => if k < |slots| then slots[k := ApplyInitial(slots[k], init.typ, init.initial)] else slots
    case None => slots
  }

  ghost function ApplyAll(slots: seq<Slot>, inits: seq<Init>): (r: seq<Slot>)
    ensures |r| == |slots|
  {
    if inits == [] then slots
    else ApplyOne(ApplyAll(slots, inits[..|inits| - 1]), inits[|inits| - 1])
  }

  /** The slot has the type and, as far as that type reaches, the bytes of the initial value. */
  ghost predicate Holds(slot: Slot, typ: TagType, initial: Bytes4) {
    slot.typ == typ && slot.v[..TypeSize(typ)] == initial[..TypeSize(typ)]
  }

  /** A slot that exactly one descriptor targets ends up with that descriptor's initial value. */
  lemma {:induction false} SoleTargetHolds(slots: seq<Slot>, inits: seq<Init>, j: nat, k: nat)
    requires j < |inits| && k < |slots| && inits[j].target == Some(k)
    requires forall i :: 0 <= i < |inits| && i != j ==> inits[i].target != Some(k)
    ensures Holds(ApplyAll(slots, inits)[k], inits[j].typ, inits[j].initial)
  {
    var last := |inits| - 1;
    if j < last {
      SoleTargetHolds(slots, inits[..last], j, k);
    }
  }

  // ---------------------------------------------------------------- which slot a descriptor targets

  ghost function ProcInitOf(table: seq<Entry>, count: nat, d: ProcDesc): Init {
    var name := "proc." + d.name;
    var id := IdOf(table, name);
    Init(if |name| < NAME_STORAGE && id != 0 && table[id - 1].ref.Proc? && table[id - 1].ref.index < count
         then Some(table[id - 1].ref.index) else None,
         d.typ, d.initial)
  }

  ghost function HmiInitOf(table: seq<Entry>, count: nat, d: HmiDesc): Init {
    if !d.HmiVariable? then Init(None, TOther, CLEARED)
    else
      var name := "hmi." + d.name;
      var id := IdOf(table, name);
      Init(if |name| < NAME_STORAGE && id != 0 && table[id - 1].ref.HmiVar? && table[id - 1].typ == d.typ
              && table[id - 1].ref.index < count
           then Some(table[id - 1].ref.index) else None,
           d.typ, d.initial)
  }

  ghost function ProcInits(table: seq<Entry>, count: nat, descs: seq<ProcDesc>): (r: seq<Init>)
    ensures |r| == |descs|
  {
    seq(|descs|, k requires 0 <= k < |descs| => ProcInitOf(table, count, descs[k]))
  }

  ghost function HmiInits(table: seq<Entry>, count: nat, descs: seq<HmiDesc>): (r: seq<Init>)
    ensures |r| == |descs|
  {
    seq(|descs|, k requires 0 <= k < |descs| => HmiInitOf(table, count, descs[k]))
  }

  /** proc_init */
  ghost function AfterProcInit(table: seq<Entry>, mem: Memory, descs: seq<ProcDesc>, mode: StartMode): Memory {
    if mode == StartHmiInit then mem
    else mem.(proc := ApplyAll(mem.proc, ProcInits(table, |mem.proc|, descs)))
  }

  /** hmi_init */
  ghost function AfterHmiInit(table: seq<Entry>, mem: Memory, descs: seq<HmiDesc>, mode: StartMode): Memory {
    if mode == StartCold then mem
    else mem.(hmi := ApplyAll(mem.hmi, HmiInits(table, |mem.hmi|, descs)))
  }

  lemma ApplyNext(slots: seq<Slot>, inits: seq<Init>, i: nat)
    requires i < |inits|
    ensures ApplyAll(slots, inits[..i + 1]) == ApplyOne(ApplyAll(slots, inits[..i]), inits[i])
  {
    assert inits[..i + 1][..i] == inits[..i];
  }

  /** One turn of the loop of proc_init. */
  method InitProcTag(rt: Runtime, d: ProcDesc)
    requires rt.Valid()
    modifies rt.procValues
    ensures rt.Valid() && rt.Table() == old(rt.Table())
    ensures rt.Mem() == old(rt.Mem()).(proc := ApplyOne(old(rt.Mem()).proc, ProcInitOf(old(rt.Table()), rt.procCount, d)))
  {
    hide IdOf, ApplyInitial, HasName;
    var fullName := "proc." + d.name;
    if |fullName| >= NAME_STORAGE {
      return;
    }
    var id := rt.FindId(fullName);
    if id == 0 {
      return;
    }
    var entry := rt.GetEntry(id);
    if entry.None? || !entry.value.ref.Proc? || entry.value.ref.index >= rt.procCount {
      return;
    }
    var k := entry.value.ref.index;
    rt.procValues[k] := ApplyInitial(rt.procValues[k], d.typ, d.initial);
  }

  method ProcInit(rt: Runtime, descs: seq<ProcDesc>, mode: StartMode) returns (rc: int)
    requires rt.Valid()
    modifies rt.procValues
    ensures rc == 0 && rt.Valid() && rt.Table() == old(rt.Table())
    ensures rt.Mem() == AfterProcInit(old(rt.Table()), old(rt.Mem()), descs, mode)
    ensures rt.Mem() == old(rt.Mem()).(proc := rt.Mem().proc) && (mode == StartHmiInit ==> rt.Mem() == old(rt.Mem()))
  {
    rc := 0;
    if mode == StartHmiInit {
      return;
    }
    ghost var table, slots := rt.Table(), rt.Mem().proc;
    ghost var inits := ProcInits(table, rt.procCount, descs);
    var i := 0;
    while i < |descs|
      invariant 0 <= i <= |descs| && rt.Valid() && rt.Table() == table
      invariant rt.Mem() == old(rt.Mem()).(proc := ApplyAll(slots, inits[..i]))
    {
      ApplyNext(slots, inits, i);
      hide ApplyAll, ApplyOne, ProcInitOf;
      InitProcTag(rt, descs[i]);
      i := i + 1;
    }
    assert inits[..i] == inits;
  }

  /** One turn of the loop of hmi_init. */
  method InitHmiTag(rt: Runtime, d: HmiDesc)
    requires rt.Valid()
    modifies rt.hmiValues
    ensures rt.Valid() && rt.Table() == old(rt.Table())
    ensures rt.Mem() == old(rt.Mem()).(hmi := ApplyOne(old(rt.Mem()).hmi, HmiInitOf(old(rt.Table()), rt.hmiCount, d)))
  {
    hide IdOf, ApplyInitial, HasName;
    if !d.HmiVariable? {
      return;
    }
    var fullName := "hmi." + d.name;
    if |fullName| >= NAME_STORAGE {
      return;
    }
    var id := rt.FindId(fullName);
    if id == 0 {
      return;
    }
    var entry := rt.GetEntry(id);
    if entry.None? || !entry.value.ref.HmiVar? || entry.value.typ != d.typ || entry.value.ref.index >= rt.hmiCount {
      return;
    }
    var k := entry.value.ref.index;
    rt.hmiValues[k] := ApplyInitial(rt.hmiValues[k], d.typ, d.initial);
  }

  method HmiInit(rt: Runtime, descs: seq<HmiDesc>, mode: StartMode) returns (rc: int)
    requires rt.Valid()
    modifies rt.hmiValues
    ensures rc == 0 && rt.Valid() && rt.Table() == old(rt.Table())
    ensures rt.Mem() == AfterHmiInit(old(rt.Table()), old(rt.Mem()), descs, mode)
    ensures rt.Mem() == old(rt.Mem()).(hmi := rt.Mem().hmi) && (mode == StartCold ==> rt.Mem() == old(rt.Mem()))
  {
    rc := 0;
    if mode == StartCold {
      return;
    }
    ghost var table, slots := rt.Table(), rt.Mem().hmi;
    ghost var inits := HmiInits(table, rt.hmiCount, descs);
    var i := 0;
    while i < |descs|
      invariant 0 <= i <= |descs| && rt.Valid() && rt.Table() == table
      invariant rt.Mem() == old(rt.Mem()).(hmi := ApplyAll(slots, inits[..i]))
    {
      ApplyNext(slots, inits, i);
      hide ApplyAll, ApplyOne, HmiInitOf;
      InitHmiTag(rt, descs[i]);
      i := i + 1;
    }
    assert inits[..i] == inits;
  }

  // ---------------------------------------------------------------- boot and factory reset

  /** main.c:118-119 */
  ghost function Boot(table: seq<Entry>, mem: Memory, cfg: SystemConfig): Memory {
    AfterHmiInit(table, AfterProcInit(table, mem, cfg.procVars, StartFactory), cfg.hmiTags, StartFactory)
  }

  ghost predicate ResetRequested(table: seq<Entry>, mem: Memory, cmd: nat) {
    cmd != 0 && ReadTag(table, mem, cmd, 1).Ok? && ReadTag(table, mem, cmd, 1).value[0] != 0
  }

  /** main.c:65-75: the command tag is polled, cleared, and both stores are initialised again. */
  ghost function PollReset(table: seq<Entry>, mem: Memory, cfg: SystemConfig, cmd: nat, junk: Bytes4): Memory {
    if !ResetRequested(table, mem, cmd) then mem
    else
      var cleared := Written(table, mem, cmd, [0], junk);
      AfterProcInit(table, AfterHmiInit(table, cleared, cfg.hmiTags, StartHmiInit), cfg.procVars, StartCold)
  }

  /** The memory after a tag_write whose result is ignored. */
  ghost function Written(table: seq<Entry>, mem: Memory, id: nat, input: seq<byte>, junk: Bytes4): Memory {
    match WriteTag(table, mem, id, input, junk)
    case Ok(m) => m
    case Err(_) => mem
  }

  method PollFactoryReset(rt: Runtime, cfg: SystemConfig, cmd: nat, junk: Bytes4)
    requires rt.Valid()
    modifies rt`outputs, rt.procValues, rt.hmiValues
    ensures rt.Valid() && rt.Table() == old(rt.Table())
    ensures rt.Mem() == PollReset(old(rt.Table()), old(rt.Mem()), cfg, cmd, junk)
    ensures var v := ReadTag(old(rt.Table()), old(rt.Mem()), cmd, 1);
      cmd == 0 || v.Err? || v.value[0] == 0 ==> rt.Mem() == old(rt.Mem())
  {
    if cmd != 0 {
      var v := rt.TagRead(cmd, 1);
      hide ReadTag, WriteTag, AfterProcInit, AfterHmiInit;
      if v.Ok? && v.value[0] != 0 {
        var rc := rt.TagWrite(cmd, [0], junk);
        rc := HmiInit(rt, cfg.hmiTags, StartHmiInit);
        rc := ProcInit(rt, cfg.procVars, StartCold);
      }
    }
  }
}
