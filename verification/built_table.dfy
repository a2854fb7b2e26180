/**
 What system_build makes of a configuration, told without its steps (system/builder/system_builder.c:229-490): exactly when
 it succeeds, and then every row of the tag table, read off the configuration.
 */
module BuiltTable {
  import opened Builder
  import opened FactoryReset
  import opened Tags
  import opened Words

  // ---------------------------------------------------------------- names

  ghost function NamesOf(table: seq<Entry>): (r: seq<string>)
    ensures |r| == |table|
  {
    seq(|table|, i requires 0 <= i < |table| => table[i].name)
  }

  /** What the tag table can hold: at most 256 different names of 1 to 127 characters. */
  ghost predicate NamesFit(names: seq<string>) {
    && |names| <= 256
    && (forall i :: 0 <= i < |names| ==> 1 <= |names[i]| <= 127)
    && (forall i, j :: 0 <= i < j < |names| ==> names[i] != names[j])
  }

  lemma OneMoreName(names: seq<string>, x: string)
    ensures NamesFit(names + [x]) <==> NamesFit(names) && 1 <= |x| <= 127 && |names| < 256 && x !in names
  {
    var all := names + [x];
    assert all[|names|] == x;
    assert forall i :: 0 <= i < |names| ==> all[i] == names[i];
  }

  lemma FewerNamesFit(a: seq<string>, b: seq<string>)
    requires NamesFit(a + b)
    ensures NamesFit(a)
  {
    assert forall i :: 0 <= i < |a| ==> (a + b)[i] == a[i];
  }

  /** An entry can be added exactly when its name still fits. */
  lemma AddEntryIff(table: seq<Entry>, e: Entry)
    requires NamesFit(NamesOf(table))
    ensures AddEntry(table, e).Some? <==> NamesFit(NamesOf(table) + [e.name])
    ensures AddEntry(table, e).Some? ==> AddEntry(table, e).value == table + [e]
    ensures NamesOf(table + [e]) == NamesOf(table) + [e.name]
  {
    OneMoreName(NamesOf(table), e.name);
    NameHeld(table, e.name);
    hide NamesFit, HasName;
    assert e.name == "" <==> |e.name| == 0;
  }

  lemma NameHeld(table: seq<Entry>, name: string)
    ensures HasName(table, name) <==> name in NamesOf(table)
    ensures IdOf(table, name) != 0 <==> name in NamesOf(table)
  {
    IdOfMeans(table, name);
    hide IdOf;
    if HasName(table, name) {
      var i :| 0 <= i < |table| && table[i].name == name;
      assert NamesOf(table)[i] == name;
    }
    if name in NamesOf(table) {
      var i :| 0 <= i < |table| && NamesOf(table)[i] == name;
      assert table[i].name == name;
    }
  }

  lemma LengthOfNames(table: seq<Entry>)
    ensures |NamesOf(table)| == |table|
  {
  }

  // ---------------------------------------------------------------- process variables

  ghost function ProcNames(procs: seq<ProcDesc>, n: nat): (r: seq<string>)
    requires n <= |procs|
    ensures |r| == n
  {
    seq(n, k requires 0 <= k < n => "proc." + procs[k].name)
  }

  ghost predicate ProcRow(table: seq<Entry>, procs: seq<ProcDesc>, k: nat)
    requires k < |procs|
  {
    k < |table| && table[k] == Entry("proc." + procs[k].name, procs[k].typ, Proc(k))
  }

  lemma {:induction false} ProcsIff(procs: seq<ProcDesc>, n: nat)
    requires n <= |procs|
    ensures AddProcs([], procs, n).Some? <==> NamesFit(ProcNames(procs, n))
    ensures AddProcs([], procs, n).Some? ==>
      var t := AddProcs([], procs, n).value;
      NamesOf(t) == ProcNames(procs, n) && forall k :: 0 <= k < n ==> ProcRow(t, procs, k)
  {
    if n == 0 {
      assert NamesOf([]) == ProcNames(procs, 0) == [];
    } else {
      ProcsIff(procs, n - 1);
      var name := "proc." + procs[n - 1].name;
      assert ProcNames(procs, n) == ProcNames(procs, n - 1) + [name];
      if AddProcs([], procs, n - 1).Some? {
        var t := AddProcs([], procs, n - 1).value;
        var e := ProcEntry(procs[n - 1], n - 1);
        AddEntryIff(t, e);
        LengthOfNames(t);
        forall k | 0 <= k < n ensures ProcRow(t + [e], procs, k) {
          assert k < n - 1 ==> ProcRow(t, procs, k);
        }
      } else if NamesFit(ProcNames(procs, n)) {
        FewerNamesFit(ProcNames(procs, n - 1), [name]);
      }
      hide NamesFit, AddEntry, NamesOf;
    }
  }

  // ---------------------------------------------------------------- HMI tags

  ghost function HmiNames(hmis: seq<HmiDesc>, n: nat): (r: seq<string>)
    requires n <= |hmis|
    ensures |r| == n
  {
    seq(n, j requires 0 <= j < n => "hmi." + hmis[j].name)
  }

  /** A descriptor is a variable, or an alias of a name that is there before it. */
  ghost predicate HmiDescOk(names: seq<string>, hmis: seq<HmiDesc>, j: nat)
    requires j < |hmis|
  {
    match hmis[j]
    case HmiAlias(_, _, aliasOf) => aliasOf.Some? && aliasOf.value in names + HmiNames(hmis, j)
    case HmiVariable(_, _, _, _) => true
    case HmiOther(_) => false
  }

  ghost predicate HmisFit(names: seq<string>, hmis: seq<HmiDesc>, n: nat)
    requires n <= |hmis|
  {
    && NamesFit(names + HmiNames(hmis, n)) && VarCount(hmis, n) <= 64
    && forall j :: 0 <= j < n ==> HmiDescOk(names, hmis, j)
  }

  /** The row of an alias: the type of the row it names, that row's id, and the access of its own descriptor. */
  ghost predicate AliasRow(table: seq<Entry>, i: nat, d: HmiDesc, t: nat)
    requires i < |table| && d.HmiAlias?
  {
    && t < i && d.aliasOf == Some(table[t].name)
    && table[i] == Entry("hmi." + d.name, table[t].typ, Alias(t + 1, d.access))
  }

  /** Descriptor `j`, `first` being the row of descriptor 0. */
  ghost predicate HmiRow(table: seq<Entry>, first: nat, hmis: seq<HmiDesc>, j: nat)
    requires j < |hmis|
  {
    var i, d := first + j, hmis[j];
    i < |table| &&
    match d
    case HmiAlias(_, _, _) => exists t: nat :: AliasRow(table, i, d, t)
    case HmiVariable(name, access, typ, _) => table[i] == Entry("hmi." + name, typ, HmiVar(VarCount(hmis, j), access))
    case HmiOther(_) => false
  }

  lemma HmiRowStays(table: seq<Entry>, longer: seq<Entry>, first: nat, hmis: seq<HmiDesc>, j: nat)
    requires table <= longer && j < |hmis| && HmiRow(table, first, hmis, j)
    ensures HmiRow(longer, first, hmis, j)
  {
    if hmis[j].HmiAlias? {
      var t: nat :| AliasRow(table, first + j, hmis[j], t);
      assert AliasRow(longer, first + j, hmis[j], t);
    }
  }

  /** One alias more. */
  lemma AliasIff(s: HmiState, d: HmiDesc)
    requires NamesFit(NamesOf(s.table)) && d.HmiAlias?
    ensures AddHmi(s, d).Some? <==>
        d.aliasOf.Some? && d.aliasOf.value in NamesOf(s.table) && NamesFit(NamesOf(s.table) + ["hmi." + d.name])
    ensures AddHmi(s, d).Some? ==>
      var u := AddHmi(s, d).value;
      && s.table <= u.table && NamesOf(u.table) == NamesOf(s.table) + ["hmi." + d.name] && u.slots == s.slots
      && |u.table| == |s.table| + 1 && exists t: nat :: AliasRow(u.table, |s.table|, d, t)
  {
    if d.aliasOf.Some? {
      NameHeld(s.table, d.aliasOf.value);
      IdOfMeans(s.table, d.aliasOf.value);
      var target := IdOf(s.table, d.aliasOf.value);
      if target != 0 {
        var e := Entry("hmi." + d.name, s.table[target - 1].typ, Alias(target, d.access));
        AddEntryIff(s.table, e);
        assert AliasRow(s.table + [e], |s.table|, d, target - 1);
      }
    }
    hide NamesFit, HasName, AddEntry, NamesOf, IdOf;
  }

  /** One variable more. */
  lemma VariableIff(s: HmiState, d: HmiDesc)
    requires NamesFit(NamesOf(s.table)) && d.HmiVariable?
    ensures AddHmi(s, d).Some? <==> |s.slots| < 64 && NamesFit(NamesOf(s.table) + ["hmi." + d.name])
    ensures AddHmi(s, d).Some? ==>
      AddHmi(s, d).value == HmiState(s.table + [Entry("hmi." + d.name, d.typ, HmiVar(|s.slots|, d.access))],
                                     s.slots + [Slot(d.typ, [0, 0, 0, 0])])
      && NamesOf(AddHmi(s, d).value.table) == NamesOf(s.table) + ["hmi." + d.name]
  {
    AddEntryIff(s.table, Entry("hmi." + d.name, d.typ, HmiVar(|s.slots|, d.access)));
    hide NamesFit, HasName, AddEntry, NamesOf;
  }

  /** One descriptor more. */
  lemma HmiIff(s: HmiState, first: nat, names: seq<string>, hmis: seq<HmiDesc>, j: nat)
    requires j < |hmis| && |s.table| == first + j && NamesOf(s.table) == names + HmiNames(hmis, j)
    requires NamesFit(NamesOf(s.table)) && |s.slots| == VarCount(hmis, j) <= 64
    ensures AddHmi(s, hmis[j]).Some? <==>
        HmiDescOk(names, hmis, j) && VarCount(hmis, j + 1) <= 64 && NamesFit(names + HmiNames(hmis, j + 1))
    ensures AddHmi(s, hmis[j]).Some? ==>
      var u := AddHmi(s, hmis[j]).value;
      && s.table <= u.table && NamesOf(u.table) == names + HmiNames(hmis, j + 1) && |u.table| == first + j + 1
      && |u.slots| == VarCount(hmis, j + 1) <= 64 && s.slots <= u.slots
      && HmiRow(u.table, first, hmis, j) && HmiSlot(u.slots, hmis, j)
  {
    hide NamesFit, HasName, AddEntry, NamesOf, AddHmi;
    var d := hmis[j];
    NextHmiName(names, hmis, j);
    VarsSoFar(hmis, j);
    if d.HmiAlias? {
      AliasIff(s, d);
      if AddHmi(s, d).Some? {
        var u := AddHmi(s, d).value;
        var t: nat :| AliasRow(u.table, |s.table|, d, t);
        assert AliasRow(u.table, first + j, d, t);
      }
    } else if d.HmiVariable? {
      VariableIff(s, d);
    } else {
      OtherFails(s, d);
    }
  }

  lemma OtherFails(s: HmiState, d: HmiDesc)
    requires d.HmiOther?
    ensures AddHmi(s, d).None?
  {
  }

  lemma NextHmiName(names: seq<string>, hmis: seq<HmiDesc>, j: nat)
    requires j < |hmis|
    ensures names + HmiNames(hmis, j + 1) == (names + HmiNames(hmis, j)) + ["hmi." + hmis[j].name]
  {
    assert HmiNames(hmis, j + 1) == HmiNames(hmis, j) + ["hmi." + hmis[j].name];
  }

  lemma VarsSoFar(hmis: seq<HmiDesc>, j: nat)
    requires j < |hmis|
    ensures VarCount(hmis, j + 1) == VarCount(hmis, j) + if hmis[j].HmiVariable? then 1 else 0
  {
  }

  ghost predicate HmiSlot(slots: seq<Slot>, hmis: seq<HmiDesc>, j: nat)
    requires j < |hmis|
  {
    hmis[j].HmiVariable? ==> VarCount(hmis, j) < |slots| && slots[VarCount(hmis, j)] == Slot(hmis[j].typ, [0, 0, 0, 0])
  }

  /** The rows and cells of the first `n` descriptors. */
  ghost predicate HmiRows(s: HmiState, first: nat, hmis: seq<HmiDesc>, n: nat)
    requires n <= |hmis|
  {
    forall j :: 0 <= j < n ==> HmiRow(s.table, first, hmis, j) && HmiSlot(s.slots, hmis, j)
  }

  lemma HmiRowsGrow(s: HmiState, u: HmiState, first: nat, hmis: seq<HmiDesc>, n: nat)
    requires n < |hmis| && HmiRows(s, first, hmis, n) && s.table <= u.table && s.slots <= u.slots
    requires HmiRow(u.table, first, hmis, n) && HmiSlot(u.slots, hmis, n)
    ensures HmiRows(u, first, hmis, n + 1)
  {
    forall j | 0 <= j < n + 1 ensures HmiRow(u.table, first, hmis, j) && HmiSlot(u.slots, hmis, j) {
      if j < n {
        HmiRowStays(s.table, u.table, first, hmis, j);
        assert HmiSlot(s.slots, hmis, j);
      }
    }
  }

  lemma HmisFitOneMore(names: seq<string>, hmis: seq<HmiDesc>, n: nat)
    requires n < |hmis|
    ensures HmisFit(names, hmis, n + 1) <==>
        HmisFit(names, hmis, n)
        && HmiDescOk(names, hmis, n) && VarCount(hmis, n + 1) <= 64 && NamesFit(names + HmiNames(hmis, n + 1))
  {
    NextHmiName(names, hmis, n);
    if NamesFit(names + HmiNames(hmis, n + 1)) {
      FewerNamesFit(names + HmiNames(hmis, n), ["hmi." + hmis[n].name]);
    }
    hide NamesFit, HmiNames, HmiDescOk;
  }

  lemma {:induction false} HmisIff(table: seq<Entry>, hmis: seq<HmiDesc>, n: nat)
    requires n <= |hmis| && NamesFit(NamesOf(table))
    ensures AddHmis(table, hmis, n).Some? <==> HmisFit(NamesOf(table), hmis, n)
    ensures AddHmis(table, hmis, n).Some? ==>
      var s := AddHmis(table, hmis, n).value;
      && table <= s.table && |s.table| == |table| + n && NamesOf(s.table) == NamesOf(table) + HmiNames(hmis, n)
      && |s.slots| == VarCount(hmis, n) <= 64 && HmiRows(s, |table|, hmis, n)
  {
    hide NamesFit, AddHmi, NamesOf, HmiNames, HmisFit, HmiRows, HmiRow, HmiSlot, HmiDescOk;
    if n == 0 {
      NoHmis(table, hmis);
    } else {
      HmisIff(table, hmis, n - 1);
      HmisFitOneMore(NamesOf(table), hmis, n - 1);
      if AddHmis(table, hmis, n - 1).Some? {
        var s := AddHmis(table, hmis, n - 1).value;
        NamesStillFit(NamesOf(table), hmis, n - 1);
        HmiIff(s, |table|, NamesOf(table), hmis, n - 1);
        if AddHmi(s, hmis[n - 1]).Some? {
          HmiRowsGrow(s, AddHmi(s, hmis[n - 1]).value, |table|, hmis, n - 1);
        }
      }
    }
  }

  lemma NamesStillFit(names: seq<string>, hmis: seq<HmiDesc>, n: nat)
    requires n <= |hmis| && HmisFit(names, hmis, n)
    ensures NamesFit(names + HmiNames(hmis, n))
  {
  }

  lemma NoHmis(table: seq<Entry>, hmis: seq<HmiDesc>)
    requires NamesFit(NamesOf(table))
    ensures HmisFit(NamesOf(table), hmis, 0) && NamesOf(table) + HmiNames(hmis, 0) == NamesOf(table)
    ensures VarCount(hmis, 0) == 0 && HmiRows(HmiState(table, []), |table|, hmis, 0)
  {
    assert NamesOf(table) + HmiNames(hmis, 0) == NamesOf(table);
  }

  // ---------------------------------------------------------------- I/O tags

  /** What validate_tag_desc accepts, the end offset being a 32-bit sum. */
  ghost predicate TagOk(tag: TagDesc, desc: DeviceDesc) {
    && tag.name.Some? && tag.dir.Some?
    && var size := if tag.dir.value == In then desc.txBytes else desc.rxBytes;
      && size > 0
      && match tag.typ
         case TBool => tag.bit <= 7 && tag.offset < size
         case TU8 => tag.bit == 0 && (tag.offset + 1) % 0x1_0000_0000 <= size
         case TU16 => tag.bit == 0 && (tag.offset + 2) % 0x1_0000_0000 <= size
         case TU32 => tag.bit == 0 && (tag.offset + 4) % 0x1_0000_0000 <= size
         case TReal => tag.bit == 0 && (tag.offset + 4) % 0x1_0000_0000 <= size
         case TOther => false
  }

  lemma TagOkIff(tag: TagDesc, desc: DeviceDesc)
    ensures ValidTagDesc(tag, desc) <==> TagOk(tag, desc)
  {
  }

  function TextOr(name: Option<string>): string {
    if name.Some? then name.value else ""
  }

  ghost function TagNames(device: string, desc: DeviceDesc, n: nat): (r: seq<string>)
    requires n <= |desc.tags|
    ensures |r| == n
  {
    seq(n, k requires 0 <= k < n => device + "." + TextOr(desc.tags[k].name))
  }

  ghost predicate TagsFit(names: seq<string>, device: string, desc: DeviceDesc, n: nat)
    requires n <= |desc.tags|
  {
    NamesFit(names + TagNames(device, desc, n)) && forall k :: 0 <= k < n ==> TagOk(desc.tags[k], desc)
  }

  /** Row `first + k` is tag `k` of the device, under this address. */
  ghost predicate TagRow(table: seq<Entry>, first: nat, device: string, desc: DeviceDesc, backend: u16, index: u16, k: nat)
    requires k < |desc.tags|
  {
    var tag := desc.tags[k];
    && tag.name.Some? && tag.dir.Some? && first + k < |table|
    && table[first + k] == Entry(device + "." + tag.name.value, tag.typ,
                                 Io(backend, index, tag.dir.value, tag.offset, tag.bit))
  }

  ghost predicate TagRows(table: seq<Entry>, first: nat, device: string, desc: DeviceDesc, backend: u16, index: u16, n: nat)
    requires n <= |desc.tags|
  {
    forall k :: 0 <= k < n ==> TagRow(table, first, device, desc, backend, index, k)
  }

  lemma TagsFitOneMore(names: seq<string>, device: string, desc: DeviceDesc, n: nat)
    requires n < |desc.tags|
    ensures var name := device + "." + TextOr(desc.tags[n].name);
      && names + TagNames(device, desc, n + 1) == (names + TagNames(device, desc, n)) + [name]
      && (TagsFit(names, device, desc, n + 1) <==>
            TagsFit(names, device, desc, n) && TagOk(desc.tags[n], desc)
            && NamesFit((names + TagNames(device, desc, n)) + [name]))
  {
    var name := device + "." + TextOr(desc.tags[n].name);
    assert TagNames(device, desc, n + 1) == TagNames(device, desc, n) + [name];
    assert names + TagNames(device, desc, n + 1) == (names + TagNames(device, desc, n)) + [name];
    if NamesFit((names + TagNames(device, desc, n)) + [name]) {
      FewerNamesFit(names + TagNames(device, desc, n), [name]);
    }
    hide NamesFit, TagNames, TagOk;
  }

  lemma NoTags(table: seq<Entry>, device: string, desc: DeviceDesc, backend: u16, index: u16)
    requires NamesFit(NamesOf(table))
    ensures TagsFit(NamesOf(table), device, desc, 0) && NamesOf(table) + TagNames(device, desc, 0) == NamesOf(table)
    ensures TagRows(table, |table|, device, desc, backend, index, 0)
  {
    assert NamesOf(table) + TagNames(device, desc, 0) == NamesOf(table);
  }

  lemma TagRowsGrow(table: seq<Entry>, e: Entry, first: nat, device: string, desc: DeviceDesc, backend: u16, index: u16, n: nat)
    requires n < |desc.tags| && TagRows(table, first, device, desc, backend, index, n) && |table| == first + n
    requires TagOk(desc.tags[n], desc) && e == IoEntry(device, desc.tags[n], backend, index)
    ensures TagRows(table + [e], first, device, desc, backend, index, n + 1)
  {
    forall k | 0 <= k < n + 1 ensures TagRow(table + [e], first, device, desc, backend, index, k) {
      assert k < n ==> TagRow(table, first, device, desc, backend, index, k);
    }
  }

  lemma {:induction false} TagsIff(table: seq<Entry>, device: string, desc: DeviceDesc, backend: u16, index: u16, n: nat)
    requires n <= |desc.tags| && NamesFit(NamesOf(table))
    ensures AddTags(table, device, desc, backend, index, n).Some? <==> TagsFit(NamesOf(table), device, desc, n)
    ensures AddTags(table, device, desc, backend, index, n).Some? ==>
      var t := AddTags(table, device, desc, backend, index, n).value;
      && table <= t && |t| == |table| + n && NamesOf(t) == NamesOf(table) + TagNames(device, desc, n)
      && TagRows(t, |table|, device, desc, backend, index, n)
  {
    hide NamesFit, NamesOf, TagNames, TagsFit, TagOk, TagRows, AddEntry, ValidTagDesc;
    if n == 0 {
      NoTags(table, device, desc, backend, index);
    } else {
      var tag := desc.tags[n - 1];
      TagsIff(table, device, desc, backend, index, n - 1);
      TagsFitOneMore(NamesOf(table), device, desc, n - 1);
      TagOkIff(tag, desc);
      if AddTags(table, device, desc, backend, index, n - 1).Some? && TagOk(tag, desc) {
        var t := AddTags(table, device, desc, backend, index, n - 1).value;
        TagsStillFit(NamesOf(table), device, desc, n - 1);
        NamedTag(tag, desc);
        var e := IoEntry(device, tag, backend, index);
        AddEntryIff(t, e);
        TagRowsGrow(t, e, |table|, device, desc, backend, index, n - 1);
      }
    }
  }

  lemma NamedTag(tag: TagDesc, desc: DeviceDesc)
    requires TagOk(tag, desc)
    ensures tag.name.Some? && tag.dir.Some?
  {
  }

  lemma TagsStillFit(names: seq<string>, device: string, desc: DeviceDesc, n: nat)
    requires n <= |desc.tags| && TagsFit(names, device, desc, n)
    ensures NamesFit(names + TagNames(device, desc, n))
  {
  }

  // ---------------------------------------------------------------- devices

  ghost function DescOf(cfg: SystemConfig, reg: Registry, i: nat): DeviceDesc
    requires i < |cfg.devices| && DeviceOk(cfg, reg, i)
  {
    reg[cfg.devices[i].model.value]
  }

  /** The names of all tags of the first `n` devices, in order. */
  ghost function DeviceNames(cfg: SystemConfig, reg: Registry, n: nat): seq<string>
    requires DevicesOk(cfg, reg) && n <= |cfg.devices|
  {
    if n == 0 then []
    else
      assert DeviceOk(cfg, reg, n - 1);
      var desc := DescOf(cfg, reg, n - 1);
      DeviceNames(cfg, reg, n - 1) + TagNames(TextOr(cfg.devices[n - 1].name), desc, |desc.tags|)
  }

  /** A named device all of whose tags are valid. */
  ghost predicate DeviceTagsOk(cfg: SystemConfig, reg: Registry, i: nat)
    requires DevicesOk(cfg, reg) && i < |cfg.devices|
  {
    assert DeviceOk(cfg, reg, i);
    var desc := DescOf(cfg, reg, i);
    cfg.devices[i].name.Some? && forall k :: 0 <= k < |desc.tags| ==> TagOk(desc.tags[k], desc)
  }

  ghost predicate DevicesFit(names: seq<string>, cfg: SystemConfig, reg: Registry, n: nat)
    requires DevicesOk(cfg, reg) && n <= |cfg.devices|
  {
    NamesFit(names + DeviceNames(cfg, reg, n)) && forall i :: 0 <= i < n ==> DeviceTagsOk(cfg, reg, i)
  }

  /** All tags of device `i`, addressed to the first backend of its backend's name and to its place on it. */
  ghost predicate DeviceRows(table: seq<Entry>, first: nat, cfg: SystemConfig, reg: Registry, i: nat)
    requires DevicesOk(cfg, reg) && i < |cfg.devices|
  {
    assert DeviceOk(cfg, reg, i);
    var d, desc := cfg.devices[i], DescOf(cfg, reg, i);
    d.name.Some? && exists b: u16 ::
      && BackendNamed(cfg, b, d.backend.value)
      && (forall c :: 0 <= c < b ==> !BackendNamed(cfg, c, d.backend.value))
      && TagRows(table, first + |DeviceNames(cfg, reg, i)|, d.name.value, desc, b,
                 |Matching(cfg, d.backend.value, i)| % 0x1_0000, |desc.tags|)
  }

  lemma TagRowsStay(table: seq<Entry>, longer: seq<Entry>, first: nat, device: string, desc: DeviceDesc, backend: u16,
      index: u16, n: nat)
    requires table <= longer && n <= |desc.tags| && TagRows(table, first, device, desc, backend, index, n)
    ensures TagRows(longer, first, device, desc, backend, index, n)
  {
    forall k | 0 <= k < n ensures TagRow(longer, first, device, desc, backend, index, k) {
      assert TagRow(table, first, device, desc, backend, index, k);
    }
  }

  lemma DeviceRowsStay(table: seq<Entry>, longer: seq<Entry>, first: nat, cfg: SystemConfig, reg: Registry, i: nat)
    requires DevicesOk(cfg, reg) && i < |cfg.devices| && table <= longer && DeviceRows(table, first, cfg, reg, i)
    ensures DeviceRows(longer, first, cfg, reg, i)
  {
    assert DeviceOk(cfg, reg, i);
    var d, desc := cfg.devices[i], DescOf(cfg, reg, i);
    var at, index := first + |DeviceNames(cfg, reg, i)|, |Matching(cfg, d.backend.value, i)| % 0x1_0000;
    var b: u16 :|
      && BackendNamed(cfg, b, d.backend.value)
      && (forall c :: 0 <= c < b ==> !BackendNamed(cfg, c, d.backend.value))
      && TagRows(table, at, d.name.value, desc, b, index, |desc.tags|);
    hide TagRows;
    TagRowsStay(table, longer, at, d.name.value, desc, b, index, |desc.tags|);
  }

  /** One device more. */
  lemma DeviceIff(table: seq<Entry>, t: seq<Entry>, cfg: SystemConfig, reg: Registry, i: nat)
    requires DevicesOk(cfg, reg) && i < |cfg.devices| && |t| == |table| + |DeviceNames(cfg, reg, i)|
    requires NamesOf(t) == NamesOf(table) + DeviceNames(cfg, reg, i) && NamesFit(NamesOf(t))
    requires cfg.devices[i].name.Some?
    ensures DeviceOk(cfg, reg, i)
    ensures var d, desc := cfg.devices[i], DescOf(cfg, reg, i);
      var r := AddTags(t, d.name.value, desc, FirstBackend(cfg, d.backend.value, 0).value,
                       Trunc16(|Matching(cfg, d.backend.value, i)|), |desc.tags|);
      && (r.Some? <==> DeviceTagsOk(cfg, reg, i) && NamesFit(NamesOf(table) + DeviceNames(cfg, reg, i + 1)))
      && (r.Some? ==>
            && t <= r.value && |r.value| == |table| + |DeviceNames(cfg, reg, i + 1)|
            && NamesOf(r.value) == NamesOf(table) + DeviceNames(cfg, reg, i + 1)
            && DeviceRows(r.value, |table|, cfg, reg, i))
  {
    assert DeviceOk(cfg, reg, i);
    var d, desc := cfg.devices[i], DescOf(cfg, reg, i);
    var b, index := FirstBackend(cfg, d.backend.value, 0).value, Trunc16(|Matching(cfg, d.backend.value, i)|);
    hide NamesFit, NamesOf, TagNames, TagOk, TagRows, AddTags, Matching, FirstBackend;
    TagsIff(t, d.name.value, desc, b, index, |desc.tags|);
    assert NamesOf(table) + DeviceNames(cfg, reg, i + 1) == NamesOf(t) + TagNames(d.name.value, desc, |desc.tags|);
  }

  lemma DevicesFitOneMore(names: seq<string>, cfg: SystemConfig, reg: Registry, n: nat)
    requires DevicesOk(cfg, reg) && n < |cfg.devices|
    ensures DevicesFit(names, cfg, reg, n + 1) <==>
        DevicesFit(names, cfg, reg, n) && DeviceTagsOk(cfg, reg, n) && NamesFit(names + DeviceNames(cfg, reg, n + 1))
  {
    assert DeviceOk(cfg, reg, n);
    var desc := DescOf(cfg, reg, n);
    var last := TagNames(TextOr(cfg.devices[n].name), desc, |desc.tags|);
    assert names + DeviceNames(cfg, reg, n + 1) == (names + DeviceNames(cfg, reg, n)) + last;
    if NamesFit(names + DeviceNames(cfg, reg, n + 1)) {
      FewerNamesFit(names + DeviceNames(cfg, reg, n), last);
    }
    hide NamesFit, TagNames, DeviceTagsOk;
  }

  lemma DevicesStillFit(names: seq<string>, cfg: SystemConfig, reg: Registry, n: nat)
    requires DevicesOk(cfg, reg) && n <= |cfg.devices| && DevicesFit(names, cfg, reg, n)
    ensures NamesFit(names + DeviceNames(cfg, reg, n))
  {
  }

  lemma NoDevices(table: seq<Entry>, cfg: SystemConfig, reg: Registry)
    requires DevicesOk(cfg, reg) && NamesFit(NamesOf(table))
    ensures DevicesFit(NamesOf(table), cfg, reg, 0) && DeviceNames(cfg, reg, 0) == []
    ensures NamesOf(table) + DeviceNames(cfg, reg, 0) == NamesOf(table)
  {
    assert NamesOf(table) + DeviceNames(cfg, reg, 0) == NamesOf(table);
  }

  /** The definition of AddDevices, one device more. */
  lemma NextDevice(table: seq<Entry>, cfg: SystemConfig, reg: Registry, n: nat)
    requires DevicesOk(cfg, reg) && n < |cfg.devices|
    ensures DeviceOk(cfg, reg, n)
    ensures AddDevices(table, cfg, reg, n).None? ==> AddDevices(table, cfg, reg, n + 1).None?
    ensures AddDevices(table, cfg, reg, n).Some? ==>
      var d, desc := cfg.devices[n], DescOf(cfg, reg, n);
      if d.name.None? then AddDevices(table, cfg, reg, n + 1).None?
      else
        AddDevices(table, cfg, reg, n + 1)
        == AddTags(AddDevices(table, cfg, reg, n).value, d.name.value, desc, FirstBackend(cfg, d.backend.value, 0).value,
                   Trunc16(|Matching(cfg, d.backend.value, n)|), |desc.tags|)
  {
    assert DeviceOk(cfg, reg, n);
    hide AddTags, Matching, FirstBackend;
  }

  lemma UnnamedDevice(cfg: SystemConfig, reg: Registry, i: nat)
    requires DevicesOk(cfg, reg) && i < |cfg.devices| && cfg.devices[i].name.None?
    ensures !DeviceTagsOk(cfg, reg, i)
  {
  }

  lemma {:induction false} DevicesIff(table: seq<Entry>, cfg: SystemConfig, reg: Registry, n: nat)
    requires DevicesOk(cfg, reg) && n <= |cfg.devices| && NamesFit(NamesOf(table))
    ensures AddDevices(table, cfg, reg, n).Some? <==> DevicesFit(NamesOf(table), cfg, reg, n)
    ensures AddDevices(table, cfg, reg, n).Some? ==>
      var t := AddDevices(table, cfg, reg, n).value;
      && table <= t && |t| == |table| + |DeviceNames(cfg, reg, n)|
      && NamesOf(t) == NamesOf(table) + DeviceNames(cfg, reg, n)
      && forall i :: 0 <= i < n ==> DeviceRows(t, |table|, cfg, reg, i)
  {
    if n == 0 {
      NoDevices(table, cfg, reg);
    } else {
      hide NamesFit, NamesOf, DeviceNames, DevicesFit, DeviceTagsOk, DeviceRows, AddDevices, AddTags, DevicesOk;
      DevicesIff(table, cfg, reg, n - 1);
      DevicesFitOneMore(NamesOf(table), cfg, reg, n - 1);
      NextDevice(table, cfg, reg, n - 1);
      if AddDevices(table, cfg, reg, n - 1).Some? {
        var t := AddDevices(table, cfg, reg, n - 1).value;
        DevicesStillFit(NamesOf(table), cfg, reg, n - 1);
        if cfg.devices[n - 1].name.Some? {
          DeviceIff(table, t, cfg, reg, n - 1);
          if AddDevices(table, cfg, reg, n).Some? {
            var u := AddDevices(table, cfg, reg, n).value;
            forall i | 0 <= i < n ensures DeviceRows(u, |table|, cfg, reg, i) {
              if i < n - 1 {
                DeviceRowsStay(t, u, |table|, cfg, reg, i);
              }
            }
          }
        } else {
          UnnamedDevice(cfg, reg, n - 1);
        }
      }
    }
  }

  // ---------------------------------------------------------------- binding

  /** A position the driver accepts. */
  ghost predicate PositionOk(cfg: SystemConfig, slaveCount: nat, i: nat)
    requires i < |cfg.devices|
  {
    cfg.devices[i].position > 0 && (slaveCount > 0 ==> cfg.devices[i].position <= slaveCount)
  }

  ghost predicate OnBackend(cfg: SystemConfig, name: string, i: nat) {
    i < |cfg.devices| && cfg.devices[i].backend == Some(name)
  }

  /** Among the first `n` devices those on this backend have acceptable and different positions. */
  ghost predicate Bindings(cfg: SystemConfig, name: string, slaveCount: nat, n: nat)
    requires n <= |cfg.devices|
  {
    && (forall i :: 0 <= i < n && OnBackend(cfg, name, i) ==> PositionOk(cfg, slaveCount, i))
    && (forall i, j :: 0 <= i < j < n && OnBackend(cfg, name, i) && OnBackend(cfg, name, j) ==>
          cfg.devices[i].position != cfg.devices[j].position)
  }

  lemma {:induction false} InMatching(cfg: SystemConfig, name: string, n: nat, i: nat)
    requires n <= |cfg.devices|
    ensures i in Matching(cfg, name, n) <==> i < n && OnBackend(cfg, name, i)
    decreases n
  {
    if n > 0 {
      InMatching(cfg, name, n - 1, i);
    }
  }

  lemma {:induction false} BindPrefixIff(cfg: SystemConfig, name: string, slaveCount: nat, n: nat)
    requires n <= |cfg.devices|
    ensures BindPrefix(cfg, name, slaveCount, n).Some? <==> Bindings(cfg, name, slaveCount, n)
  {
    if n > 0 {
      BindPrefixIff(cfg, name, slaveCount, n - 1);
      if OnBackend(cfg, name, n - 1) && BindPrefix(cfg, name, slaveCount, n - 1).Some? {
        BindableIff(cfg, name, slaveCount, n - 1);
      }
      hide Bindable, PositionOk;
    }
  }

  lemma BindableIff(cfg: SystemConfig, name: string, slaveCount: nat, n: nat)
    requires n < |cfg.devices|
    ensures Bindable(cfg, Matching(cfg, name, n), slaveCount, n) <==>
        PositionOk(cfg, slaveCount, n)
        && forall i :: 0 <= i < n && OnBackend(cfg, name, i) ==> cfg.devices[i].position != cfg.devices[n].position
  {
    var bound := Matching(cfg, name, n);
    forall i | 0 <= i < n && OnBackend(cfg, name, i) ensures i in bound {
      InMatching(cfg, name, n, i);
    }
    forall k | 0 <= k < |bound| ensures bound[k] < n && OnBackend(cfg, name, bound[k]) {
      InMatching(cfg, name, n, bound[k]);
    }
    hide Matching;
    if i: nat :| i < n && OnBackend(cfg, name, i) && cfg.devices[i].position == cfg.devices[n].position {
      var k :| 0 <= k < |bound| && bound[k] == i;
      assert PositionTaken(cfg, bound, cfg.devices[n].position);
    }
  }

  /** Backend `b` comes up: named, created, initialised and finalised, with all its devices bound. */
  ghost predicate BackendOk(cfg: SystemConfig, envs: seq<BackendEnv>, b: nat)
    requires b < |cfg.backends| == |envs|
  {
    && cfg.backends[b].name.Some? && cfg.backends[b].ifname.Some?
    && envs[b].created && envs[b].initOk && envs[b].finalizeOk
    && Bindings(cfg, cfg.backends[b].name.value, envs[b].slaveCount, |cfg.devices|)
  }

  lemma {:induction false} BindBackendsIff(cfg: SystemConfig, envs: seq<BackendEnv>, n: nat)
    requires n <= |cfg.backends| == |envs|
    ensures BindBackends(cfg, envs, n).Some? <==> forall b :: 0 <= b < n ==> BackendOk(cfg, envs, b)
  {
    if n > 0 {
      BindBackendsIff(cfg, envs, n - 1);
      if cfg.backends[n - 1].name.Some? {
        BindPrefixIff(cfg, cfg.backends[n - 1].name.value, envs[n - 1].slaveCount, |cfg.devices|);
      }
      hide Bindings, BindPrefix;
      if forall b :: 0 <= b < n ==> BackendOk(cfg, envs, b) {
        assert BackendOk(cfg, envs, n - 1);
      }
    }
  }

  // ---------------------------------------------------------------- the whole build

  /** The device names a configured backend and a registered model. */
  ghost predicate KnownDevice(cfg: SystemConfig, reg: Registry, i: nat)
    requires i < |cfg.devices|
  {
    var d := cfg.devices[i];
    && d.backend.Some? && d.model.Some? && d.model.value in reg
    && exists b: nat :: BackendNamed(cfg, b, d.backend.value)
  }

  lemma KnownIff(cfg: SystemConfig, reg: Registry, i: nat)
    requires i < |cfg.devices|
    ensures DeviceOk(cfg, reg, i) <==> KnownDevice(cfg, reg, i)
  {
    if cfg.devices[i].backend.Some? {
      var found := FirstBackend(cfg, cfg.devices[i].backend.value, 0);
      if found.Some? {
        assert BackendNamed(cfg, found.value, cfg.devices[i].backend.value);
      }
    }
  }

  lemma DevicesOkIff(cfg: SystemConfig, reg: Registry)
    ensures DevicesOk(cfg, reg) <==> |cfg.backends| <= 4 && forall i :: 0 <= i < |cfg.devices| ==> KnownDevice(cfg, reg, i)
  {
    forall i | 0 <= i < |cfg.devices| ensures DeviceOk(cfg, reg, i) <==> KnownDevice(cfg, reg, i) {
      KnownIff(cfg, reg, i);
    }
    hide DeviceOk, KnownDevice;
    if DevicesOk(cfg, reg) {
      forall i | 0 <= i < |cfg.devices| ensures KnownDevice(cfg, reg, i) {
        assert DeviceOk(cfg, reg, i);
      }
    } else if forall i :: 0 <= i < |cfg.devices| ==> KnownDevice(cfg, reg, i) {
      forall i | 0 <= i < |cfg.devices| ensures DeviceOk(cfg, reg, i) {
        assert KnownDevice(cfg, reg, i);
      }
    }
  }

  /** The configuration can be built, in its own terms. */
  ghost predicate Buildable(cfg: SystemConfig, reg: Registry, envs: seq<BackendEnv>)
    requires |envs| == |cfg.backends|
  {
    DevicesOkIff(cfg, reg);
    && 1 <= |cfg.backends| <= 4 && 1 <= |cfg.devices|
    && (forall i :: 0 <= i < |cfg.devices| ==> KnownDevice(cfg, reg, i))
    && (forall b :: 0 <= b < |cfg.backends| ==> BackendOk(cfg, envs, b))
    && |cfg.procVars| <= 64 && Fillable(cfg, reg)
  }

  /** The names of all tags: process variables, HMI tags, and the tags of the devices, in configuration order. */
  ghost function AllNames(cfg: SystemConfig, reg: Registry): seq<string>
    requires DevicesOk(cfg, reg)
  {
    ProcNames(cfg.procVars, |cfg.procVars|) + HmiNames(cfg.hmiTags, |cfg.hmiTags|) + DeviceNames(cfg, reg, |cfg.devices|)
  }

  /** The names of the process and HMI part fit when all names do. */
  lemma PartsFit(cfg: SystemConfig, reg: Registry)
    requires DevicesOk(cfg, reg) && NamesFit(AllNames(cfg, reg))
    ensures NamesFit(ProcNames(cfg.procVars, |cfg.procVars|))
    ensures NamesFit(ProcNames(cfg.procVars, |cfg.procVars|) + HmiNames(cfg.hmiTags, |cfg.hmiTags|))
  {
    hide NamesFit, ProcNames, HmiNames, DeviceNames;
    var procs, hmis := ProcNames(cfg.procVars, |cfg.procVars|), HmiNames(cfg.hmiTags, |cfg.hmiTags|);
    FewerNamesFit(procs + hmis, DeviceNames(cfg, reg, |cfg.devices|));
    FewerNamesFit(procs, hmis);
  }

  /** The three loops that fill the table, after binding has succeeded. */
  ghost function Filled(cfg: SystemConfig, reg: Registry): Option<(seq<Entry>, seq<Slot>)>
    requires DevicesOk(cfg, reg)
  {
    match AddProcs([], cfg.procVars, |cfg.procVars|)
    case None => None
    case Some(t) =>
      match AddHmis(t, cfg.hmiTags, |cfg.hmiTags|)
      case None => None
      case Some(s) =>
        match AddDevices(s.table, cfg, reg, |cfg.devices|)
        case None => None
        case Some(u) => Some((u, s.slots))
  }

  /** At most 64 HMI variables, aliases of earlier names only, named devices with valid tags, and names that fit the table. */
  ghost predicate Fillable(cfg: SystemConfig, reg: Registry)
    requires DevicesOk(cfg, reg)
  {
    && VarCount(cfg.hmiTags, |cfg.hmiTags|) <= 64
    && (forall j :: 0 <= j < |cfg.hmiTags| ==> HmiDescOk(ProcNames(cfg.procVars, |cfg.procVars|), cfg.hmiTags, j))
    && (forall i :: 0 <= i < |cfg.devices| ==> DeviceTagsOk(cfg, reg, i))
    && NamesFit(AllNames(cfg, reg))
  }

  ghost predicate AllDeviceRows(table: seq<Entry>, first: nat, cfg: SystemConfig, reg: Registry)
    requires DevicesOk(cfg, reg)
  {
    forall i :: 0 <= i < |cfg.devices| ==> DeviceRows(table, first, cfg, reg, i)
  }

  /** Every row of the table and every cell of the HMI store, read off the configuration. */
  ghost predicate RowsOf(cfg: SystemConfig, reg: Registry, table: seq<Entry>, slots: seq<Slot>)
    requires DevicesOk(cfg, reg)
  {
    var p, h := |cfg.procVars|, |cfg.hmiTags|;
    && NamesOf(table) == AllNames(cfg, reg)
    && (forall k :: 0 <= k < p ==> ProcRow(table, cfg.procVars, k))
    && (forall j :: 0 <= j < h ==> HmiRow(table, p, cfg.hmiTags, j) && HmiSlot(slots, cfg.hmiTags, j))
    && AllDeviceRows(table, p + h, cfg, reg)
    && |slots| == VarCount(cfg.hmiTags, h)
  }

  lemma FilledIff(cfg: SystemConfig, reg: Registry)
    requires DevicesOk(cfg, reg)
    ensures Filled(cfg, reg).Some? <==> Fillable(cfg, reg)
    ensures Filled(cfg, reg).Some? ==> RowsOf(cfg, reg, Filled(cfg, reg).value.0, Filled(cfg, reg).value.1)
  {
    hide NamesFit, NamesOf, ProcNames, HmiNames, DeviceNames, HmiDescOk, DeviceTagsOk, HmiRow, ProcRow, DeviceRows, HmiSlot;
    hide AddProcs, AddHmis, AddDevices, DevicesOk;
    var p, h, n := |cfg.procVars|, |cfg.hmiTags|, |cfg.devices|;
    ProcsIff(cfg.procVars, p);
    if NamesFit(AllNames(cfg, reg)) {
      PartsFit(cfg, reg);
    }
    if AddProcs([], cfg.procVars, p).Some? {
      var t := AddProcs([], cfg.procVars, p).value;
      LengthOfNames(t);
      HmisIff(t, cfg.hmiTags, h);
      if AddHmis(t, cfg.hmiTags, h).Some? {
        var s := AddHmis(t, cfg.hmiTags, h).value;
        DevicesIff(s.table, cfg, reg, n);
        if AddDevices(s.table, cfg, reg, n).Some? {
          RowsStay(cfg, reg, t, s, AddDevices(s.table, cfg, reg, n).value);
        }
      }
    }
  }

  lemma RowsStay(cfg: SystemConfig, reg: Registry, t: seq<Entry>, s: HmiState, u: seq<Entry>)
    requires t <= s.table <= u && |t| == |cfg.procVars|
    requires forall k :: 0 <= k < |cfg.procVars| ==> ProcRow(t, cfg.procVars, k)
    requires HmiRows(s, |t|, cfg.hmiTags, |cfg.hmiTags|)
    ensures forall k :: 0 <= k < |cfg.procVars| ==> ProcRow(u, cfg.procVars, k)
    ensures forall j :: 0 <= j < |cfg.hmiTags| ==> HmiRow(u, |t|, cfg.hmiTags, j) && HmiSlot(s.slots, cfg.hmiTags, j)
  {
    forall k | 0 <= k < |cfg.procVars| ensures ProcRow(u, cfg.procVars, k) {
      assert ProcRow(t, cfg.procVars, k);
    }
    forall j | 0 <= j < |cfg.hmiTags| ensures HmiRow(u, |t|, cfg.hmiTags, j) && HmiSlot(s.slots, cfg.hmiTags, j) {
      HmiRowStays(s.table, u, |t|, cfg.hmiTags, j);
    }
  }

  /** system_build succeeds exactly on the configurations that can be built, and leaves exactly what they say. */
  lemma BuildSucceedsIff(cfg: SystemConfig, reg: Registry, envs: seq<BackendEnv>)
    requires |envs| == |cfg.backends|
    ensures Build(cfg, reg, envs).Some? <==> Buildable(cfg, reg, envs)
    ensures Build(cfg, reg, envs).Some? ==>
      var b := Build(cfg, reg, envs).value;
      && DevicesOk(cfg, reg) && RowsOf(cfg, reg, b.table, b.hmi)
      && |b.proc| == |cfg.procVars| && forall k :: 0 <= k < |b.proc| ==> b.proc[k] == Slot(cfg.procVars[k].typ, [0, 0, 0, 0])
  {
    hide KnownDevice, RowsOf, Fillable, BackendOk, AddProcs, AddHmis, AddDevices, BindBackends, DevicesOk;
    DevicesOkIff(cfg, reg);
    BindBackendsIff(cfg, envs, |cfg.backends|);
    if DevicesOk(cfg, reg) {
      FilledIff(cfg, reg);
    }
  }

  // ---------------------------------------------------------------- who may write an HMI tag

  /** The HMI descriptor of this name among the first `n`. */
  ghost function Named(hmis: seq<HmiDesc>, name: string, n: nat): (r: Option<nat>)
    requires n <= |hmis|
    ensures match r
      case Some(i) => i < n && "hmi." + hmis[i].name == name
      case None => forall i :: 0 <= i < n ==> "hmi." + hmis[i].name != name
  {
    if n == 0 then None
    else if "hmi." + hmis[n - 1].name == name then Some(n - 1)
    else Named(hmis, name, n - 1)
  }

  /** Descriptor `j`, and those that its alias_of names lead to, are configured read-write (HMI_RO is 0). */
  ghost predicate ReadWrite(hmis: seq<HmiDesc>, j: nat)
    requires j < |hmis|
    decreases j
  {
    match hmis[j]
    case HmiAlias(_, access, aliasOf) =>
      access != 0
      && (aliasOf.Some? && Named(hmis, aliasOf.value, j).Some? ==> ReadWrite(hmis, Named(hmis, aliasOf.value, j).value))
    case HmiVariable(_, access, _, _) => access != 0
    case HmiOther(_) => false
  }

  /** How many aliases there are from descriptor `j` to its variable. */
  ghost function Links(hmis: seq<HmiDesc>, j: nat): nat
    requires j < |hmis|
    decreases j
  {
    match hmis[j]
    case HmiAlias(_, _, aliasOf) =>
      if aliasOf.Some? && Named(hmis, aliasOf.value, j).Some? then 1 + Links(hmis, Named(hmis, aliasOf.value, j).value) else 1
    case _ => 0
  }

  /** The rows of a table with unique names, as RowsOf gives them. */
  ghost predicate HmiPart(table: seq<Entry>, cfg: SystemConfig) {
    && NamesUnique(table) && AliasesPointBack(table)
    && (forall k :: 0 <= k < |cfg.procVars| ==> ProcRow(table, cfg.procVars, k))
    && (forall j :: 0 <= j < |cfg.hmiTags| ==> HmiRow(table, |cfg.procVars|, cfg.hmiTags, j))
  }

  lemma HmiNameAt(table: seq<Entry>, cfg: SystemConfig, j: nat)
    requires HmiPart(table, cfg) && j < |cfg.hmiTags|
    ensures |cfg.procVars| + j < |table| && table[|cfg.procVars| + j].name == "hmi." + cfg.hmiTags[j].name
  {
    assert HmiRow(table, |cfg.procVars|, cfg.hmiTags, j);
  }

  /** Where an alias points: to the row of the HMI descriptor it names, or to a process variable. */
  lemma AliasTarget(table: seq<Entry>, cfg: SystemConfig, j: nat) returns (t: nat)
    requires HmiPart(table, cfg) && j < |cfg.hmiTags| && cfg.hmiTags[j].HmiAlias?
    ensures var p, d := |cfg.procVars|, cfg.hmiTags[j];
      && p + j < |table| && t < p + j && d.aliasOf == Some(table[t].name)
      && table[p + j].ref == Alias(t + 1, d.access)
      && match Named(cfg.hmiTags, table[t].name, j)
         case Some(i) => t == p + i
         case None => table[t].ref.Proc?
  {
    var p, d := |cfg.procVars|, cfg.hmiTags[j];
    assert HmiRow(table, p, cfg.hmiTags, j);
    t :| AliasRow(table, p + j, d, t);
    var named := Named(cfg.hmiTags, table[t].name, j);
    if named.Some? {
      HmiNameAt(table, cfg, named.value);
      assert table[p + named.value].name == table[t].name;
    } else if t >= p {
      HmiNameAt(table, cfg, t - p);
      assert false;
    } else {
      assert ProcRow(table, cfg.procVars, t);
    }
  }

  lemma {:induction false} AccessFollowsConfiguration(table: seq<Entry>, cfg: SystemConfig, j: nat)
    requires HmiPart(table, cfg) && j < |cfg.hmiTags|
    ensures var id := |cfg.procVars| + j + 1;
      && id <= |table| && Chase(table, id).Some?
      && (AllWritable(table, id) <==> ReadWrite(cfg.hmiTags, j)) && Hops(table, id) == Links(cfg.hmiTags, j)
    decreases j
  {
    var p, hmis := |cfg.procVars|, cfg.hmiTags;
    HmiNameAt(table, cfg, j);
    assert HmiRow(table, p, hmis, j);
    if hmis[j].HmiAlias? {
      var t := AliasTarget(table, cfg, j);
      assert AliasOk(table, p + j);
      var named := Named(hmis, table[t].name, j);
      if named.Some? {
        AccessFollowsConfiguration(table, cfg, named.value);
      }
    }
    hide NamesUnique, AliasesPointBack, Named, ProcRow, HmiPart;
  }

  lemma HmiAccess(table: seq<Entry>, cfg: SystemConfig, j: nat)
    requires HmiPart(table, cfg) && j < |cfg.hmiTags|
    ensures var id := IdOf(table, "hmi." + cfg.hmiTags[j].name);
      && id == |cfg.procVars| + j + 1
      && (Resolve(table, id, true, 0).Some? <==> ReadWrite(cfg.hmiTags, j) && Links(cfg.hmiTags, j) <= 4)
      && (Resolve(table, id, false, 0).Some? <==> Links(cfg.hmiTags, j) <= 4)
  {
    hide *;
    HmiPartMeans(table, cfg);
    HmiNameAt(table, cfg, j);
    IdOfEntry(table, |cfg.procVars| + j);
    AccessFollowsConfiguration(table, cfg, j);
    ResolverAgreesWithinFourHops(table, |cfg.procVars| + j + 1, true);
    ResolverAgreesWithinFourHops(table, |cfg.procVars| + j + 1, false);
  }

  /**
   Access, from the configuration: an HMI tag resolves for a write iff it and every HMI descriptor on the way are configured
   read-write and at most four aliases are in between; for a read iff the latter. A write that does not is refused.
   */
  lemma HmiWritePermittedIff(cfg: SystemConfig, reg: Registry, envs: seq<BackendEnv>, j: nat)
    requires |envs| == |cfg.backends| && Build(cfg, reg, envs).Some? && j < |cfg.hmiTags|
    ensures var table := Build(cfg, reg, envs).value.table;
      var id := IdOf(table, "hmi." + cfg.hmiTags[j].name);
      && id == |cfg.procVars| + j + 1
      && (Resolve(table, id, true, 0).Some? <==> ReadWrite(cfg.hmiTags, j) && Links(cfg.hmiTags, j) <= 4)
      && (Resolve(table, id, false, 0).Some? <==> Links(cfg.hmiTags, j) <= 4)
      && (!ReadWrite(cfg.hmiTags, j) ==> forall mem, input, junk :: WriteTag(table, mem, id, input, junk) == Err(-22))
  {
    hide *;
    var b := Build(cfg, reg, envs).value;
    BuildSucceedsIff(cfg, reg, envs);
    BuildMakesTableOk(cfg, reg, envs);
    HmiPartOf(cfg, reg, b);
    HmiAccess(b.table, cfg, j);
    if !ReadWrite(cfg.hmiTags, j) {
      UnresolvedIsRefused(b.table, |cfg.procVars| + j + 1);
    }
  }

  lemma UnresolvedIsRefused(table: seq<Entry>, id: nat)
    requires Resolve(table, id, true, 0).None?
    ensures forall mem, input, junk :: WriteTag(table, mem, id, input, junk) == Err(-22)
  {
  }

  lemma HmiPartMeans(table: seq<Entry>, cfg: SystemConfig)
    requires HmiPart(table, cfg)
    ensures NamesUnique(table) && AliasesPointBack(table)
  {
  }

  lemma HmiPartOf(cfg: SystemConfig, reg: Registry, b: Built)
    requires TableOk(cfg, reg, b) && DevicesOk(cfg, reg) && RowsOf(cfg, reg, b.table, b.hmi)
    ensures HmiPart(b.table, cfg)
  {
    hide NamesOf, AllNames, HmiRow, ProcRow, DeviceRows, HmiSlot;
  }
}
