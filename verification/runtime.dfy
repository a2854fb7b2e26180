/**
 Runtime_t as the tag layer uses it (core/runtime/runtime.h, core/tag/tag_table.c, core/tag/tag_api.c): the
 fixed table of entries, the two fixed stores, and the I/O images that the backends hand out. Each method
 is proved against the functions of module Tags.
 */
module TagRuntime {
  import opened Tags
  import opened Words

  const NO_ENTRY: Entry := Entry("", TBool, Proc(0))

  const ZERO_SLOT: Slot := Slot(TBool, [0, 0, 0, 0])

  class Runtime {
    const entries: array<Entry>
    const procValues: array<Slot>
    const hmiValues: array<Slot>
    var tagCount: nat
    var procCount: nat
    var hmiCount: nat
    var inputs: Images
    var outputs: Images

    ghost predicate Valid()
      reads this
    {
      && entries.Length == MAX_TAGS && tagCount <= MAX_TAGS
      && procValues.Length == STORE_SIZE && procCount <= STORE_SIZE
      && hmiValues.Length == STORE_SIZE && hmiCount <= STORE_SIZE
      && procValues != hmiValues
    }

    ghost function Table(): seq<Entry>
      requires Valid()
      reads this, entries
    {
      entries[..tagCount]
    }

    ghost function Mem(): Memory
      requires Valid()
      reads this, procValues, hmiValues
    {
      Memory(procValues[..procCount], hmiValues[..hmiCount], inputs, outputs)
    }

    /** runtime_init */
    constructor ()
      ensures Valid() && fresh(entries) && fresh(procValues) && fresh(hmiValues)
      ensures Table() == [] && Mem() == Memory([], [], [], [])
      ensures forall i :: 0 <= i < STORE_SIZE ==> procValues[i] == ZERO_SLOT && hmiValues[i] == ZERO_SLOT
    {
      entries := new Entry[MAX_TAGS](_ => NO_ENTRY);
      procValues := new Slot[STORE_SIZE](_ => ZERO_SLOT);
      hmiValues := new Slot[STORE_SIZE](_ => ZERO_SLOT);
      tagCount, procCount, hmiCount := 0, 0, 0;
      inputs, outputs := [], [];
    }

    /** tag_table_add */
    method TableAdd(e: Entry) returns (rc: int)
      requires Valid()
      modifies this`tagCount, entries
      ensures Valid()
      ensures rc == if e.name != "" && !HasName(old(Table()), e.name) && |old(Table())| < 256 && |e.name| <= 127 then 0 else -1
      ensures rc == 0 ==> Table() == old(Table()) + [e]
      ensures rc == if AddEntry(old(Table()), e).Some? then 0 else -1
      ensures Table() == if rc == 0 then AddEntry(old(Table()), e).value else old(Table())
    {
      if e.name == "" {
        return -1;
      }
      var i := 0;
      while i < tagCount
        invariant 0 <= i <= tagCount
        invariant !HasName(entries[..i], e.name)
      {
        if entries[i].name == e.name {
          assert Table()[i].name == e.name;
          return -1;
        }
        i := i + 1;
      }
      assert Table() == entries[..i];
      if tagCount >= MAX_TAGS {
        return -1;
      }
      if |e.name| >= NAME_STORAGE {
        return -1;
      }
      entries[tagCount] := e;
      tagCount := tagCount + 1;
      assert Table() == old(Table()) + [e];
      rc := 0;
    }

    /** tag_table_find_id */
    method FindId(name: string) returns (id: nat)
      requires Valid()
      ensures id == IdOf(Table(), name)
    {
      var i := 0;
      while i < tagCount
        invariant 0 <= i <= tagCount
        invariant IdOf(Table()[..i], name) == 0
      {
        assert Table()[..i + 1][..i] == Table()[..i];
        if entries[i].name == name {
          FirstMatchIsId(Table(), name, i);
          return i + 1;
        }
        i := i + 1;
      }
      assert Table()[..i] == Table();
      id := 0;
    }

    /** tag_table_get */
    method GetEntry(id: nat) returns (e: Option<Entry>)
      requires Valid()
      ensures e == Get(Table(), id)
    {
      if id == 0 || id > tagCount {
        return None;
      }
      e := Some(entries[id - 1]);
    }

    /** resolve_entry */
    method ResolveEntry(id: nat, forWrite: bool, depth: nat) returns (e: Option<Entry>)
      requires Valid()
      ensures e == Resolve(Table(), id, forWrite, depth)
      decreases 5 - depth
    {
      if depth > 4 {
        return None;
      }
      e := GetEntry(id);
      if e.None? {
        return;
      }
      match e.value.ref
      case Alias(target, access) =>
        if forWrite && access == 0 {
          return None;
        }
        if target == 0 {
          return None;
        }
        e := ResolveEntry(target, forWrite, depth + 1);
      case HmiVar(_, access) =>
        if forWrite && access == 0 {
          return None;
        }
      case _ =>
    }

    /** tag_read */
    method TagRead(id: nat, outSize: nat) returns (r: Result<seq<byte>>)
      requires Valid()
      ensures r == ReadTag(Table(), Mem(), id, outSize)
    {
      var entry := ResolveEntry(id, false, 0);
      if entry.None? {
        return Err(EINVAL);
      }
      var e := entry.value;
      var n := TypeSize(e.typ);
      if n == 0 {
        return Err(EINVAL);
      }
      if outSize < n {
        return Err(ERANGE);
      }
      match e.ref
      case Proc(index) =>
        if index >= procCount || procValues[index].typ != e.typ {
          return Err(EINVAL);
        }
        r := Ok(procValues[index].v[..n]);
      case HmiVar(index, _) =>
        if index >= hmiCount || hmiValues[index].typ != e.typ {
          return Err(EINVAL);
        }
        r := Ok(hmiValues[index].v[..n]);
      case Io(_, _, _, _, _) =>
        r := ReadIo(Memory([], [], inputs, outputs), e);
      case Alias(_, _) =>
        r := Err(EINVAL);
    }

    /** tag_write; `junk` is what the stack held behind the partially filled union. */
    method TagWrite(id: nat, input: seq<byte>, junk: Bytes4) returns (rc: int)
      requires Valid()
      modifies this`outputs, procValues, hmiValues
      ensures Valid() && Table() == old(Table())
      ensures match WriteTag(old(Table()), old(Mem()), id, input, junk)
        case Ok(mem) => rc == 0 && Mem() == mem
        case Err(code) => rc == code && Mem() == old(Mem())
    {
      var entry := ResolveEntry(id, true, 0);
      if entry.None? {
        return EINVAL;
      }
      var e := entry.value;
      var n := TypeSize(e.typ);
      if n == 0 {
        return EINVAL;
      }
      if |input| < n {
        return ERANGE;
      }
      var value := Partial(input, n, junk);
      match e.ref
      case Proc(index) =>
        if index >= procCount || procValues[index].typ != e.typ {
          return EINVAL;
        }
        procValues[index] := Slot(e.typ, value);
        assert Mem().proc == old(Mem()).proc[index := Slot(e.typ, value)];
        rc := 0;
      case HmiVar(index, _) =>
        if index >= hmiCount || hmiValues[index].typ != e.typ {
          return EINVAL;
        }
        hmiValues[index] := Slot(e.typ, value);
        assert Mem().hmi == old(Mem()).hmi[index := Slot(e.typ, value)];
        rc := 0;
      case Io(_, _, _, _, _) =>
        var r := WriteIo(Memory([], [], inputs, outputs), e, value);
        if r.Err? {
          return r.code;
        }
        outputs := r.value.outputs;
        rc := 0;
      case Alias(_, _) =>
        rc := EINVAL;
    }
  }

  lemma {:induction false} IdOfExtends(table: seq<Entry>, name: string, n: nat)
    requires n <= |table| && IdOf(table[..n], name) != 0
    ensures IdOf(table, name) == IdOf(table[..n], name)
    decreases |table|
  {
    if n == |table| {
      assert table[..n] == table;
    } else {
      assert table[..|table| - 1][..n] == table[..n];
      IdOfExtends(table[..|table| - 1], name, n);
    }
  }

  lemma FirstMatchIsId(table: seq<Entry>, name: string, i: nat)
    requires i < |table| && table[i].name == name && IdOf(table[..i], name) == 0
    ensures IdOf(table, name) == i + 1
  {
    assert table[..i + 1][..i] == table[..i];
    IdOfExtends(table, name, i + 1);
  }
}
