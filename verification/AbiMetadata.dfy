/** The ABI description stored as module metadata and read back. */
module AbiMetadata {
  import opened Wrappers
  import opened Decimal

  // ----- the description ------------------------------------------------------------

  datatype StorageKind = Register | Stack

  datatype Storage = Storage(kind: StorageKind, name: string, space: string, offset: U64)

  datatype ParamEntry = ParamEntry(minSize: U32, maxSize: U32, align: U32, metaType: string, storage: Storage)

  datatype EffectKind = Unaffected | KilledByCall

  datatype Effect = Effect(kind: EffectKind, storage: Storage)

  datatype AbiSpec = AbiSpec(
    prototypeName: string, stackPointerRegister: string, stackPointerSpace: string,
    extraPop: I64, stackShift: U64,
    inputs: seq<ParamEntry>, outputs: seq<ParamEntry>, effects: seq<Effect>)

  // ----- metadata ---------------------------------------------------------------------

  datatype Meta = Text(s: string) | Tuple(operands: seq<Meta>)

  function Field(key: string, value: string): Meta {
    Text(key + "=" + value)
  }

  function NumberField(key: string, value: nat): Meta {
    Field(key, Print(value))
  }

  /** The value of the first string operand that starts with the key and '='. */
  function MetadataField(operands: seq<Meta>, key: string): Option<string> {
    if operands == [] then None
    else if operands[0].Text? && key + "=" <= operands[0].s then Some(operands[0].s[|key| + 1..])
    else MetadataField(operands[1..], key)
  }

  function FieldOr(operands: seq<Meta>, key: string): string {
    var value := MetadataField(operands, key);
    if value.Some? then value.value else ""
  }

  function NumberFieldOr(operands: seq<Meta>, key: string, lo: int, hi: int): (v: int)
    requires 0 <= hi && (lo == 0 || lo == -hi - 1)
    ensures lo <= v <= hi
  {
    ParseIntegerOr(FieldOr(operands, key), lo, hi, 0)
  }

  // ----- writing ------------------------------------------------------------------------

  function StorageKindName(kind: StorageKind): string {
    match kind
    case Register => "register"
    case Stack => "stack"
  }

  function EffectKindName(kind: EffectKind): string {
    match kind
    case Unaffected => "unaffected"
    case KilledByCall => "killedbycall"
  }

  function StorageNode(s: Storage): Meta {
    Tuple([Field("kind", StorageKindName(s.kind)), Field("name", s.name), Field("space", s.space),
           NumberField("offset", s.offset)])
  }

  function ParamEntryNode(e: ParamEntry): Meta {
    Tuple([NumberField("minsize", e.minSize), NumberField("maxsize", e.maxSize), NumberField("align", e.align),
           Field("metatype", e.metaType), StorageNode(e.storage)])
  }

  function EffectNode(e: Effect): Meta {
    Tuple([Field("effect", EffectKindName(e.kind)), StorageNode(e.storage)])
  }

  function ParamEntryNodes(entries: seq<ParamEntry>): seq<Meta> {
    seq(|entries|, i requires 0 <= i < |entries| => ParamEntryNode(entries[i]))
  }

  function EffectNodes(effects: seq<Effect>): seq<Meta> {
    seq(|effects|, i requires 0 <= i < |effects| => EffectNode(effects[i]))
  }

  /** The unsigned 64-bit pattern of a signed number. */
  function AsUnsigned(v: I64): U64 {
    if v < 0 then v + MAX64 + 1 else v
  }

  function SpecNode(abi: AbiSpec): Meta {
    Tuple([Field("prototype", abi.prototypeName),
           Field("stackpointer.register", abi.stackPointerRegister),
           Field("stackpointer.space", abi.stackPointerSpace),
           NumberField("extrapop", AsUnsigned(abi.extraPop)),
           NumberField("stackshift", abi.stackShift),
           Tuple(ParamEntryNodes(abi.inputs)), Tuple(ParamEntryNodes(abi.outputs)), Tuple(EffectNodes(abi.effects))])
  }

  // ----- reading --------------------------------------------------------------------------

  function StorageFromMetadata(operands: seq<Meta>): Option<Storage> {
    var kind := MetadataField(operands, "kind");
    if kind == Some("register") || kind == Some("stack") then
      Some(Storage(if kind.value == "register" then Register else Stack,
                   FieldOr(operands, "name"), FieldOr(operands, "space"),
                   NumberFieldOr(operands, "offset", 0, MAX64)))
    else None
  }

  /** The first operand that is a storage record. */
  function FirstStorage(operands: seq<Meta>): Option<Storage> {
    if operands == [] then None
    else
      var parsed := if operands[0].Tuple? then StorageFromMetadata(operands[0].operands) else None;
      if parsed.Some? then parsed else FirstStorage(operands[1..])
  }

  function ParamEntryFromMetadata(operands: seq<Meta>): Option<ParamEntry> {
    var storage := FirstStorage(operands);
    if storage.None? then None
    else Some(ParamEntry(
                NumberFieldOr(operands, "minsize", 0, MAX32), NumberFieldOr(operands, "maxsize", 0, MAX32),
                NumberFieldOr(operands, "align", 0, MAX32), FieldOr(operands, "metatype"), storage.value))
  }

  function EffectFromMetadata(operands: seq<Meta>): Option<Effect> {
    var name := MetadataField(operands, "effect");
    var storage := FirstStorage(operands);
    if storage.None? then None
    else if name == Some("unaffected") then Some(Effect(Unaffected, storage.value))
    else if name == Some("killedbycall") then Some(Effect(KilledByCall, storage.value))
    else None
  }

  /** The tuples among the operands, in order. */
  function ChildLists(operands: seq<Meta>): seq<seq<Meta>> {
    if operands == [] then []
    else (if operands[0].Tuple? then [operands[0].operands] else []) + ChildLists(operands[1..])
  }

  /** Entries that cannot be read are skipped. */
  function ParamEntries(operands: seq<Meta>): seq<ParamEntry> {
    if operands == [] then []
    else
      var last := operands[|operands| - 1];
      var parsed := if last.Tuple? then ParamEntryFromMetadata(last.operands) else None;
      ParamEntries(operands[..|operands| - 1]) + if parsed.Some? then [parsed.value] else []
  }

  function Effects(operands: seq<Meta>): seq<Effect> {
    if operands == [] then []
    else
      var last := operands[|operands| - 1];
      var parsed := if last.Tuple? then EffectFromMetadata(last.operands) else None;
      Effects(operands[..|operands| - 1]) + if parsed.Some? then [parsed.value] else []
  }

  /** What is read from the first record of the named metadata. */
  function ReadSpec(records: seq<seq<Meta>>): Option<AbiSpec> {
    if records == [] then None
    else
      var node := records[0];
      var lists := ChildLists(node);
      var name := FieldOr(node, "prototype");
      if |lists| < 3 || name == "" then None
      else Some(AbiSpec(
                  name, FieldOr(node, "stackpointer.register"), FieldOr(node, "stackpointer.space"),
                  NumberFieldOr(node, "extrapop", -MAX_SIGNED64 - 1, MAX_SIGNED64),
                  NumberFieldOr(node, "stackshift", 0, MAX64),
                  ParamEntries(lists[0]), ParamEntries(lists[1]), Effects(lists[2])))
  }

  method ReadParamEntries(operands: seq<Meta>) returns (entries: seq<ParamEntry>)
    ensures entries == ParamEntries(operands)
  {
    entries := [];
    for k := 0 to |operands|
      invariant entries == ParamEntries(operands[..k])
    {
      assert operands[..k + 1][..k] == operands[..k];
      if operands[k].Tuple? {
        var parsed := ParamEntryFromMetadata(operands[k].operands);
        if parsed.Some? {
          entries := entries + [parsed.value];
        }
      }
    }
    assert operands[..|operands|] == operands;
  }

  method ReadEffects(operands: seq<Meta>) returns (effects: seq<Effect>)
    ensures effects == Effects(operands)
  {
    effects := [];
    for k := 0 to |operands|
      invariant effects == Effects(operands[..k])
    {
      assert operands[..k + 1][..k] == operands[..k];
      if operands[k].Tuple? {
        var parsed := EffectFromMetadata(operands[k].operands);
        if parsed.Some? {
          effects := effects + [parsed.value];
        }
      }
    }
    assert operands[..|operands|] == operands;
  }

  method BuildParamEntries(entries: seq<ParamEntry>) returns (nodes: seq<Meta>)
    ensures nodes == ParamEntryNodes(entries)
  {
    hide ParamEntryNode;
    nodes := [];
    for k := 0 to |entries|
      invariant nodes == ParamEntryNodes(entries[..k])
    {
      nodes := nodes + [ParamEntryNode(entries[k])];
    }
    assert entries[..|entries|] == entries;
  }

  method BuildEffects(effects: seq<Effect>) returns (nodes: seq<Meta>)
    ensures nodes == EffectNodes(effects)
  {
    hide EffectNode;
    nodes := [];
    for k := 0 to |effects|
      invariant nodes == EffectNodes(effects[..k])
    {
      nodes := nodes + [EffectNode(effects[k])];
    }
    assert effects[..|effects|] == effects;
  }

  /** A module's named metadata "notdec.abi": the operands of each record. */
  class Module {
    var records: seq<seq<Meta>>

    constructor ()
      ensures records == []
    {
      records := [];
    }

    /** Appends; it does not replace what is there. */
    method Attach(abi: AbiSpec)
      modifies this
      ensures records == old(records) + [SpecNode(abi).operands]
    {
      hide ParamEntryNodes, EffectNodes, Field, Print;
      var inputEntries := BuildParamEntries(abi.inputs);
      var outputEntries := BuildParamEntries(abi.outputs);
      var effectEntries := BuildEffects(abi.effects);
      var fields := [
        Field("prototype", abi.prototypeName),
        Field("stackpointer.register", abi.stackPointerRegister),
        Field("stackpointer.space", abi.stackPointerSpace),
        NumberField("extrapop", AsUnsigned(abi.extraPop)),
        NumberField("stackshift", abi.stackShift),
        Tuple(inputEntries), Tuple(outputEntries), Tuple(effectEntries)];
      records := records + [fields];
    }

    /** The two commands in a row. */
    method AttachAndRead(abi: AbiSpec) returns (back: Option<AbiSpec>)
      modifies this
      ensures records == old(records) + [SpecNode(abi).operands]
      ensures back == Some(abi)
          <==> if old(records) == [] then abi.prototypeName != "" && 0 <= abi.extraPop
               else ReadSpec(old(records)) == Some(abi)
      ensures old(records) != [] ==> back == ReadSpec(old(records))
    {
      Attach(abi);
      back := Read();
      assert records == old(records) + [SpecNode(abi).operands] + [];
      RoundTripExactly(old(records), abi, []);
    }

    method Read() returns (abi: Option<AbiSpec>)
      ensures abi == ReadSpec(records)
      ensures records != [] ==> abi == ReadSpec(records[..1])
    {
      if records == [] {
        return None;
      }
      var node := records[0];
      var lists := ChildLists(node);
      if |lists| < 3 {
        return None;
      }
      var inputs := ReadParamEntries(lists[0]);
      var outputs := ReadParamEntries(lists[1]);
      var effects := ReadEffects(lists[2]);
      var name := FieldOr(node, "prototype");
      if name == "" {
        return None;
      }
      abi := Some(AbiSpec(
        name, FieldOr(node, "stackpointer.register"), FieldOr(node, "stackpointer.space"),
        NumberFieldOr(node, "extrapop", -MAX_SIGNED64 - 1, MAX_SIGNED64),
        NumberFieldOr(node, "stackshift", 0, MAX64), inputs, outputs, effects));
    }
  }

  // ----- round trip -------------------------------------------------------------------------

  lemma FieldRead(key: string, value: string, rest: seq<Meta>)
    ensures MetadataField([Field(key, value)] + rest, key) == Some(value)
  {
    var text := key + "=" + value;
    assert text[..|key| + 1] == key + "=";
    assert text[|key| + 1..] == value;
  }

  /** A field whose key differs at position i is passed over. */
  lemma FieldSkipped(key: string, other: string, value: string, rest: seq<Meta>, i: nat)
    requires i < |key| && i < |other| && key[i] != other[i]
    ensures MetadataField([Field(other, value)] + rest, key) == MetadataField(rest, key)
  {
    var prefix, text := key + "=", other + "=" + value;
    assert prefix[i] == key[i] && text[i] == other[i];
    assert ([Field(other, value)] + rest)[1..] == rest;
  }

  lemma NumberRead(key: string, value: nat, operands: seq<Meta>, lo: int, hi: int)
    requires 0 <= hi && (lo == 0 || lo == -hi - 1) && MetadataField(operands, key) == Some(Print(value))
    ensures NumberFieldOr(operands, key, lo, hi) == if value <= hi then value else 0
  {
    ParsePrinted(value, lo, hi, 0);
  }

  lemma StorageRoundTrip(s: Storage)
    ensures StorageFromMetadata(StorageNode(s).operands) == Some(s)
  {
    hide MetadataField, Field;
    var offset := [NumberField("offset", s.offset)];
    var space := [Field("space", s.space)] + offset;
    var name := [Field("name", s.name)] + space;
    var kind := [Field("kind", StorageKindName(s.kind))] + name;
    assert StorageNode(s).operands == kind;
    FieldRead("kind", StorageKindName(s.kind), name);
    FieldSkipped("name", "kind", StorageKindName(s.kind), name, 0);
    FieldRead("name", s.name, space);
    FieldSkipped("space", "kind", StorageKindName(s.kind), name, 0);
    FieldSkipped("space", "name", s.name, space, 0);
    FieldRead("space", s.space, offset);
    FieldSkipped("offset", "kind", StorageKindName(s.kind), name, 0);
    FieldSkipped("offset", "name", s.name, space, 0);
    FieldSkipped("offset", "space", s.space, offset, 0);
    assert offset == [Field("offset", Print(s.offset))] + [];
    FieldRead("offset", Print(s.offset), []);
    NumberRead("offset", s.offset, kind, 0, MAX64);
  }

  /** The storage record after the text fields. */
  lemma {:induction false} StorageFound(fields: seq<Meta>, s: Storage)
    requires forall i :: 0 <= i < |fields| ==> fields[i].Text?
    ensures FirstStorage(fields + [StorageNode(s)]) == Some(s)
    decreases |fields|
  {
    hide StorageFromMetadata, StorageNode;
    if fields == [] {
      StorageRoundTrip(s);
      StorageNodeIsTuple(s);
      assert fields + [StorageNode(s)] == [StorageNode(s)];
    } else {
      assert (fields + [StorageNode(s)])[1..] == fields[1..] + [StorageNode(s)];
      StorageFound(fields[1..], s);
    }
  }

  lemma StorageNodeIsTuple(s: Storage)
    ensures StorageNode(s).Tuple?
  {
  }

  lemma ParamEntryRoundTrip(e: ParamEntry)
    ensures ParamEntryFromMetadata(ParamEntryNode(e).operands) == Some(e)
  {
    hide MetadataField, StorageNode, FirstStorage;
    var storage := [StorageNode(e.storage)];
    var metaType := [Field("metatype", e.metaType)] + storage;
    var align := [NumberField("align", e.align)] + metaType;
    var maxSize := [NumberField("maxsize", e.maxSize)] + align;
    var all := [NumberField("minsize", e.minSize)] + maxSize;
    assert ParamEntryNode(e).operands == all;
    FieldRead("minsize", Print(e.minSize), maxSize);
    NumberRead("minsize", e.minSize, all, 0, MAX32);
    FieldSkipped("maxsize", "minsize", Print(e.minSize), maxSize, 1);
    FieldRead("maxsize", Print(e.maxSize), align);
    NumberRead("maxsize", e.maxSize, all, 0, MAX32);
    FieldSkipped("align", "minsize", Print(e.minSize), maxSize, 0);
    FieldSkipped("align", "maxsize", Print(e.maxSize), align, 0);
    FieldRead("align", Print(e.align), metaType);
    NumberRead("align", e.align, all, 0, MAX32);
    FieldSkipped("metatype", "minsize", Print(e.minSize), maxSize, 1);
    FieldSkipped("metatype", "maxsize", Print(e.maxSize), align, 1);
    FieldSkipped("metatype", "align", Print(e.align), metaType, 0);
    FieldRead("metatype", e.metaType, storage);
    StorageFound(all[..4], e.storage);
    assert all == all[..4] + [StorageNode(e.storage)];
  }

  lemma EffectRoundTrip(e: Effect)
    ensures EffectFromMetadata(EffectNode(e).operands) == Some(e)
  {
    hide MetadataField, StorageNode, FirstStorage;
    var storage := [StorageNode(e.storage)];
    var all := [Field("effect", EffectKindName(e.kind))] + storage;
    assert EffectNode(e).operands == all;
    FieldRead("effect", EffectKindName(e.kind), storage);
    StorageFound([Field("effect", EffectKindName(e.kind))], e.storage);
  }

  lemma ParamEntryNodeIsTuple(e: ParamEntry)
    ensures ParamEntryNode(e).Tuple?
  {
  }

  lemma {:induction false} ParamEntriesRoundTrip(entries: seq<ParamEntry>)
    ensures ParamEntries(ParamEntryNodes(entries)) == entries
    decreases |entries|
  {
    hide ParamEntryFromMetadata, ParamEntryNode;
    if entries != [] {
      var n := |entries| - 1;
      assert ParamEntryNodes(entries)[..n] == ParamEntryNodes(entries[..n]);
      assert ParamEntryNode(entries[n]).Tuple? by { ParamEntryNodeIsTuple(entries[n]); }
      ParamEntriesRoundTrip(entries[..n]);
      ParamEntryRoundTrip(entries[n]);
    }
  }

  lemma {:induction false} EffectsRoundTrip(effects: seq<Effect>)
    ensures Effects(EffectNodes(effects)) == effects
    decreases |effects|
  {
    hide EffectFromMetadata;
    if effects != [] {
      var n := |effects| - 1;
      assert EffectNodes(effects)[..n] == EffectNodes(effects[..n]);
      EffectsRoundTrip(effects[..n]);
      EffectRoundTrip(effects[n]);
    }
  }

  lemma TextsHaveNoLists(fields: seq<Meta>, rest: seq<Meta>)
    requires forall i :: 0 <= i < |fields| ==> fields[i].Text?
    ensures ChildLists(fields + rest) == ChildLists(rest)
  {
    if fields == [] {
      assert fields + rest == rest;
    } else {
      assert (fields + rest)[1..] == fields[1..] + rest;
      TextsHaveNoLists(fields[1..], rest);
    }
  }

  lemma ThreeLists(a: seq<Meta>, b: seq<Meta>, c: seq<Meta>)
    ensures ChildLists([Tuple(a), Tuple(b), Tuple(c)]) == [a, b, c]
  {
    assert [Tuple(c)][1..] == [];
    assert ChildLists([Tuple(c)]) == [c];
    assert [Tuple(b), Tuple(c)][1..] == [Tuple(c)];
    assert ChildLists([Tuple(b), Tuple(c)]) == [b, c];
    assert [Tuple(a), Tuple(b), Tuple(c)][1..] == [Tuple(b), Tuple(c)];
  }

  /** The text fields of a record, with what each key finds. */
  lemma SpecFields(abi: AbiSpec, lists: seq<Meta>)
    ensures var node := SpecNode(abi).operands[..5] + lists;
      && MetadataField(node, "prototype") == Some(abi.prototypeName)
      && MetadataField(node, "stackpointer.register") == Some(abi.stackPointerRegister)
      && MetadataField(node, "stackpointer.space") == Some(abi.stackPointerSpace)
      && MetadataField(node, "extrapop") == Some(Print(AsUnsigned(abi.extraPop)))
      && MetadataField(node, "stackshift") == Some(Print(abi.stackShift))
  {
    hide MetadataField;
    var pop, shift := Print(AsUnsigned(abi.extraPop)), Print(abi.stackShift);
    var n4 := [Field("stackshift", shift)] + lists;
    var n3 := [Field("extrapop", pop)] + n4;
    var n2 := [Field("stackpointer.space", abi.stackPointerSpace)] + n3;
    var n1 := [Field("stackpointer.register", abi.stackPointerRegister)] + n2;
    var n0 := [Field("prototype", abi.prototypeName)] + n1;
    assert SpecNode(abi).operands[..5] + lists == n0;
    FieldRead("prototype", abi.prototypeName, n1);
    FieldSkipped("stackpointer.register", "prototype", abi.prototypeName, n1, 0);
    FieldRead("stackpointer.register", abi.stackPointerRegister, n2);
    FieldSkipped("stackpointer.space", "prototype", abi.prototypeName, n1, 0);
    FieldSkipped("stackpointer.space", "stackpointer.register", abi.stackPointerRegister, n2, 13);
    FieldRead("stackpointer.space", abi.stackPointerSpace, n3);
    FieldSkipped("extrapop", "prototype", abi.prototypeName, n1, 0);
    FieldSkipped("extrapop", "stackpointer.register", abi.stackPointerRegister, n2, 0);
    FieldSkipped("extrapop", "stackpointer.space", abi.stackPointerSpace, n3, 0);
    FieldRead("extrapop", pop, n4);
    FieldSkipped("stackshift", "prototype", abi.prototypeName, n1, 0);
    FieldSkipped("stackshift", "stackpointer.register", abi.stackPointerRegister, n2, 5);
    FieldSkipped("stackshift", "stackpointer.space", abi.stackPointerSpace, n3, 5);
    FieldSkipped("stackshift", "extrapop", pop, n4, 0);
    FieldRead("stackshift", shift, lists);
  }

  /** Reading a module whose first record was attached for abi: a negative
      extra-pop count comes back as 0, everything else comes back unchanged, and a
      description without a prototype name does not come back. */
  lemma ReadAttached(abi: AbiSpec, more: seq<seq<Meta>>)
    ensures ReadSpec([SpecNode(abi).operands] + more)
         == if abi.prototypeName == "" then None
            else Some(abi.(extraPop := if abi.extraPop < 0 then 0 else abi.extraPop))
  {
    hide MetadataField, ParamEntries, Effects, ParamEntryNodes, EffectNodes, Print, ParseIntegerOr;
    var node := SpecNode(abi).operands;
    var inputs, outputs, effects := ParamEntryNodes(abi.inputs), ParamEntryNodes(abi.outputs), EffectNodes(abi.effects);
    var lists := [Tuple(inputs), Tuple(outputs), Tuple(effects)];
    assert node == node[..5] + lists;
    TextsHaveNoLists(node[..5], lists);
    ThreeLists(inputs, outputs, effects);
    SpecFields(abi, lists);
    NumberRead("extrapop", AsUnsigned(abi.extraPop), node, -MAX_SIGNED64 - 1, MAX_SIGNED64);
    NumberRead("stackshift", abi.stackShift, node, 0, MAX64);
    ParamEntriesRoundTrip(abi.inputs);
    ParamEntriesRoundTrip(abi.outputs);
    EffectsRoundTrip(abi.effects);
  }

  /** Attaching and reading back gives the description itself exactly when the module
      had no record and the description is named with a non-negative extra-pop count,
      or when the module's first record already read as that description. */
  lemma RoundTripExactly(before: seq<seq<Meta>>, abi: AbiSpec, more: seq<seq<Meta>>)
    ensures ReadSpec(before + [SpecNode(abi).operands] + more) == Some(abi)
        <==> if before == [] then abi.prototypeName != "" && 0 <= abi.extraPop else ReadSpec(before) == Some(abi)
  {
    assert SpecNode(abi).Tuple?;
    hide SpecNode;
    var records := before + [SpecNode(abi).operands] + more;
    if before == [] {
      assert records == [SpecNode(abi).operands] + more;
      hide ReadSpec;
      ReadAttached(abi, more);
    } else {
      assert records[0] == before[0];
    }
  }

  // ----- entries that cannot be read ------------------------------------------------------

  predicate ReadableEntry(m: Meta) {
    m.Tuple? && ParamEntryFromMetadata(m.operands).Some?
  }

  predicate ReadableEffect(m: Meta) {
    m.Tuple? && EffectFromMetadata(m.operands).Some?
  }

  function Readable(operands: seq<Meta>, readable: Meta -> bool): seq<Meta> {
    if operands == [] then []
    else
      var last := operands[|operands| - 1];
      Readable(operands[..|operands| - 1], readable) + if readable(last) then [last] else []
  }

  lemma {:induction false} OnlyReadableEntries(operands: seq<Meta>)
    ensures ParamEntries(Readable(operands, ReadableEntry)) == ParamEntries(operands)
    ensures |ParamEntries(operands)| == |Readable(operands, ReadableEntry)|
    decreases |operands|
  {
    hide ParamEntryFromMetadata;
    if operands != [] {
      var front := operands[..|operands| - 1];
      OnlyReadableEntries(front);
      var last, kept := operands[|operands| - 1], Readable(front, ReadableEntry);
      assert Readable(operands, ReadableEntry) == kept + if ReadableEntry(last) then [last] else [];
      assert (kept + [last])[..|kept|] == kept && kept + [] == kept;
      if ReadableEntry(last) {
        assert ParamEntries(kept + [last]) == ParamEntries(kept) + [ParamEntryFromMetadata(last.operands).value];
      }
    }
  }

  lemma {:induction false} OnlyReadableEffects(operands: seq<Meta>)
    ensures Effects(Readable(operands, ReadableEffect)) == Effects(operands)
    ensures |Effects(operands)| == |Readable(operands, ReadableEffect)|
    decreases |operands|
  {
    hide EffectFromMetadata;
    if operands != [] {
      var front := operands[..|operands| - 1];
      OnlyReadableEffects(front);
      var last, kept := operands[|operands| - 1], Readable(front, ReadableEffect);
      assert Readable(operands, ReadableEffect) == kept + if ReadableEffect(last) then [last] else [];
      assert (kept + [last])[..|kept|] == kept && kept + [] == kept;
      if ReadableEffect(last) {
        assert Effects(kept + [last]) == Effects(kept) + [EffectFromMetadata(last.operands).value];
      }
    }
  }

  /** The keys are looked up among the text fields only. */
  lemma {:induction false} FieldOfTexts(texts: seq<Meta>, lists: seq<Meta>, key: string)
    requires forall i :: 0 <= i < |lists| ==> lists[i].Tuple?
    ensures MetadataField(texts + lists, key) == MetadataField(texts, key)
    decreases |texts|, |lists|
  {
    if texts != [] {
      assert (texts + lists)[1..] == texts[1..] + lists;
      FieldOfTexts(texts[1..], lists, key);
    } else if lists != [] {
      assert texts + lists == lists && [] + lists[1..] == lists[1..];
      FieldOfTexts([], lists[1..], key);
    }
  }

  /** Reading a record skips exactly the entries that cannot be read: it gives what it
      would give of a record without them, with one entry for each that can. */
  lemma UnreadableSkipped(texts: seq<Meta>, inputs: seq<Meta>, outputs: seq<Meta>, effects: seq<Meta>,
                          more: seq<seq<Meta>>)
    requires forall i :: 0 <= i < |texts| ==> texts[i].Text?
    ensures var ins, outs := Readable(inputs, ReadableEntry), Readable(outputs, ReadableEntry);
      var effs := Readable(effects, ReadableEffect);
      var abi := ReadSpec([texts + [Tuple(inputs), Tuple(outputs), Tuple(effects)]] + more);
      && abi == ReadSpec([texts + [Tuple(ins), Tuple(outs), Tuple(effs)]] + more)
      && (abi.Some? <==> FieldOr(texts, "prototype") != "")
      && (abi.Some? ==> |abi.value.inputs| == |ins| && |abi.value.outputs| == |outs| && |abi.value.effects| == |effs|)
  {
    hide MetadataField, ParamEntries, Effects, Readable, ParseIntegerOr;
    OnlyReadableEntries(inputs);
    OnlyReadableEntries(outputs);
    OnlyReadableEffects(effects);
    RecordReads(texts, inputs, outputs, effects);
    RecordReads(texts, Readable(inputs, ReadableEntry), Readable(outputs, ReadableEntry),
                Readable(effects, ReadableEffect));
  }

  lemma RecordReads(texts: seq<Meta>, inputs: seq<Meta>, outputs: seq<Meta>, effects: seq<Meta>)
    requires forall i :: 0 <= i < |texts| ==> texts[i].Text?
    ensures var node := texts + [Tuple(inputs), Tuple(outputs), Tuple(effects)];
      && ChildLists(node) == [inputs, outputs, effects]
      && MetadataField(node, "prototype") == MetadataField(texts, "prototype")
      && MetadataField(node, "stackpointer.register") == MetadataField(texts, "stackpointer.register")
      && MetadataField(node, "stackpointer.space") == MetadataField(texts, "stackpointer.space")
      && MetadataField(node, "extrapop") == MetadataField(texts, "extrapop")
      && MetadataField(node, "stackshift") == MetadataField(texts, "stackshift")
  {
    hide MetadataField;
    var lists := [Tuple(inputs), Tuple(outputs), Tuple(effects)];
    TextsHaveNoLists(texts, lists);
    ThreeLists(inputs, outputs, effects);
    FieldOfTexts(texts, lists, "prototype");
    FieldOfTexts(texts, lists, "stackpointer.register");
    FieldOfTexts(texts, lists, "stackpointer.space");
    FieldOfTexts(texts, lists, "extrapop");
    FieldOfTexts(texts, lists, "stackshift");
  }

  // ----- how a record is written and looked up --------------------------------------------

  /** A register as it stands in the module. */
  lemma WrittenStorage()
    ensures StorageNode(Storage(Register, "RSP", "register", 32))
         == Tuple([Text("kind=register"), Text("name=RSP"), Text("space=register"), Text("offset=32")])
    ensures StorageNode(Storage(Stack, "", "stack", 8))
         == Tuple([Text("kind=stack"), Text("name="), Text("space=stack"), Text("offset=8")])
  {
    assert Print(32) == "32" && Print(8) == "8";
    assert "kind" + "=" + "register" == "kind=register" && "name" + "=" + "RSP" == "name=RSP";
    assert "space" + "=" + "register" == "space=register" && "offset" + "=" + "32" == "offset=32";
    assert "kind" + "=" + "stack" == "kind=stack" && "name" + "=" + "" == "name=";
    assert "space" + "=" + "stack" == "space=stack" && "offset" + "=" + "8" == "offset=8";
  }

  /** The entries and the record around it. */
  lemma WrittenSpec(s: Storage)
    ensures ParamEntryNode(ParamEntry(1, 8, 4, "float", s))
         == Tuple([Text("minsize=1"), Text("maxsize=8"), Text("align=4"), Text("metatype=float"), StorageNode(s)])
    ensures EffectNode(Effect(Unaffected, s)) == Tuple([Text("effect=unaffected"), StorageNode(s)])
    ensures EffectNode(Effect(KilledByCall, s)) == Tuple([Text("effect=killedbycall"), StorageNode(s)])
    ensures SpecNode(AbiSpec("cc", "RSP", "register", 8, 7, [], [], []))
         == Tuple([Text("prototype=cc"), Text("stackpointer.register=RSP"), Text("stackpointer.space=register"),
                   Text("extrapop=8"), Text("stackshift=7"), Tuple([]), Tuple([]), Tuple([])])
  {
    hide StorageNode;
    assert Print(1) == "1" && Print(8) == "8" && Print(4) == "4" && Print(7) == "7";
    assert ParamEntryNodes([]) == [] && EffectNodes([]) == [];
    assert "minsize" + "=" + "1" == "minsize=1" && "maxsize" + "=" + "8" == "maxsize=8";
    assert "align" + "=" + "4" == "align=4" && "metatype" + "=" + "float" == "metatype=float";
    assert "effect" + "=" + "unaffected" == "effect=unaffected";
    assert "effect" + "=" + "killedbycall" == "effect=killedbycall";
    assert "prototype" + "=" + "cc" == "prototype=cc";
    assert "stackpointer.register" + "=" + "RSP" == "stackpointer.register=RSP";
    assert "stackpointer.space" + "=" + "register" == "stackpointer.space=register";
    assert "extrapop" + "=" + "8" == "extrapop=8" && "stackshift" + "=" + "7" == "stackshift=7";
  }

  predicate HasKey(m: Meta, key: string) {
    m.Text? && key + "=" <= m.s
  }

  /** A lookup finds the first text with the key, whatever stands around it. */
  lemma {:induction false} FieldIsFirst(operands: seq<Meta>, key: string, value: string)
    ensures MetadataField(operands, key) == Some(value) <==>
              exists i :: 0 <= i < |operands| && operands[i] == Text(key + "=" + value)
                && forall j :: 0 <= j < i ==> !HasKey(operands[j], key)
    decreases |operands|
  {
    if operands != [] {
      FieldRead(key, value, operands[1..]);
      assert [operands[0]] + operands[1..] == operands;
      if HasKey(operands[0], key) {
        var rest := operands[0].s[|key| + 1..];
        assert operands[0].s == key + "=" + rest;
        SameValue(key, rest, value);
      } else {
        FieldIsFirst(operands[1..], key, value);
        if i :| 0 <= i < |operands| && operands[i] == Text(key + "=" + value)
                && forall j :: 0 <= j < i ==> !HasKey(operands[j], key) {
          assert HasKey(operands[i], key);
          assert operands[1..][i - 1] == operands[i];
        }
      }
    }
  }

  lemma SameValue(key: string, one: string, other: string)
    ensures key + "=" + one == key + "=" + other ==> one == other
  {
    assert (key + "=" + one)[|key| + 1..] == one;
    assert (key + "=" + other)[|key| + 1..] == other;
  }

  predicate IsStorage(m: Meta) {
    && m.Tuple?
    && (MetadataField(m.operands, "kind") == Some("register") || MetadataField(m.operands, "kind") == Some("stack"))
  }

  /** The storage of an entry is its first operand with a known kind. */
  lemma {:induction false} StorageIsFirst(operands: seq<Meta>)
    ensures FirstStorage(operands).Some? <==> exists i :: 0 <= i < |operands| && IsStorage(operands[i])
    ensures FirstStorage(operands).Some? ==>
              exists i :: 0 <= i < |operands| && IsStorage(operands[i])
                && (forall j :: 0 <= j < i ==> !IsStorage(operands[j]))
                && FirstStorage(operands) == StorageFromMetadata(operands[i].operands)
    decreases |operands|
  {
    hide MetadataField, ParseIntegerOr;
    if operands != [] && !IsStorage(operands[0]) {
      StorageIsFirst(operands[1..]);
      assert forall i :: 1 <= i < |operands| ==> operands[i] == operands[1..][i - 1];
    }
  }

  /** An entry is skipped only for want of a storage, an effect also for its name. */
  lemma ReadableExactly(m: Meta)
    ensures ReadableEntry(m) <==> m.Tuple? && exists i :: 0 <= i < |m.operands| && IsStorage(m.operands[i])
    ensures ReadableEffect(m) <==>
              && m.Tuple? && (exists i :: 0 <= i < |m.operands| && IsStorage(m.operands[i]))
              && (MetadataField(m.operands, "effect") == Some("unaffected")
                  || MetadataField(m.operands, "effect") == Some("killedbycall"))
  {
    hide MetadataField, ParseIntegerOr;
    if m.Tuple? { StorageIsFirst(m.operands); }
  }
}
