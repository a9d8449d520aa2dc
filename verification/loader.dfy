/** Pass 2 of the loader (`loadSections`): one walk over the sections,
    dispatching on the section type and filling the image index. */
module Loader {
  import opened Words
  import opened Layout
  import opened OpcodeMap
  import opened Header

  /** What the walk has recorded so far. */
  datatype Acc = Acc(
    header: Option<nat>,
    opcodes: Option<seq<Option<OpcodeDesc>>>,
    numberLiterals: Option<Table>,
    configData: Option<Table>,
    pointerLiterals: seq<Option<nat>>)

  const EmptyAcc := Acc(None, None, None, None, [])

  /** The index of a loaded image: section offsets, one pointer-literal slot
      per section (the section's offset, or null), the header offset, the
      opcode table, and the literal and config tables. */
  datatype Index = Index(
    sections: seq<nat>,
    pointerLiterals: seq<Option<nat>>,
    header: nat,
    opcodes: seq<Option<OpcodeDesc>>,
    numberLiterals: Table,
    configData: Table)

  /** The pointer-literal slot of the section at `s`. */
  function PointerLiteral(buf: seq<Byte>, s: nat): Option<nat>
    requires s + SectionHeaderSize <= |buf|
  {
    if TypeAt(buf, s) >= PointerLiteralThreshold then Some(s) else None
  }

  /** `ops` is the opcode table loaded from the opcode-map section at `s`:
      one slot per name of the map, each what its name resolves to. */
  ghost predicate MapOf(host: Host, buf: seq<Byte>, s: nat, ops: seq<Option<OpcodeDesc>>) {
    && SectionFits(buf, s)
    && TypeAt(buf, s) == OpCodeMap
    && buf[s + SizeAt(buf, s) - 1] == 0
    && NamedSlots(host.staticOpcodes, buf, s + SectionHeaderSize, s + SizeAt(buf, s), ops)
  }

  /** `h` records the header of the info-header section at `s`: the header
      structure right after the section header, accepted by the checks. */
  ghost predicate HeaderOf(host: Host, buf: seq<Byte>, s: nat, h: Option<nat>) {
    && s + SectionHeaderSize <= |buf|
    && TypeAt(buf, s) == InfoHeader
    && h == Some(s + SectionHeaderSize)
    && HeaderAccepted(host, buf, s + SectionHeaderSize)
  }

  /** `t` records the literal table of the number-literal section at `s`:
      `size/8 - 1` entries after the section header, each accepted. */
  ghost predicate LiteralsOf(host: Host, buf: seq<Byte>, s: nat, t: Option<Table>) {
    && s + SectionHeaderSize <= |buf|
    && TypeAt(buf, s) == NumberLiterals
    && SectionHeaderSize <= SizeAt(buf, s)
    && s + SizeAt(buf, s) <= |buf|
    && t == Some(LiteralTable(buf, s))
    && LiteralsAccepted(host, buf, t.value)
  }

  predicate AllFit(buf: seq<Byte>, secs: seq<nat>) {
    forall k :: 0 <= k < |secs| ==> SectionFits(buf, secs[k])
  }

  /** One iteration of the section loop. The source tests the section type
      with a chain of independent `if`s; the types are distinct, so at most
      one branch runs and an `else if` chain says the same. */
  function LoadSection(host: Host, buf: seq<Byte>, s: nat, acc: Acc): (r: Result<Acc>)
    requires SectionFits(buf, s)
    ensures SizeAt(buf, s) >= 32000 ==> r == Err(VmError(1014, s))
    ensures r.Err? ==> 1004 <= r.err.code <= 1018
    ensures r.Ok? ==> r.value.pointerLiterals == acc.pointerLiterals + [PointerLiteral(buf, s)]
    ensures r.Ok? && TypeAt(buf, s) == InfoHeader ==> acc.header.None? && r.value.header.Some? && HeaderOf(host, buf, s, r.value.header)
    ensures r.Ok? && TypeAt(buf, s) != InfoHeader ==> r.value.header == acc.header
    ensures r.Ok? && TypeAt(buf, s) == OpCodeMap ==>
              acc.opcodes.None? && r.value.opcodes.Some? && |r.value.opcodes.value| > host.vmOpcodeBaseMask
    ensures r.Ok? && TypeAt(buf, s) == OpCodeMap ==> MapOf(host, buf, s, r.value.opcodes.value)
    ensures r.Ok? && TypeAt(buf, s) != OpCodeMap ==> r.value.opcodes == acc.opcodes
    ensures r.Ok? && TypeAt(buf, s) == NumberLiterals ==>
              acc.numberLiterals.None? && r.value.numberLiterals.Some? && LiteralsOf(host, buf, s, r.value.numberLiterals)
    ensures r.Ok? && TypeAt(buf, s) != NumberLiterals ==> r.value.numberLiterals == acc.numberLiterals
    ensures TypeAt(buf, s) == ConfigData && SizeAt(buf, s) < 32000 ==>
              r.Ok? && r.value.configData == Some(LoadConfigData(buf, s))
    ensures r.Ok? && TypeAt(buf, s) != ConfigData ==> r.value.configData == acc.configData
    ensures r.ReadsPast? ==> TypeAt(buf, s) == InfoHeader && r.at == |buf|
    ensures r.Err? ==> s <= r.err.offset < s + SizeAt(buf, s)
    ensures SizeAt(buf, s) < 32000 && TypeAt(buf, s) !in {InfoHeader, OpCodeMap, NumberLiterals} ==> r.Ok?
    ensures SizeAt(buf, s) < 32000 && TypeAt(buf, s) == InfoHeader ==>
              var h := LoadInfoHeader(host, buf, s, acc.header.Some?);
              (r.Err? <==> h.Err?) && (r.Err? ==> r.err == h.err)
    ensures SizeAt(buf, s) < 32000 && TypeAt(buf, s) == OpCodeMap ==>
              var m := LoadOpcodeMap(host, buf, s, acc.opcodes.Some?);
              (r.Err? <==> m.Err?) && (r.Err? ==> r.err == m.err)
    ensures SizeAt(buf, s) < 32000 && TypeAt(buf, s) == NumberLiterals ==>
              var n := LoadNumberLiterals(host, buf, s, acc.numberLiterals.Some?);
              (r.Err? <==> n.Err?) && (r.Err? ==> r.err == n.err)
  {
    var t := TypeAt(buf, s);
    var slot := acc.pointerLiterals + [PointerLiteral(buf, s)];
    if !(SizeAt(buf, s) < 32000) then Err(SetVMImgError(1014, Some(s)))
    else if t == InfoHeader then
      match LoadInfoHeader(host, buf, s, acc.header.Some?)
      case Err(e) => Err(e)
      case ReadsPast(at) => ReadsPast(at)
      case Ok(h) => Ok(acc.(header := Some(h), pointerLiterals := slot))
    else if t == OpCodeMap then
      match LoadOpcodeMap(host, buf, s, acc.opcodes.Some?)
      case Err(e) => Err(e)
      case ReadsPast(at) => ReadsPast(at)
      case Ok(ops) => Ok(acc.(opcodes := Some(ops), pointerLiterals := slot))
    else if t == NumberLiterals then
      match LoadNumberLiterals(host, buf, s, acc.numberLiterals.Some?)
      case Err(e) => Err(e)
      case ReadsPast(at) => ReadsPast(at)
      case Ok(lits) => Ok(acc.(numberLiterals := Some(lits), pointerLiterals := slot))
    else if t == ConfigData then
      Ok(acc.(configData := Some(LoadConfigData(buf, s)), pointerLiterals := slot))
    else
      // IfaceMemberNames and every other type: only the pointer-literal slot.
      Ok(acc.(pointerLiterals := slot))
  }

  /** A recorded opcode table has more slots than the base opcode mask. */
  predicate OpcodesWide(host: Host, acc: Acc) {
    acc.opcodes.Some? ==> |acc.opcodes.value| > host.vmOpcodeBaseMask
  }

  /** The section loop from section `k` on; the first error ends it. */
  function LoadFrom(host: Host, buf: seq<Byte>, secs: seq<nat>, k: nat, acc: Acc): (r: Result<Acc>)
    requires k <= |secs| && AllFit(buf, secs)
    ensures r.Ok? ==> |r.value.pointerLiterals| == |acc.pointerLiterals| + |secs| - k
    ensures r.Ok? ==> r.value.pointerLiterals[..|acc.pointerLiterals|] == acc.pointerLiterals
    ensures r.Ok? ==> forall i :: k <= i < |secs| ==>
              r.value.pointerLiterals[|acc.pointerLiterals| + i - k] == PointerLiteral(buf, secs[i])
    ensures r.Ok? ==> forall i :: k <= i < |secs| ==> SizeAt(buf, secs[i]) < 32000
    ensures r.Err? ==> 1004 <= r.err.code <= 1018
    ensures r.Ok? && OpcodesWide(host, acc) ==> OpcodesWide(host, r.value)
    ensures r.ReadsPast? ==> r.at == |buf|
    decreases |secs| - k
  {
    if k == |secs| then Ok(acc)
    else
      match LoadSection(host, buf, secs[k], acc)
      case Err(e) => Err(e)
      case ReadsPast(at) => ReadsPast(at)
      case Ok(next) => LoadFrom(host, buf, secs, k + 1, next)
  }

  /** `loadSections` over the sections `secs` found by the count pass. */
  function LoadSections(host: Host, buf: seq<Byte>, secs: seq<nat>): (r: Result<Index>)
    requires AllFit(buf, secs)
    ensures r.Ok? ==> r.value.sections == secs && |r.value.pointerLiterals| == |secs|
    ensures r.Ok? ==> forall i :: 0 <= i < |secs| ==>
              && SizeAt(buf, secs[i]) < 32000
              && r.value.pointerLiterals[i] == (if TypeAt(buf, secs[i]) >= 0x20 then Some(secs[i]) else None)
    ensures r.Ok? ==> |r.value.opcodes| > host.vmOpcodeBaseMask
    ensures r.Err? && r.err.code in {1019, 1020, 1021, 1022} ==> r.err.offset == 0
    ensures r.Err? ==> 1004 <= r.err.code <= 1022
    ensures r.ReadsPast? ==> r.at == |buf|
  {
    match LoadFrom(host, buf, secs, 0, EmptyAcc)
    case Err(e) => Err(e)
    case ReadsPast(at) => ReadsPast(at)
    case Ok(a) =>
      if a.header.None? then Err(SetVMImgError(1019, None))
      else if a.opcodes.None? then Err(SetVMImgError(1020, None))
      else if a.numberLiterals.None? then Err(SetVMImgError(1021, None))
      else if a.configData.None? then Err(SetVMImgError(1022, None))
      else Ok(Index(secs, a.pointerLiterals, a.header.value, a.opcodes.value,
                    a.numberLiterals.value, a.configData.value))
  }

  /** Some section from `k` on has type `t`. */
  ghost predicate Has(buf: seq<Byte>, secs: seq<nat>, k: nat, t: nat)
    requires AllFit(buf, secs)
  {
    exists i :: k <= i < |secs| && TypeAt(buf, secs[i]) == t
  }

  /** No two sections from `k` on have type `t`. */
  ghost predicate AtMostOne(buf: seq<Byte>, secs: seq<nat>, k: nat, t: nat)
    requires AllFit(buf, secs)
  {
    forall i, j :: k <= i < j < |secs| ==> TypeAt(buf, secs[i]) != t || TypeAt(buf, secs[j]) != t
  }

  /** What a completed walk has recorded: a table exactly when it was already
      recorded or a later section provides it, and a section that may appear
      only once appears at most once (and not again after being recorded). */
  lemma {:induction false} LoadFromRecords(host: Host, buf: seq<Byte>, secs: seq<nat>, k: nat, acc: Acc)
    requires k <= |secs| && AllFit(buf, secs)
    requires LoadFrom(host, buf, secs, k, acc).Ok?
    ensures var a := LoadFrom(host, buf, secs, k, acc).value;
            && (a.header.Some? <==> acc.header.Some? || Has(buf, secs, k, InfoHeader))
            && (a.opcodes.Some? <==> acc.opcodes.Some? || Has(buf, secs, k, OpCodeMap))
            && (a.numberLiterals.Some? <==> acc.numberLiterals.Some? || Has(buf, secs, k, NumberLiterals))
            && (a.configData.Some? <==> acc.configData.Some? || Has(buf, secs, k, ConfigData))
    ensures acc.header.Some? ==> !Has(buf, secs, k, InfoHeader)
    ensures acc.opcodes.Some? ==> !Has(buf, secs, k, OpCodeMap)
    ensures acc.numberLiterals.Some? ==> !Has(buf, secs, k, NumberLiterals)
    ensures AtMostOne(buf, secs, k, InfoHeader)
    ensures AtMostOne(buf, secs, k, OpCodeMap)
    ensures AtMostOne(buf, secs, k, NumberLiterals)
    decreases |secs| - k
  {
    if k < |secs| {
      var next := LoadSection(host, buf, secs[k], acc).value;
      LoadFromRecords(host, buf, secs, k + 1, next);
    }
  }

  /** After a complete walk the required tables are checked in the order
      header, opcodes, number literals, config data, each at offset 0; a
      loaded image has exactly one header, one opcode map and one
      number-literal section, and at least one config-data section. */
  lemma LoadSectionsRequired(host: Host, buf: seq<Byte>, secs: seq<nat>)
    requires AllFit(buf, secs)
    requires LoadFrom(host, buf, secs, 0, EmptyAcc).Ok?
    ensures var r := LoadSections(host, buf, secs);
            && (!Has(buf, secs, 0, InfoHeader) ==> r == Err(VmError(1019, 0)))
            && (Has(buf, secs, 0, InfoHeader) && !Has(buf, secs, 0, OpCodeMap) ==> r == Err(VmError(1020, 0)))
            && ((Has(buf, secs, 0, InfoHeader) && Has(buf, secs, 0, OpCodeMap) &&
                 !Has(buf, secs, 0, NumberLiterals)) ==> r == Err(VmError(1021, 0)))
            && ((Has(buf, secs, 0, InfoHeader) && Has(buf, secs, 0, OpCodeMap) &&
                 Has(buf, secs, 0, NumberLiterals) && !Has(buf, secs, 0, ConfigData)) ==> r == Err(VmError(1022, 0)))
            && (r.Ok? <==> Has(buf, secs, 0, InfoHeader) && Has(buf, secs, 0, OpCodeMap) &&
                           Has(buf, secs, 0, NumberLiterals) && Has(buf, secs, 0, ConfigData))
            && (r.Ok? ==> AtMostOne(buf, secs, 0, InfoHeader) && AtMostOne(buf, secs, 0, OpCodeMap) &&
                          AtMostOne(buf, secs, 0, NumberLiterals))
  {
    LoadFromRecords(host, buf, secs, 0, EmptyAcc);
  }

  /** The loaded opcode table is the one of an opcode-map section of the
      image: one slot per name of that map, each what its name resolves to. */
  lemma {:induction false} LoadFromOpcodes(host: Host, buf: seq<Byte>, secs: seq<nat>, k: nat, acc: Acc)
    requires k <= |secs| && AllFit(buf, secs)
    requires LoadFrom(host, buf, secs, k, acc).Ok?
    requires acc.opcodes.Some? ==> exists i :: 0 <= i < |secs| && MapOf(host, buf, secs[i], acc.opcodes.value)
    ensures var a := LoadFrom(host, buf, secs, k, acc).value;
            a.opcodes.Some? ==> exists i :: 0 <= i < |secs| && MapOf(host, buf, secs[i], a.opcodes.value)
    decreases |secs| - k
  {
    if k < |secs| {
      assert LoadSection(host, buf, secs[k], acc).Ok?;
      var next := LoadSection(host, buf, secs[k], acc).value;
      if TypeAt(buf, secs[k]) == OpCodeMap {
        assert MapOf(host, buf, secs[k], next.opcodes.value);
      } else {
        assert next.opcodes == acc.opcodes;
      }
      LoadFromOpcodes(host, buf, secs, k + 1, next);
    }
  }

  lemma LoadSectionsOpcodes(host: Host, buf: seq<Byte>, secs: seq<nat>)
    requires AllFit(buf, secs) && LoadSections(host, buf, secs).Ok?
    ensures exists i :: 0 <= i < |secs| && MapOf(host, buf, secs[i], LoadSections(host, buf, secs).value.opcodes)
  {
    LoadFromOpcodes(host, buf, secs, 0, EmptyAcc);
  }

  /** The config-data branch has no checks and no duplicate test: after a
      complete walk the recorded table is that of the last config-data
      section, and the one recorded before the walk when there is none. */
  lemma {:induction false} LoadFromConfigLast(host: Host, buf: seq<Byte>, secs: seq<nat>, k: nat, acc: Acc)
    requires k <= |secs| && AllFit(buf, secs)
    requires LoadFrom(host, buf, secs, k, acc).Ok?
    ensures var a := LoadFrom(host, buf, secs, k, acc).value;
            && (!Has(buf, secs, k, ConfigData) ==> a.configData == acc.configData)
            && forall i :: k <= i < |secs| && TypeAt(buf, secs[i]) == ConfigData && !Has(buf, secs, i + 1, ConfigData) ==>
                 a.configData == Some(LoadConfigData(buf, secs[i]))
    decreases |secs| - k
  {
    if k < |secs| {
      var next := LoadSection(host, buf, secs[k], acc).value;
      LoadFromConfigLast(host, buf, secs, k + 1, next);
      if !Has(buf, secs, k, ConfigData) {
        assert TypeAt(buf, secs[k]) != ConfigData;
      }
    }
  }

  /** The recorded header and literal table are those of an info-header and a
      number-literal section of the image. */
  lemma {:induction false} LoadFromTables(host: Host, buf: seq<Byte>, secs: seq<nat>, k: nat, acc: Acc)
    requires k <= |secs| && AllFit(buf, secs)
    requires LoadFrom(host, buf, secs, k, acc).Ok?
    requires acc.header.Some? ==> exists i :: 0 <= i < |secs| && HeaderOf(host, buf, secs[i], acc.header)
    requires acc.numberLiterals.Some? ==>
               exists i :: 0 <= i < |secs| && LiteralsOf(host, buf, secs[i], acc.numberLiterals)
    ensures var a := LoadFrom(host, buf, secs, k, acc).value;
            && (a.header.Some? ==> exists i :: 0 <= i < |secs| && HeaderOf(host, buf, secs[i], a.header))
            && (a.numberLiterals.Some? ==>
                  exists i :: 0 <= i < |secs| && LiteralsOf(host, buf, secs[i], a.numberLiterals))
    decreases |secs| - k
  {
    if k < |secs| {
      var next := LoadSection(host, buf, secs[k], acc).value;
      if TypeAt(buf, secs[k]) == InfoHeader {
        assert HeaderOf(host, buf, secs[k], next.header);
      }
      if TypeAt(buf, secs[k]) == NumberLiterals {
        assert LiteralsOf(host, buf, secs[k], next.numberLiterals);
      }
      LoadFromTables(host, buf, secs, k + 1, next);
    }
  }

  /** A loaded index's header is that of an info-header section of the image
      and passed the header checks; its literal table is that of a
      number-literal section, every entry accepted. */
  lemma LoadSectionsTables(host: Host, buf: seq<Byte>, secs: seq<nat>)
    requires AllFit(buf, secs) && LoadSections(host, buf, secs).Ok?
    ensures var idx := LoadSections(host, buf, secs).value;
            && (exists i :: 0 <= i < |secs| && HeaderOf(host, buf, secs[i], Some(idx.header)))
            && (exists i :: 0 <= i < |secs| && LiteralsOf(host, buf, secs[i], Some(idx.numberLiterals)))
  {
    LoadFromTables(host, buf, secs, 0, EmptyAcc);
  }

  /** The section loop over sections `k..j-1` only. */
  function LoadPrefix(host: Host, buf: seq<Byte>, secs: seq<nat>, k: nat, j: nat, acc: Acc): Result<Acc>
    requires k <= j <= |secs| && AllFit(buf, secs)
    decreases j - k
  {
    if k == j then Ok(acc)
    else
      match LoadSection(host, buf, secs[k], acc)
      case Ok(next) => LoadPrefix(host, buf, secs, k + 1, j, next)
      case other => other
  }

  /** One accepted section advances the prefix loop by one. */
  lemma LoadPrefixStep(host: Host, buf: seq<Byte>, secs: seq<nat>, k: nat, j: nat, acc: Acc)
    requires k < j <= |secs| && AllFit(buf, secs)
    requires LoadSection(host, buf, secs[k], acc).Ok?
    ensures LoadPrefix(host, buf, secs, k, j, acc) == LoadPrefix(host, buf, secs, k + 1, j, LoadSection(host, buf, secs[k], acc).value)
    ensures LoadFrom(host, buf, secs, k, acc) == LoadFrom(host, buf, secs, k + 1, LoadSection(host, buf, secs[k], acc).value)
  {
  }

  /** The loop from `k` is the loop over `k..j-1` continued from `j`. */
  lemma {:induction false} LoadFromSplit(host: Host, buf: seq<Byte>, secs: seq<nat>, k: nat, j: nat, acc: Acc)
    requires k <= j <= |secs| && AllFit(buf, secs)
    requires LoadPrefix(host, buf, secs, k, j, acc).Ok?
    ensures LoadFrom(host, buf, secs, k, acc) == LoadFrom(host, buf, secs, j, LoadPrefix(host, buf, secs, k, j, acc).value)
    decreases j - k
  {
    if k < j {
      LoadFromSplit(host, buf, secs, k + 1, j, LoadSection(host, buf, secs[k], acc).value);
    }
  }

  /** A failed loop fails at the first section it rejects: every section
      before it was accepted, and the loop's outcome is that section's. */
  lemma {:induction false} LoadFromFirstError(host: Host, buf: seq<Byte>, secs: seq<nat>, k: nat, acc: Acc)
    requires k <= |secs| && AllFit(buf, secs)
    requires !LoadFrom(host, buf, secs, k, acc).Ok?
    ensures exists j :: k <= j < |secs| && LoadPrefix(host, buf, secs, k, j, acc).Ok? &&
              LoadSection(host, buf, secs[j], LoadPrefix(host, buf, secs, k, j, acc).value) == LoadFrom(host, buf, secs, k, acc)
    decreases |secs| - k
  {
    var r := LoadSection(host, buf, secs[k], acc);
    if r.Ok? {
      LoadFromFirstError(host, buf, secs, k + 1, r.value);
      var j :| k + 1 <= j < |secs| && LoadPrefix(host, buf, secs, k + 1, j, r.value).Ok? &&
                LoadSection(host, buf, secs[j], LoadPrefix(host, buf, secs, k + 1, j, r.value).value)
                  == LoadFrom(host, buf, secs, k + 1, r.value);
      LoadPrefixStep(host, buf, secs, k, j, acc);
    } else {
      assert LoadFrom(host, buf, secs, k, acc) == r;
      assert LoadPrefix(host, buf, secs, k, k, acc) == Ok(acc);
    }
  }

  /** A load error from 1004 to 1018 is the error of the first section the
      loop rejects, all earlier sections having been accepted. */
  lemma LoadSectionsFirstError(host: Host, buf: seq<Byte>, secs: seq<nat>)
    requires AllFit(buf, secs)
    requires LoadSections(host, buf, secs).Err? && LoadSections(host, buf, secs).err.code < 1019
    ensures exists j :: 0 <= j < |secs| && LoadPrefix(host, buf, secs, 0, j, EmptyAcc).Ok? &&
              LoadSection(host, buf, secs[j], LoadPrefix(host, buf, secs, 0, j, EmptyAcc).value)
                == Err(LoadSections(host, buf, secs).err)
  {
    LoadFromFirstError(host, buf, secs, 0, EmptyAcc);
  }

  /** A number-literal table whose first rejected entry is a NaN double ends
      the load with 1005 at that entry, when it is the first such table and
      every earlier section was accepted. */
  lemma NaNLiteralFailsLoad(host: Host, buf: seq<Byte>, secs: seq<nat>, j: nat, i: nat)
    requires AllFit(buf, secs) && j < |secs|
    requires LoadPrefix(host, buf, secs, 0, j, EmptyAcc).Ok?
    requires LoadPrefix(host, buf, secs, 0, j, EmptyAcc).value.numberLiterals.None?
    requires TypeAt(buf, secs[j]) == NumberLiterals && SizeAt(buf, secs[j]) < 32000
    requires var t := LiteralTable(buf, secs[j]);
             && FirstBadLiteral(host, buf, t.data, 0, t.count) == Some(i)
             && host.isDouble(U64At(buf, t.data + 8 * i))
    ensures LoadSections(host, buf, secs) == Err(VmError(1005, LiteralTable(buf, secs[j]).data + 8 * i))
  {
    var a := LoadPrefix(host, buf, secs, 0, j, EmptyAcc).value;
    LoadFromSplit(host, buf, secs, 0, j, EmptyAcc);
    assert LoadSection(host, buf, secs[j], a).Err?;
  }
}
