/** The info-header, number-literal and config-data branches of
    `loadSections`. */
module Header {
  import opened Words
  import opened Layout

  /** A section lies inside the buffer and is at least a section header long. */
  predicate SectionFits(buf: seq<Byte>, s: nat) {
    && s + SectionHeaderSize <= |buf|
    && SectionHeaderSize <= SizeAt(buf, s)
    && s + SizeAt(buf, s) <= |buf|
  }

  // ---------------------------------------------------------------- info header

  /** The size test of the info-header branch as the source writes it: the
      section size, which counts the 8-byte section header, is compared with
      the size of the header structure alone. */
  predicate HeaderSizeOkAsWritten(size: nat) {
    size >= HeaderSize
  }

  /** The size test that keeps the whole header structure inside the section. */
  predicate HeaderSizeOk(size: nat) {
    size >= SectionHeaderSize + HeaderSize
  }

  /** The four checked fields of the info header. */
  datatype InfoFields = InfoFields(magic0: U32, magic1: U32, allocGlobals: U32, nonPointerGlobals: U32)

  function ReadInfo(buf: seq<Byte>, hd: nat): (f: InfoFields)
    requires hd + HeaderSize <= |buf|
  {
    InfoFields(U32At(buf, hd + Magic0At), U32At(buf, hd + Magic1At),
               U32At(buf, hd + AllocGlobalsAt), U32At(buf, hd + NonPointerGlobalsAt))
  }

  /** The header structure at byte offset `hd` lies in the image and passes
      the checks 1009 to 1012. */
  ghost predicate HeaderAccepted(host: Host, buf: seq<Byte>, hd: nat) {
    && hd + HeaderSize <= |buf|
    && ReadInfo(buf, hd).magic0 == host.vmMagic0
    && ReadInfo(buf, hd).magic1 == host.vmMagic1
    && ReadInfo(buf, hd).nonPointerGlobals <= ReadInfo(buf, hd).allocGlobals < 10000
  }

  /** The info-header branch for the section at `s`, as the source writes it;
      `seen` says whether a header was already recorded, and on success the
      result is the byte offset of the header structure. The size test lets
      a section of 32 to 39 bytes through. The magic numbers still lie inside
      such a section, but the global counts lie past its end: in the next
      section's bytes, or past the end of the image when no bytes follow. */
  function LoadInfoHeader(host: Host, buf: seq<Byte>, s: nat, seen: bool): (r: Result<nat>)
    requires SectionFits(buf, s)
    ensures r.Err? ==> r.err.offset == s && 1008 <= r.err.code <= 1013
    ensures r.Err? && r.err.code == 1013 ==> seen
    ensures !HeaderSizeOkAsWritten(SizeAt(buf, s)) <==> r == Err(VmError(1008, s))
    ensures r.ReadsPast? <==>
              && HeaderSizeOkAsWritten(SizeAt(buf, s))
              && U32At(buf, s + SectionHeaderSize + Magic0At) == host.vmMagic0
              && U32At(buf, s + SectionHeaderSize + Magic1At) == host.vmMagic1
              && |buf| < s + SectionHeaderSize + HeaderSize
    ensures r.ReadsPast? ==> r.at == |buf| && s + SectionHeaderSize + AllocGlobalsAt <= |buf|
    ensures r.Ok? ==>
              && r.value == s + SectionHeaderSize
              && r.value + HeaderSize <= |buf|
              && !seen
              && ReadInfo(buf, r.value).magic0 == host.vmMagic0
              && ReadInfo(buf, r.value).magic1 == host.vmMagic1
              && ReadInfo(buf, r.value).nonPointerGlobals <= ReadInfo(buf, r.value).allocGlobals < 10000
  {
    var hd := s + SectionHeaderSize;
    if !HeaderSizeOkAsWritten(SizeAt(buf, s)) then Err(SetVMImgError(1008, Some(s)))
    else if U32At(buf, hd + Magic0At) != host.vmMagic0 then Err(SetVMImgError(1009, Some(s)))
    else if U32At(buf, hd + Magic1At) != host.vmMagic1 then Err(SetVMImgError(1010, Some(s)))
    else if |buf| < hd + HeaderSize then ReadsPast(|buf|)
    else
      var f := ReadInfo(buf, hd);
      if !(f.allocGlobals >= f.nonPointerGlobals) then Err(SetVMImgError(1011, Some(s)))
      else if !(f.allocGlobals < 10000) then Err(SetVMImgError(1012, Some(s)))
      else if seen then Err(SetVMImgError(1013, Some(s)))
      else Ok(hd)
  }

  /** The info-header branch with the corrected size test: the header
      structure must fit in the section's payload, so every field read lies
      inside the section and the branch never reads past the image. */
  function LoadInfoHeaderFixed(host: Host, buf: seq<Byte>, s: nat, seen: bool): (r: Result<nat>)
    requires SectionFits(buf, s)
    ensures !r.ReadsPast?
    ensures r.Err? ==> r.err.offset == s && 1008 <= r.err.code <= 1013
    ensures r.Err? && r.err.code == 1013 ==> seen
    ensures r.Ok? ==>
              && r.value == s + SectionHeaderSize
              && r.value + HeaderSize <= s + SizeAt(buf, s)
              && !seen
              && ReadInfo(buf, r.value).magic0 == host.vmMagic0
              && ReadInfo(buf, r.value).magic1 == host.vmMagic1
              && ReadInfo(buf, r.value).nonPointerGlobals <= ReadInfo(buf, r.value).allocGlobals < 10000
    ensures !HeaderSizeOk(SizeAt(buf, s)) <==> r == Err(VmError(1008, s))
  {
    if !HeaderSizeOk(SizeAt(buf, s)) then Err(SetVMImgError(1008, Some(s)))
    else
      var hd := ReadInfo(buf, s + SectionHeaderSize);
      if hd.magic0 != host.vmMagic0 then Err(SetVMImgError(1009, Some(s)))
      else if hd.magic1 != host.vmMagic1 then Err(SetVMImgError(1010, Some(s)))
      else if !(hd.allocGlobals >= hd.nonPointerGlobals) then Err(SetVMImgError(1011, Some(s)))
      else if !(hd.allocGlobals < 10000) then Err(SetVMImgError(1012, Some(s)))
      else if seen then Err(SetVMImgError(1013, Some(s)))
      else Ok(s + SectionHeaderSize)
  }

  /** The corrected branch reads nothing outside its section: two images
      that agree on the section's bytes give the same result. */
  lemma InfoHeaderFixReadsSection(host: Host, buf: seq<Byte>, other: seq<Byte>, s: nat, seen: bool)
    requires SectionFits(buf, s) && s + SizeAt(buf, s) <= |other|
    requires other[s..s + SizeAt(buf, s)] == buf[s..s + SizeAt(buf, s)]
    ensures SectionFits(other, s) && SizeAt(other, s) == SizeAt(buf, s)
    ensures LoadInfoHeaderFixed(host, other, s, seen) == LoadInfoHeaderFixed(host, buf, s, seen)
  {
    var n := SizeAt(buf, s);
    forall i | s <= i < s + n
      ensures other[i] == buf[i]
    {
      assert other[i] == other[s..s + n][i - s];
    }
    assert SizeAt(other, s) == n;
    if HeaderSizeOk(n) {
      var hd := s + SectionHeaderSize;
      assert ReadInfo(other, hd) == ReadInfo(buf, hd);
    }
  }

  /** The two size tests part only on sections of 32 to 39 bytes: there the
      corrected branch rejects the header with 1008 and the branch as written
      goes on to read it. */
  lemma InfoHeaderFixAgrees(host: Host, buf: seq<Byte>, s: nat, seen: bool)
    requires SectionFits(buf, s)
    ensures LoadInfoHeader(host, buf, s, seen) != LoadInfoHeaderFixed(host, buf, s, seen) ==>
              && HeaderSize <= SizeAt(buf, s) < SectionHeaderSize + HeaderSize
              && LoadInfoHeaderFixed(host, buf, s, seen) == Err(VmError(1008, s))
              && LoadInfoHeader(host, buf, s, seen) != Err(VmError(1008, s))
  {
  }

  /** The check order of the info-header branch: a header failing several
      checks reports the first of them, and one passing them all is recorded
      unless a header was recorded before. */
  lemma InfoHeaderCheckOrder(host: Host, buf: seq<Byte>, s: nat, seen: bool)
    requires SectionFits(buf, s) && HeaderSizeOkAsWritten(SizeAt(buf, s))
    requires s + SectionHeaderSize + HeaderSize <= |buf|
    ensures var hd := ReadInfo(buf, s + SectionHeaderSize);
            var r := LoadInfoHeader(host, buf, s, seen);
            && (hd.magic0 != host.vmMagic0 ==> r.err.code == 1009)
            && (hd.magic0 == host.vmMagic0 && hd.magic1 != host.vmMagic1 ==> r.err.code == 1010)
            && ((hd.magic0 == host.vmMagic0 && hd.magic1 == host.vmMagic1 &&
                 hd.allocGlobals < hd.nonPointerGlobals) ==> r.err.code == 1011)
            && ((hd.magic0 == host.vmMagic0 && hd.magic1 == host.vmMagic1 &&
                 hd.nonPointerGlobals <= hd.allocGlobals && 10000 <= hd.allocGlobals) ==> r.err.code == 1012)
            && ((hd.magic0 == host.vmMagic0 && hd.magic1 == host.vmMagic1 &&
                 hd.nonPointerGlobals <= hd.allocGlobals < 10000) ==>
                  r == if seen then Err(VmError(1013, s)) else Ok(s + SectionHeaderSize))
  {
  }

  // ------------------------------------------------------------ number literals

  /** A table recorded by the byte offset of its first entry and an entry
      count: 8-byte words for the number literals, 32-bit words for the
      config data (whose count is that of the section's 8-byte units). */
  datatype Table = Table(data: nat, count: nat)

  /** The entry classification of the number-literal loop. */
  predicate LiteralOk(host: Host, v: Word) {
    if host.isDouble(v) then !host.isNaN(v)
    else if host.isInt(v) then v / 2 <= 0xffff_ffff
    else v == 0
  }

  /** The error code of a rejected literal. */
  function LiteralCode(host: Host, v: Word): nat {
    if host.isDouble(v) then 1005 else if host.isInt(v) then 1006 else 1007
  }

  /** Whether entry `j` of the literal array at `data` is accepted. */
  predicate LiteralEntryOk(host: Host, buf: seq<Byte>, data: nat, j: nat)
    requires data + 8 * j + 8 <= |buf|
  {
    LiteralOk(host, U64At(buf, data + 8 * j))
  }

  /** The first entry among `i..count` of a literal array at `data` that the
      number-literal loop rejects. */
  function FirstBadLiteral(host: Host, buf: seq<Byte>, data: nat, i: nat, count: nat): (r: Option<nat>)
    requires i <= count && data + 8 * count <= |buf|
    ensures r.None? <==> forall j :: i <= j < count ==> LiteralEntryOk(host, buf, data, j)
    ensures r.Some? ==>
              && i <= r.value < count
              && data + 8 * r.value + 8 <= |buf|
              && !LiteralEntryOk(host, buf, data, r.value)
              && forall k :: i <= k < r.value ==> LiteralEntryOk(host, buf, data, k)
    decreases count - i
  {
    if i == count then None
    else if !LiteralEntryOk(host, buf, data, i) then Some(i)
    else FirstBadLiteral(host, buf, data, i + 1, count)
  }

  /** Every entry of the literal table `t` lies in the image and is accepted. */
  ghost predicate LiteralsAccepted(host: Host, buf: seq<Byte>, t: Table) {
    && t.data + 8 * t.count <= |buf|
    && forall j :: 0 <= j < t.count ==> LiteralEntryOk(host, buf, t.data, j)
  }

  /** The literal table of the number-literal section at `s`: `size/8 - 1`
      entries, one per 8-byte unit of the section after its 8-byte section
      header. */
  function LiteralTable(buf: seq<Byte>, s: nat): (t: Table)
    requires SectionFits(buf, s)
    ensures t.data == s + SectionHeaderSize && t.count == SizeAt(buf, s) / 8 - 1
    ensures t.data + 8 * t.count <= s + SizeAt(buf, s)
  {
    var n := SizeAt(buf, s);
    DivModSplit(n, 8);
    Table(s + SectionHeaderSize, n / 8 - 1)
  }

  /** The entry loop of the number-literal branch over table `t`: no error
      exactly when the table is accepted, otherwise the code of the first
      rejected entry at that entry's offset. */
  function CheckLiterals(host: Host, buf: seq<Byte>, t: Table): (r: Option<VmError>)
    requires t.data + 8 * t.count <= |buf|
    ensures r.None? <==> LiteralsAccepted(host, buf, t)
    ensures r.Some? ==>
              && FirstBadLiteral(host, buf, t.data, 0, t.count).Some?
              && var at := t.data + 8 * FirstBadLiteral(host, buf, t.data, 0, t.count).value;
                 r.value == VmError(LiteralCode(host, U64At(buf, at)), at)
  {
    var bad := FirstBadLiteral(host, buf, t.data, 0, t.count);
    if bad.None? then None
    else
      var at := t.data + 8 * bad.value;
      Some(SetVMImgError(LiteralCode(host, U64At(buf, at)), Some(at)))
  }

  /** The number-literal branch: a second table gives 1004; otherwise every
      entry is checked at its own offset, and the first rejected one gives
      its code there. */
  function LoadNumberLiterals(host: Host, buf: seq<Byte>, s: nat, seen: bool): (r: Result<Table>)
    requires SectionFits(buf, s)
    ensures seen ==> r == Err(VmError(1004, s))
    ensures r.Err? ==> 1004 <= r.err.code <= 1007
    ensures r.Ok? ==> r.value == LiteralTable(buf, s)
    ensures r.Ok? <==> !seen && LiteralsAccepted(host, buf, LiteralTable(buf, s))
    ensures !seen && r.Err? ==>
              var t := LiteralTable(buf, s);
              && FirstBadLiteral(host, buf, t.data, 0, t.count).Some?
              && var at := t.data + 8 * FirstBadLiteral(host, buf, t.data, 0, t.count).value;
                 r.err == VmError(LiteralCode(host, U64At(buf, at)), at)
  {
    var t := LiteralTable(buf, s);
    if seen then Err(SetVMImgError(1004, Some(s)))
    else
      match CheckLiterals(host, buf, t)
      case Some(e) => Err(e)
      case None => Ok(t)
  }

  /** The config-data branch: recorded with `size/8` entries, no checks. */
  function LoadConfigData(buf: seq<Byte>, s: nat): (t: Table)
    requires SectionFits(buf, s)
    ensures t.data == s + SectionHeaderSize && 8 * t.count == SizeAt(buf, s) - SizeAt(buf, s) % 8
  {
    Table(s + SectionHeaderSize, SizeAt(buf, s) / 8)
  }
}
