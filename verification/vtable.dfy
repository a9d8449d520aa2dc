/** The dispatch-table branch of `validateFunctions`: the fixed part of a
    vtable, its interface hash array and the interface entries behind it. */
module VTables {
  import opened Words
  import opened Layout
  import opened Header

  /** The checked fixed fields of a vtable. */
  datatype VtFields = VtFields(
    numBytes: nat, objectType: nat, magic: nat,
    entries: U32, reserved: nat, mult: U32)

  /** Byte offset of the hash array: just after the native method slots. */
  function MultBase(host: Host, s: nat): nat {
    s + SectionHeaderSize + MethodsAt + MethodSlotSize * host.numCppMethods
  }

  function ReadVt(buf: seq<Byte>, vt: nat): VtFields
    requires vt + MethodsAt <= |buf|
  {
    VtFields(U16At(buf, vt + NumBytesAt), buf[vt + ObjectTypeAt], buf[vt + VtMagicAt],
             U32At(buf, vt + IfaceHashEntriesAt), U16At(buf, vt + ReservedAt),
             U32At(buf, vt + IfaceHashMultAt))
  }

  /** `x` shifted right by `k` bits, one bit at a time. */
  function ShiftRight(x: nat, k: nat): (r: nat)
    ensures r == x / Pow2(k)
    ensures r <= x
    ensures k > 0 ==> r <= x / 2
    decreases k
  {
    if k == 0 then x
    else
      DivDiv(x, 2, Pow2(k - 1));
      ShiftRight(x / 2, k - 1)
  }

  /** `0xffffffffU >> (mult & 0xff)`; a shift by 32 or more is taken to
      clear every bit. */
  function MaxMult(mult: U32): U32 {
    ShiftRight(0xffff_ffff, mult % 0x100)
  }

  /** `maxMult + 3` in 32-bit unsigned arithmetic. */
  function EntriesBound(mult: U32): U32 {
    (MaxMult(mult) + 3) % 0x1_0000_0000
  }

  /** The shape conditions of a vtable, stated as one conjunction. */
  ghost predicate ShapeOk(host: Host, buf: seq<Byte>, s: nat)
    requires SectionFits(buf, s)
  {
    var endp := s + SizeAt(buf, s);
    var mb := MultBase(host, s);
    && mb < endp
    && var f := ReadVt(buf, s + SectionHeaderSize);
    && f.numBytes < 1024
    && f.numBytes % 8 == 0
    && f.objectType == host.valTypeObject
    && f.magic == host.vtableMagic
    && f.entries > EntriesBound(f.mult)
    && mb + 2 * f.entries < endp
    && f.reserved == 0
    && f.mult != 0
    && f.entries % 4 == 0
  }

  /** The shape checks, in the source's order: the first failing check's
      code, or 0. */
  function ShapeCode(host: Host, buf: seq<Byte>, s: nat): (c: nat)
    requires SectionFits(buf, s)
    ensures c == 0 <==> ShapeOk(host, buf, s)
    ensures c != 0 ==> 1023 <= c <= 1032
    ensures c == 1023 <==> MultBase(host, s) >= s + SizeAt(buf, s)
  {
    var endp := s + SizeAt(buf, s);
    var mb := MultBase(host, s);
    if !(mb < endp) then 1023
    else
      var f := ReadVt(buf, s + SectionHeaderSize);
      if !(f.numBytes < 1024) then 1024
      else if f.numBytes % 8 != 0 then 1025
      else if f.objectType != host.valTypeObject then 1026
      else if f.magic != host.vtableMagic then 1027
      else if !(f.entries > EntriesBound(f.mult)) then 1028
      else if !(mb + 2 * f.entries < endp) then 1029
      else if f.reserved != 0 then 1030
      else if f.mult == 0 then 1031
      else if f.entries % 4 != 0 then 1032
      else 0
  }

  /** The check order of the shape checks: once the hash array starts inside
      the section, each code is reported exactly when its check fails and
      every earlier one passed. */
  lemma ShapeCheckOrder(host: Host, buf: seq<Byte>, s: nat)
    requires SectionFits(buf, s) && MultBase(host, s) < s + SizeAt(buf, s)
    ensures var f := ReadVt(buf, s + SectionHeaderSize);
            var c := ShapeCode(host, buf, s);
            var endp := s + SizeAt(buf, s);
            && (c == 1024 <==> f.numBytes >= 1024)
            && (f.numBytes < 1024 ==> (c == 1025 <==> f.numBytes % 8 != 0))
            && (f.numBytes < 1024 && f.numBytes % 8 == 0 ==>
                 (c == 1026 <==> f.objectType != host.valTypeObject))
            && (f.numBytes < 1024 && f.numBytes % 8 == 0 && f.objectType == host.valTypeObject ==>
                 (c == 1027 <==> f.magic != host.vtableMagic))
            && (f.numBytes < 1024 && f.numBytes % 8 == 0 && f.objectType == host.valTypeObject &&
                f.magic == host.vtableMagic ==>
                 && (c == 1028 <==> f.entries <= EntriesBound(f.mult))
                 && (f.entries > EntriesBound(f.mult) ==>
                      && (c == 1029 <==> MultBase(host, s) + 2 * f.entries >= endp)
                      && (MultBase(host, s) + 2 * f.entries < endp ==>
                           && (c == 1030 <==> f.reserved != 0)
                           && (f.reserved == 0 ==>
                                && (c == 1031 <==> f.mult == 0)
                                && (f.mult != 0 ==> (c == 1032 <==> f.entries % 4 != 0))))))
  {
  }

  /** A shape-checked vtable has at least four hash slots. */
  lemma ShapeOkEntries(host: Host, buf: seq<Byte>, s: nat)
    requires SectionFits(buf, s) && ShapeOk(host, buf, s)
    ensures ReadVt(buf, s + SectionHeaderSize).entries >= 4
  {
    var f := ReadVt(buf, s + SectionHeaderSize);
    var m := MaxMult(f.mult);
    if m == 0xffff_ffff {
      assert EntriesBound(f.mult) == 2;
    } else {
      assert EntriesBound(f.mult) == m + 3;
    }
  }

  /** The `j`-th 16-bit slot of the hash array at `mb`. */
  function Slot(buf: seq<Byte>, mb: nat, j: nat): nat
    requires mb + 2 * j + 2 <= |buf|
  {
    U16At(buf, mb + 2 * j)
  }

  /** The first hash loop from slot `i` on: every slot's entry must end by
      `endp` (else `None`, error 1033); tracks the least and greatest slot,
      starting from `lo` and `hi`. */
  function ScanHash(buf: seq<Byte>, mb: nat, endp: nat, i: nat, n: nat, lo: nat, hi: nat): (r: Option<(nat, nat)>)
    requires i <= n && mb + 2 * n <= endp <= |buf|
    ensures r.None? <==> exists j :: i <= j < n && mb + IfaceEntrySize * (Slot(buf, mb, j) + 1) > endp
    ensures r.Some? ==> forall j :: i <= j < n ==> r.value.0 <= Slot(buf, mb, j) <= r.value.1
    ensures r.Some? ==> r.value.0 <= lo && hi <= r.value.1
    ensures r.Some? ==> r.value.0 == lo || exists j :: i <= j < n && Slot(buf, mb, j) == r.value.0
    ensures r.Some? ==> r.value.1 == hi || exists j :: i <= j < n && Slot(buf, mb, j) == r.value.1
    decreases n - i
  {
    if i == n then Some((lo, hi))
    else
      var off := Slot(buf, mb, i);
      var hi' := if off > hi then off else hi;
      var lo' := if off < lo then off else lo;
      if mb + IfaceEntrySize * (off + 1) > endp then None
      else ScanHash(buf, mb, endp, i + 1, n, lo', hi')
  }

  /** The error code of the interface entry at byte offset `e` (0 if it is
      accepted): a method entry (`aux == 0`) must name a Function section,
      a field entry must lie inside the instance and name itself. */
  function EntryCode(buf: seq<Byte>, ptrs: seq<Option<nat>>, numBytes: nat, e: nat): (c: nat)
    requires e + IfaceEntrySize <= |buf|
    requires forall k :: 0 <= k < |ptrs| && ptrs[k].Some? ==> ptrs[k].value + SectionHeaderSize <= |buf|
    ensures U16At(buf, e + EntryAuxAt) == 0 ==> c == 0 || 1037 <= c <= 1039
    ensures U16At(buf, e + EntryAuxAt) != 0 ==> c == 0 || 1035 <= c <= 1036
  {
    var aux := U16At(buf, e + EntryAuxAt);
    var target := U32At(buf, e + EntryMethodAt);
    if aux == 0 then
      if !(target < |ptrs|) then 1037
      else if ptrs[target].None? then 1038
      else if TypeAt(buf, ptrs[target].value) != Function then 1039
      else 0
    else if !(aux < numBytes / 8) then 1035
    else if aux != target then 1036
    else 0
  }

  /** The check order for one interface entry: a method entry is checked for
      an in-range section index (1037), a non-null pointer literal (1038)
      and a Function section (1039); a field entry for a slot inside the
      instance (1035) that names itself (1036). */
  lemma EntryCheckOrder(buf: seq<Byte>, ptrs: seq<Option<nat>>, numBytes: nat, e: nat)
    requires e + IfaceEntrySize <= |buf|
    requires forall k :: 0 <= k < |ptrs| && ptrs[k].Some? ==> ptrs[k].value + SectionHeaderSize <= |buf|
    ensures var aux := U16At(buf, e + EntryAuxAt);
            var target := U32At(buf, e + EntryMethodAt);
            var c := EntryCode(buf, ptrs, numBytes, e);
            && (aux == 0 ==>
                 && (c == 1037 <==> target >= |ptrs|)
                 && (target < |ptrs| ==> (c == 1038 <==> ptrs[target].None?))
                 && (target < |ptrs| && ptrs[target].Some? ==>
                      (c == 1039 <==> TypeAt(buf, ptrs[target].value) != Function))
                 && (c == 0 <==> target < |ptrs| && ptrs[target].Some? && TypeAt(buf, ptrs[target].value) == Function))
            && (aux != 0 ==>
                 && (c == 1035 <==> aux >= numBytes / 8)
                 && (aux < numBytes / 8 ==> (c == 1036 <==> aux != target))
                 && (c == 0 <==> aux < numBytes / 8 && aux == target))
  {
  }

  /** The first rejected entry among entries `i..hi` (inclusive). */
  function FirstBadEntry(buf: seq<Byte>, ptrs: seq<Option<nat>>, numBytes: nat, mb: nat, i: nat, hi: nat): (r: Option<nat>)
    requires i <= hi + 1 && mb + IfaceEntrySize * (hi + 1) <= |buf|
    requires forall k :: 0 <= k < |ptrs| && ptrs[k].Some? ==> ptrs[k].value + SectionHeaderSize <= |buf|
    ensures r.None? <==> forall j :: i <= j <= hi ==> EntryCode(buf, ptrs, numBytes, mb + IfaceEntrySize * j) == 0
    ensures r.Some? ==>
              && i <= r.value <= hi
              && EntryCode(buf, ptrs, numBytes, mb + IfaceEntrySize * r.value) != 0
              && forall j :: i <= j < r.value ==> EntryCode(buf, ptrs, numBytes, mb + IfaceEntrySize * j) == 0
    decreases hi + 1 - i
  {
    if i == hi + 1 then None
    else if EntryCode(buf, ptrs, numBytes, mb + IfaceEntrySize * i) != 0 then Some(i)
    else FirstBadEntry(buf, ptrs, numBytes, mb, i + 1, hi)
  }

  /** Every byte of `buf[p..endp]` is zero. */
  function AllZero(buf: seq<Byte>, p: nat, endp: nat): (b: bool)
    requires endp <= |buf|
    ensures b <==> forall k :: p <= k < endp ==> buf[k] == 0
    decreases endp - p
  {
    p >= endp || (buf[p] == 0 && AllZero(buf, p + 1, endp))
  }

  /** The checks after the first hash loop, given its least slot `lo` and
      greatest slot `hi`. */
  function RangeCode(buf: seq<Byte>, ptrs: seq<Option<nat>>, f: VtFields, mb: nat, endp: nat, lo: nat, hi: nat): (c: nat)
    requires lo <= hi && mb + IfaceEntrySize * (hi + 1) <= endp <= |buf|
    requires forall k :: 0 <= k < |ptrs| && ptrs[k].Some? ==> ptrs[k].value + SectionHeaderSize <= |buf|
    ensures c == 0 || 1034 <= c <= 1040
    ensures c == 0 <==>
              && lo * IfaceEntrySize == f.entries * 2
              && (forall j :: lo <= j <= hi ==> EntryCode(buf, ptrs, f.numBytes, mb + IfaceEntrySize * j) == 0)
              && (forall k :: mb + IfaceEntrySize * (hi + 1) <= k < endp ==> buf[k] == 0)
    ensures c == 1034 <==> lo * IfaceEntrySize != f.entries * 2
    ensures 1035 <= c <= 1039 <==>
              lo * IfaceEntrySize == f.entries * 2 && FirstBadEntry(buf, ptrs, f.numBytes, mb, lo, hi).Some?
    ensures 1035 <= c <= 1039 ==>
              c == EntryCode(buf, ptrs, f.numBytes, mb + IfaceEntrySize * FirstBadEntry(buf, ptrs, f.numBytes, mb, lo, hi).value)
    ensures c == 1040 <==>
              && lo * IfaceEntrySize == f.entries * 2
              && (forall j :: lo <= j <= hi ==> EntryCode(buf, ptrs, f.numBytes, mb + IfaceEntrySize * j) == 0)
              && !AllZero(buf, mb + IfaceEntrySize * (hi + 1), endp)
  {
    if lo * IfaceEntrySize != f.entries * 2 then 1034
    else
      var bad := FirstBadEntry(buf, ptrs, f.numBytes, mb, lo, hi);
      if bad.Some? then EntryCode(buf, ptrs, f.numBytes, mb + IfaceEntrySize * bad.value)
      else if !AllZero(buf, mb + IfaceEntrySize * (hi + 1), endp) then 1040
      else 0
  }

  /** The hash-table part of the vtable checks (1033, 1034, 1035-1039 and
      1040) for a table whose shape was accepted. */
  function TableCode(buf: seq<Byte>, ptrs: seq<Option<nat>>, f: VtFields, mb: nat, endp: nat): (c: nat)
    requires 4 <= f.entries && mb + 2 * f.entries <= endp <= |buf|
    requires forall k :: 0 <= k < |ptrs| && ptrs[k].Some? ==> ptrs[k].value + SectionHeaderSize <= |buf|
    ensures c == 0 || 1033 <= c <= 1040
  {
    match ScanHash(buf, mb, endp, 0, f.entries, 0xfff_ffff, 0)
    case None => 1033
    case Some((lo, hi)) =>
      assert lo <= hi && mb + IfaceEntrySize * (hi + 1) <= endp by {
        assert lo <= Slot(buf, mb, 0) <= hi;
      }
      RangeCode(buf, ptrs, f, mb, endp, lo, hi)
  }

  /** The vtable branch for the section at `s`, given the pointer-literal
      table `ptrs`: the code of the first failing check, or 0. Every error of
      this branch is reported at the section's own offset. */
  function VTableCode(host: Host, buf: seq<Byte>, ptrs: seq<Option<nat>>, s: nat): (c: nat)
    requires SectionFits(buf, s)
    requires forall k :: 0 <= k < |ptrs| && ptrs[k].Some? ==> ptrs[k].value + SectionHeaderSize <= |buf|
    ensures c != 0 ==> 1023 <= c <= 1040
    ensures !ShapeOk(host, buf, s) ==> c == ShapeCode(host, buf, s)
    ensures ShapeOk(host, buf, s) ==>
              ReadVt(buf, s + SectionHeaderSize).entries >= 4 &&
              c == TableCode(buf, ptrs, ReadVt(buf, s + SectionHeaderSize), MultBase(host, s), s + SizeAt(buf, s))
  {
    var c := ShapeCode(host, buf, s);
    if c != 0 then c
    else
      ShapeOkEntries(host, buf, s);
      TableCode(buf, ptrs, ReadVt(buf, s + SectionHeaderSize), MultBase(host, s), s + SizeAt(buf, s))
  }

  /** Reference definitions: the least and the greatest of the first `n`
      hash slots. */
  function MinSlot(buf: seq<Byte>, mb: nat, n: nat): (v: nat)
    requires 1 <= n && mb + 2 * n <= |buf|
    ensures forall j :: 0 <= j < n ==> v <= Slot(buf, mb, j)
    ensures exists j :: 0 <= j < n && Slot(buf, mb, j) == v
  {
    if n == 1 then Slot(buf, mb, 0)
    else
      var m := MinSlot(buf, mb, n - 1);
      if Slot(buf, mb, n - 1) < m then Slot(buf, mb, n - 1) else m
  }

  function MaxSlot(buf: seq<Byte>, mb: nat, n: nat): (v: nat)
    requires 1 <= n && mb + 2 * n <= |buf|
    ensures forall j :: 0 <= j < n ==> Slot(buf, mb, j) <= v
    ensures exists j :: 0 <= j < n && Slot(buf, mb, j) == v
  {
    if n == 1 then Slot(buf, mb, 0)
    else
      var m := MaxSlot(buf, mb, n - 1);
      if Slot(buf, mb, n - 1) > m then Slot(buf, mb, n - 1) else m
  }

  /** Every hash slot's entry ends by `endp`. */
  ghost predicate SlotsFit(buf: seq<Byte>, mb: nat, n: nat, endp: nat)
    requires mb + 2 * n <= |buf|
  {
    forall j :: 0 <= j < n ==> mb + IfaceEntrySize * (Slot(buf, mb, j) + 1) <= endp
  }

  /** The first hash loop fails exactly when some slot's entry overruns the
      section, and otherwise finds the least and the greatest slot. */
  lemma ScanFindsExtremes(buf: seq<Byte>, mb: nat, endp: nat, n: nat)
    requires 1 <= n && mb + 2 * n <= endp <= |buf|
    ensures ScanHash(buf, mb, endp, 0, n, 0xfff_ffff, 0).None? <==> !SlotsFit(buf, mb, n, endp)
    ensures SlotsFit(buf, mb, n, endp) ==>
              ScanHash(buf, mb, endp, 0, n, 0xfff_ffff, 0) == Some((MinSlot(buf, mb, n), MaxSlot(buf, mb, n)))
  {
    var r := ScanHash(buf, mb, endp, 0, n, 0xfff_ffff, 0);
    if r.Some? {
      var lo := MinSlot(buf, mb, n);
      var hi := MaxSlot(buf, mb, n);
      var jl :| 0 <= jl < n && Slot(buf, mb, jl) == lo;
      var jh :| 0 <= jh < n && Slot(buf, mb, jh) == hi;
      var (a, b) := r.value;
      assert a <= Slot(buf, mb, jl);
      assert Slot(buf, mb, jh) <= b;
      assert a <= Slot(buf, mb, 0) < 0xfff_ffff;
      var ja :| 0 <= ja < n && Slot(buf, mb, ja) == a;
      assert b != 0 ==> exists jb :: 0 <= jb < n && Slot(buf, mb, jb) == b;
      assert a == lo && b == hi;
    }
  }

  /** Every entry from `lo` to `hi` is accepted. */
  ghost predicate EntriesOk(buf: seq<Byte>, ptrs: seq<Option<nat>>, numBytes: nat, mb: nat, lo: nat, hi: nat)
    requires mb + IfaceEntrySize * (hi + 1) <= |buf|
    requires forall k :: 0 <= k < |ptrs| && ptrs[k].Some? ==> ptrs[k].value + SectionHeaderSize <= |buf|
  {
    forall j :: lo <= j <= hi ==> EntryCode(buf, ptrs, numBytes, mb + IfaceEntrySize * j) == 0
  }

  /** Reference definition of the hash-table part of an accepted vtable:
      every hash slot's entry lies in the section, the least slot sits right
      after the hash array, every entry from the least to the greatest slot
      is accepted, and everything after the greatest slot's entry is zero. */
  ghost predicate TableValid(buf: seq<Byte>, ptrs: seq<Option<nat>>, f: VtFields, mb: nat, endp: nat)
    requires 1 <= f.entries && mb + 2 * f.entries <= endp <= |buf|
    requires forall k :: 0 <= k < |ptrs| && ptrs[k].Some? ==> ptrs[k].value + SectionHeaderSize <= |buf|
  {
    var lo := MinSlot(buf, mb, f.entries);
    var hi := MaxSlot(buf, mb, f.entries);
    && SlotsFit(buf, mb, f.entries, endp)
    && mb + IfaceEntrySize * (hi + 1) <= endp
    && lo * IfaceEntrySize == f.entries * 2
    && EntriesOk(buf, ptrs, f.numBytes, mb, lo, hi)
    && (forall k :: mb + IfaceEntrySize * (hi + 1) <= k < endp ==> buf[k] == 0)
  }

  /** When every slot fits, the least slot is at most the greatest and the
      greatest slot's entry ends inside the section. */
  lemma ExtremesFit(buf: seq<Byte>, mb: nat, n: nat, endp: nat)
    requires 1 <= n && mb + 2 * n <= endp <= |buf| && SlotsFit(buf, mb, n, endp)
    ensures MinSlot(buf, mb, n) <= MaxSlot(buf, mb, n)
    ensures mb + IfaceEntrySize * (MaxSlot(buf, mb, n) + 1) <= endp
  {
    var jh :| 0 <= jh < n && Slot(buf, mb, jh) == MaxSlot(buf, mb, n);
    assert MinSlot(buf, mb, n) <= Slot(buf, mb, 0) <= MaxSlot(buf, mb, n);
  }

  /** A table with an overrunning slot fails with 1033 and is not valid. */
  lemma UnfitTable(buf: seq<Byte>, ptrs: seq<Option<nat>>, f: VtFields, mb: nat, endp: nat)
    requires 4 <= f.entries && mb + 2 * f.entries <= endp <= |buf|
    requires forall k :: 0 <= k < |ptrs| && ptrs[k].Some? ==> ptrs[k].value + SectionHeaderSize <= |buf|
    requires !SlotsFit(buf, mb, f.entries, endp)
    ensures TableCode(buf, ptrs, f, mb, endp) == 1033 && !TableValid(buf, ptrs, f, mb, endp)
  {
    ScanFindsExtremes(buf, mb, endp, f.entries);
  }

  /** A table whose slots fit reaches the range checks with its least and
      greatest slot. */
  lemma FitTableCode(buf: seq<Byte>, ptrs: seq<Option<nat>>, f: VtFields, mb: nat, endp: nat)
    requires 4 <= f.entries && mb + 2 * f.entries <= endp <= |buf|
    requires forall k :: 0 <= k < |ptrs| && ptrs[k].Some? ==> ptrs[k].value + SectionHeaderSize <= |buf|
    requires SlotsFit(buf, mb, f.entries, endp)
    requires MinSlot(buf, mb, f.entries) <= MaxSlot(buf, mb, f.entries)
    requires mb + IfaceEntrySize * (MaxSlot(buf, mb, f.entries) + 1) <= endp
    ensures TableCode(buf, ptrs, f, mb, endp) ==
            RangeCode(buf, ptrs, f, mb, endp, MinSlot(buf, mb, f.entries), MaxSlot(buf, mb, f.entries))
  {
    ScanFindsExtremes(buf, mb, endp, f.entries);
  }

  /** For a table whose slots fit, the reference definition is the range
      conditions on its least and greatest slot. */
  lemma FitTableValid(buf: seq<Byte>, ptrs: seq<Option<nat>>, f: VtFields, mb: nat, endp: nat)
    requires 4 <= f.entries && mb + 2 * f.entries <= endp <= |buf|
    requires forall k :: 0 <= k < |ptrs| && ptrs[k].Some? ==> ptrs[k].value + SectionHeaderSize <= |buf|
    requires SlotsFit(buf, mb, f.entries, endp)
    requires MinSlot(buf, mb, f.entries) <= MaxSlot(buf, mb, f.entries)
    requires mb + IfaceEntrySize * (MaxSlot(buf, mb, f.entries) + 1) <= endp
    ensures TableValid(buf, ptrs, f, mb, endp) <==>
            RangeCode(buf, ptrs, f, mb, endp, MinSlot(buf, mb, f.entries), MaxSlot(buf, mb, f.entries)) == 0
  {
  }

  /** The ordered hash-table checks pass exactly when the reference
      definition holds. */
  lemma TableCodeZeroIff(buf: seq<Byte>, ptrs: seq<Option<nat>>, f: VtFields, mb: nat, endp: nat)
    requires 4 <= f.entries && mb + 2 * f.entries <= endp <= |buf|
    requires forall k :: 0 <= k < |ptrs| && ptrs[k].Some? ==> ptrs[k].value + SectionHeaderSize <= |buf|
    ensures TableCode(buf, ptrs, f, mb, endp) == 0 <==> TableValid(buf, ptrs, f, mb, endp)
  {
    if SlotsFit(buf, mb, f.entries, endp) {
      ExtremesFit(buf, mb, f.entries, endp);
      FitTableCode(buf, ptrs, f, mb, endp);
      FitTableValid(buf, ptrs, f, mb, endp);
    } else {
      UnfitTable(buf, ptrs, f, mb, endp);
    }
  }

  /** The check order of the hash-table part: 1033 exactly when some slot's
      entry overruns the section; otherwise, on the least and greatest slot,
      1034 for a least slot not right after the hash array, then the first
      rejected entry's code, then 1040 for a non-zero byte after the
      greatest slot's entry. */
  lemma TableCheckOrder(buf: seq<Byte>, ptrs: seq<Option<nat>>, f: VtFields, mb: nat, endp: nat)
    requires 4 <= f.entries && mb + 2 * f.entries <= endp <= |buf|
    requires forall k :: 0 <= k < |ptrs| && ptrs[k].Some? ==> ptrs[k].value + SectionHeaderSize <= |buf|
    ensures TableCode(buf, ptrs, f, mb, endp) == 1033 <==> !SlotsFit(buf, mb, f.entries, endp)
    ensures SlotsFit(buf, mb, f.entries, endp) ==>
              && MinSlot(buf, mb, f.entries) <= MaxSlot(buf, mb, f.entries)
              && mb + IfaceEntrySize * (MaxSlot(buf, mb, f.entries) + 1) <= endp
    ensures SlotsFit(buf, mb, f.entries, endp) ==>
              var lo := MinSlot(buf, mb, f.entries);
              var hi := MaxSlot(buf, mb, f.entries);
              var c := TableCode(buf, ptrs, f, mb, endp);
              && (c == 1034 <==> lo * IfaceEntrySize != f.entries * 2)
              && (1035 <= c <= 1039 <==>
                   lo * IfaceEntrySize == f.entries * 2 && FirstBadEntry(buf, ptrs, f.numBytes, mb, lo, hi).Some?)
              && (c == 1040 <==>
                   && lo * IfaceEntrySize == f.entries * 2
                   && EntriesOk(buf, ptrs, f.numBytes, mb, lo, hi)
                   && !AllZero(buf, mb + IfaceEntrySize * (hi + 1), endp))
  {
    if SlotsFit(buf, mb, f.entries, endp) {
      ExtremesFit(buf, mb, f.entries, endp);
      FitTableCode(buf, ptrs, f, mb, endp);
    } else {
      UnfitTable(buf, ptrs, f, mb, endp);
    }
  }
}
