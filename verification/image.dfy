/** Pass 3 of the loader (`validateFunctions`) and the entry point
    `loadVMImage` that runs the passes in order. */
module Image {
  import opened Words
  import opened Layout
  import opened Header
  import opened Sections
  import opened Loader
  import opened VTables

  /** `validateFunction`, whose body is not part of this model: for the
      function section at a byte offset and the debug flag, the error it
      records, if any. */
  type FunctionCheck = (nat, bool) -> Option<VmError>

  /** Every pointer literal names a section header inside the buffer. */
  predicate PtrsFit(buf: seq<Byte>, ptrs: seq<Option<nat>>) {
    forall k :: 0 <= k < |ptrs| && ptrs[k].Some? ==> ptrs[k].value + SectionHeaderSize <= |buf|
  }

  /** What the validation pass accepts for one section: a vtable passes
      every vtable check, a function passes its (non-debug) validation, and
      other sections are not inspected. */
  predicate SectionPasses(host: Host, buf: seq<Byte>, ptrs: seq<Option<nat>>, vf: FunctionCheck, s: nat)
    requires SectionFits(buf, s) && PtrsFit(buf, ptrs)
  {
    && (TypeAt(buf, s) == VTable ==> VTableCode(host, buf, ptrs, s) == 0)
    && (TypeAt(buf, s) == Function ==> vf(s, false).None?)
  }

  /** The error recorded for a section that does not pass: the vtable check's
      code at the section, or for a function the debug rerun's error when it
      records one (it overwrites the first) and the first run's otherwise. */
  function SectionError(host: Host, buf: seq<Byte>, ptrs: seq<Option<nat>>, vf: FunctionCheck, s: nat): (e: VmError)
    requires SectionFits(buf, s) && PtrsFit(buf, ptrs)
    requires !SectionPasses(host, buf, ptrs, vf, s)
    ensures TypeAt(buf, s) == VTable ==> e.offset == s && 1023 <= e.code <= 1040
    ensures TypeAt(buf, s) == Function ==>
              && vf(s, false).Some?
              && (Some(e) == vf(s, true) || (vf(s, true).None? && Some(e) == vf(s, false)))
  {
    if TypeAt(buf, s) == VTable then VmError(VTableCode(host, buf, ptrs, s), s)
    else
      match vf(s, true)
      case Some(d) => d
      case None => vf(s, false).value
  }

  /** The first section from index `k` on that the validation pass rejects. */
  function FirstBadSection(host: Host, buf: seq<Byte>, secs: seq<nat>, ptrs: seq<Option<nat>>,
                           vf: FunctionCheck, k: nat): (r: Option<nat>)
    requires k <= |secs| && AllFit(buf, secs) && PtrsFit(buf, ptrs)
    ensures r.None? <==> forall i :: k <= i < |secs| ==> SectionPasses(host, buf, ptrs, vf, secs[i])
    ensures r.Some? ==>
              && k <= r.value < |secs|
              && !SectionPasses(host, buf, ptrs, vf, secs[r.value])
              && forall i :: k <= i < r.value ==> SectionPasses(host, buf, ptrs, vf, secs[i])
    decreases |secs| - k
  {
    if k == |secs| then None
    else if !SectionPasses(host, buf, ptrs, vf, secs[k]) then Some(k)
    else FirstBadSection(host, buf, secs, ptrs, vf, k + 1)
  }

  /** `validateFunctions`: the sections in order, stopping at the first one
      rejected. */
  function ValidateFunctions(host: Host, buf: seq<Byte>, secs: seq<nat>, ptrs: seq<Option<nat>>,
                             vf: FunctionCheck): (r: Option<VmError>)
    requires AllFit(buf, secs) && PtrsFit(buf, ptrs)
  {
    match FirstBadSection(host, buf, secs, ptrs, vf, 0)
    case None => None
    case Some(i) => Some(SectionError(host, buf, ptrs, vf, secs[i]))
  }

  /** The validation pass records nothing exactly when every section passes;
      otherwise it records the error of the first section that does not. */
  lemma ValidateFunctionsVerdict(host: Host, buf: seq<Byte>, secs: seq<nat>, ptrs: seq<Option<nat>>,
                                 vf: FunctionCheck)
    requires AllFit(buf, secs) && PtrsFit(buf, ptrs)
    ensures var r := ValidateFunctions(host, buf, secs, ptrs, vf);
            && (r.None? <==> forall i :: 0 <= i < |secs| ==> SectionPasses(host, buf, ptrs, vf, secs[i]))
            && (r.Some? ==> exists i ::
                  && 0 <= i < |secs|
                  && !SectionPasses(host, buf, ptrs, vf, secs[i])
                  && (forall j :: 0 <= j < i ==> SectionPasses(host, buf, ptrs, vf, secs[j]))
                  && r.value == SectionError(host, buf, ptrs, vf, secs[i]))
  {
  }

  /** A walk that succeeded lists sections that fit in the buffer. */
  lemma WellFormedFits(buf: seq<Byte>, secs: seq<nat>)
    requires WellFormed(buf, secs)
    ensures AllFit(buf, secs)
  {
  }

  /** The pointer literals of a loaded index name sections of the walk. */
  lemma LoadedPtrsFit(host: Host, buf: seq<Byte>, secs: seq<nat>)
    requires AllFit(buf, secs) && LoadSections(host, buf, secs).Ok?
    ensures PtrsFit(buf, LoadSections(host, buf, secs).value.pointerLiterals)
  {
    var ptrs := LoadSections(host, buf, secs).value.pointerLiterals;
    forall k | 0 <= k < |ptrs| && ptrs[k].Some?
      ensures ptrs[k].value + SectionHeaderSize <= |buf|
    {
      assert SectionFits(buf, secs[k]);
    }
  }

  /** What `loadVMImage` produces: a loaded index, an image carrying an error,
      no result at all when the count pass meets a zero-size section and
      never advances, or a read of memory past the end of the image (at byte
      offset `at`) whose outcome this model does not know. */
  datatype Outcome = Loaded(index: Index) | Failed(err: VmError) | Hangs(at: nat) | ReadsPastImage(at: nat)

  /** `loadVMImage` on the `length` bytes of `buf`. `dataAligned` says whether
      the data pointer is 8-byte aligned; `vf` is the per-function validator.
      The passes run in order and the first error ends the load. */
  function LoadVMImage(host: Host, dataAligned: bool, buf: seq<Byte>, vf: FunctionCheck): (r: Outcome)
    requires |buf| < 0x1_0000_0000
    ensures !dataAligned ==> r == Failed(VmError(1000, 0))
    ensures dataAligned && !Aligned(|buf|) ==> r == Failed(VmError(1001, 0))
    ensures r.Hangs? ==> Aligned(|buf|) && CountSections(buf) == Loops(r.at)
    ensures r.ReadsPastImage? ==> r.at == |buf| && Aligned(|buf|) && CountSections(buf).Sections?
    ensures r.Loaded? ==>
              && Aligned(|buf|)
              && CountSections(buf) == Sections(r.index.sections)
              && WellFormed(buf, r.index.sections)
              && LoadSections(host, buf, r.index.sections) == Ok(r.index)
              && PtrsFit(buf, r.index.pointerLiterals)
              && |r.index.opcodes| > host.vmOpcodeBaseMask
  {
    if !dataAligned then Failed(SetVMImgError(1000, None))
    else if !Aligned(|buf|) then Failed(SetVMImgError(1001, None))
    else
      match CountSections(buf)
      case Loops(at) => Hangs(at)
      case Bad(e) => Failed(e)
      case Sections(secs) =>
        CountSectionsWellFormed(buf);
        WellFormedFits(buf, secs);
        match LoadSections(host, buf, secs)
        case Err(e) => Failed(e)
        case ReadsPast(at) => ReadsPastImage(at)
        case Ok(idx) =>
          LoadedPtrsFit(host, buf, secs);
          match ValidateFunctions(host, buf, secs, idx.pointerLiterals, vf)
          case Some(e) => Failed(e)
          case None => Loaded(idx)
  }

  /** Each pass's failure is the load's failure: once the data pointer and
      the length are aligned, a failed walk, a failed section load and a
      failed validation each end the load with that pass's own error, and a
      read past the image in the section load ends it there. */
  lemma LoadVMImagePasses(host: Host, buf: seq<Byte>, vf: FunctionCheck)
    requires |buf| < 0x1_0000_0000 && Aligned(|buf|)
    ensures CountSections(buf).Loops? ==> LoadVMImage(host, true, buf, vf) == Hangs(CountSections(buf).at)
    ensures CountSections(buf).Bad? ==> LoadVMImage(host, true, buf, vf) == Failed(CountSections(buf).err)
    ensures CountSections(buf).Sections? ==> AllFit(buf, CountSections(buf).offsets)
    ensures CountSections(buf).Sections? ==>
              var secs := CountSections(buf).offsets;
              var l := LoadSections(host, buf, secs);
              && (l.Err? ==> LoadVMImage(host, true, buf, vf) == Failed(l.err))
              && (l.ReadsPast? ==> LoadVMImage(host, true, buf, vf) == ReadsPastImage(l.at))
              && (l.Ok? ==> PtrsFit(buf, l.value.pointerLiterals))
    ensures CountSections(buf).Sections? ==>
              var secs := CountSections(buf).offsets;
              var l := LoadSections(host, buf, secs);
              l.Ok? ==>
                var v := ValidateFunctions(host, buf, secs, l.value.pointerLiterals, vf);
                && (v.Some? ==> LoadVMImage(host, true, buf, vf) == Failed(v.value))
                && (v.None? ==> LoadVMImage(host, true, buf, vf) == Loaded(l.value))
  {
    if CountSections(buf).Sections? {
      var secs := CountSections(buf).offsets;
      CountSectionsWellFormed(buf);
      WellFormedFits(buf, secs);
      if LoadSections(host, buf, secs).Ok? {
        LoadedPtrsFit(host, buf, secs);
      }
    }
  }

  /** A 32-byte image holding one info-header section of size 32, with the
      host's magic numbers in place. */
  function InfoOnlyImage(host: Host): (buf: seq<Byte>)
    ensures |buf| == 32
  {
    [InfoHeader as Byte, 0, 0, 0, 32, 0, 0, 0] + LE32(host.vmMagic0) + LE32(host.vmMagic1) + seq(16, _ => 0)
  }

  /** The size test of the info-header branch as written accepts a header
      section of 32 bytes; the walk accepts the image; the magic numbers
      match; and the load then reads the global counts from past the end of
      the image. The corrected size test rejects that section with 1008. */
  lemma HeaderReadPastImageAsWritten(host: Host, vf: FunctionCheck)
    ensures var buf := InfoOnlyImage(host);
            && CountSections(buf) == Sections([0])
            && SizeAt(buf, 0) == 32 && TypeAt(buf, 0) == InfoHeader
            && LoadInfoHeader(host, buf, 0, false) == ReadsPast(32)
            && LoadInfoHeaderFixed(host, buf, 0, false) == Err(VmError(1008, 0))
            && LoadVMImage(host, true, buf, vf) == ReadsPastImage(32)
  {
    var buf := InfoOnlyImage(host);
    assert U16At(buf, 4) == 32 && U16At(buf, 6) == 0;
    assert SizeAt(buf, 0) == 32;
    assert CountFrom(buf, 32) == Sections([]);
    assert CountSections(buf) == Sections([0]);
    U32AtLE32(buf, 8, host.vmMagic0);
    U32AtLE32(buf, 12, host.vmMagic1);
    assert LoadInfoHeader(host, buf, 0, false) == ReadsPast(32);
    assert LoadSection(host, buf, 0, EmptyAcc) == ReadsPast(32);
    assert LoadFrom(host, buf, [0], 0, EmptyAcc) == ReadsPast(32);
  }

  /** A loaded image passed every pass: the walk, the required tables, and the
      validation of every vtable and function section. */
  lemma LoadedIsValid(host: Host, dataAligned: bool, buf: seq<Byte>, vf: FunctionCheck)
    requires |buf| < 0x1_0000_0000
    requires LoadVMImage(host, dataAligned, buf, vf).Loaded?
    ensures var idx := LoadVMImage(host, dataAligned, buf, vf).index;
            && dataAligned
            && AllFit(buf, idx.sections)
            && PtrsFit(buf, idx.pointerLiterals)
            && forall i :: 0 <= i < |idx.sections| ==>
                 SectionPasses(host, buf, idx.pointerLiterals, vf, idx.sections[i])
  {
    var idx := LoadVMImage(host, dataAligned, buf, vf).index;
    WellFormedFits(buf, idx.sections);
    ValidateFunctionsVerdict(host, buf, idx.sections, idx.pointerLiterals, vf);
  }

  /** An image that walks, loads and validates is loaded: the passes are the
      only reasons for a failure. */
  lemma ValidIsLoaded(host: Host, buf: seq<Byte>, vf: FunctionCheck)
    requires |buf| < 0x1_0000_0000 && Aligned(|buf|)
    requires CountSections(buf).Sections?
    requires var secs := CountSections(buf).offsets;
             WellFormed(buf, secs) && LoadSections(host, buf, secs).Ok? &&
             PtrsFit(buf, LoadSections(host, buf, secs).value.pointerLiterals) &&
             forall i :: 0 <= i < |secs| ==>
               SectionPasses(host, buf, LoadSections(host, buf, secs).value.pointerLiterals, vf, secs[i])
    ensures LoadVMImage(host, true, buf, vf) == Loaded(LoadSections(host, buf, CountSections(buf).offsets).value)
  {
    var secs := CountSections(buf).offsets;
    WellFormedFits(buf, secs);
    ValidateFunctionsVerdict(host, buf, secs, LoadSections(host, buf, secs).value.pointerLiterals, vf);
  }

  /** An error of the validation pass is a vtable code, or comes from the
      function validator run on a function section of the list. */
  lemma ValidationErrorSource(host: Host, buf: seq<Byte>, secs: seq<nat>, ptrs: seq<Option<nat>>,
                              vf: FunctionCheck)
    requires AllFit(buf, secs) && PtrsFit(buf, ptrs)
    requires ValidateFunctions(host, buf, secs, ptrs, vf).Some?
    ensures var e := ValidateFunctions(host, buf, secs, ptrs, vf).value;
            || 1023 <= e.code <= 1040
            || exists s :: s in secs && SectionFits(buf, s) && TypeAt(buf, s) == Function &&
                 (Some(e) == vf(s, true) || Some(e) == vf(s, false))
  {
    var i := FirstBadSection(host, buf, secs, ptrs, vf, 0).value;
    var s := secs[i];
    assert SectionFits(buf, s);
    if TypeAt(buf, s) != VTable {
      assert s in secs;
    }
  }

  /** A failed load carries a loader code (1000 to 1040), or else an error
      recorded by the function validator for a function section of the
      walk, from the first or the debug run. */
  lemma FailedCarriesCode(host: Host, dataAligned: bool, buf: seq<Byte>, vf: FunctionCheck)
    requires |buf| < 0x1_0000_0000
    requires LoadVMImage(host, dataAligned, buf, vf).Failed?
    ensures var e := LoadVMImage(host, dataAligned, buf, vf).err;
            || 1000 <= e.code <= 1040
            || exists s :: s in CountSections(buf).offsets && SectionFits(buf, s) && TypeAt(buf, s) == Function &&
                 (Some(e) == vf(s, true) || Some(e) == vf(s, false))
  {
    if dataAligned && Aligned(|buf|) && CountSections(buf).Sections? {
      var secs := CountSections(buf).offsets;
      CountSectionsWellFormed(buf);
      WellFormedFits(buf, secs);
      if LoadSections(host, buf, secs).Ok? {
        LoadedPtrsFit(host, buf, secs);
        ValidationErrorSource(host, buf, secs, LoadSections(host, buf, secs).value.pointerLiterals, vf);
      }
    }
  }
}
