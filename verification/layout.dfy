/** The binary image format: section kinds, struct layouts, the host's
    constants and tag helpers, and the error record of a failed load.

    The declarations of pxt.h are not part of this model. The struct layouts
    and section-type codes below are the assumed ones; every constant whose
    value the core does not fix itself, and every tagged-value helper, is a
    field of `Host` so that no property depends on a guessed value. */
module Layout {
  import opened Words

  // Section types (`SectionType`).
  const InfoHeader: nat := 0x01
  const OpCodeMap: nat := 0x02
  const NumberLiterals: nat := 0x03
  const ConfigData: nat := 0x04
  const IfaceMemberNames: nat := 0x05
  const Function: nat := 0x20
  const Literal: nat := 0x21
  const VTable: nat := 0x22

  /** Sections of this type and above are values referenceable from code. */
  const PointerLiteralThreshold: nat := 0x20

  // `VMImageSection`: type byte at 0, size (including this header) at 4,
  // payload from byte 8.
  const SectionHeaderSize: nat := 8
  const SectionTypeAt: nat := 0
  const SectionSizeAt: nat := 4

  // `VMImageHeader`, relative to the section payload.
  const HeaderSize: nat := 32
  const Magic0At: nat := 0
  const Magic1At: nat := 4
  const AllocGlobalsAt: nat := 24
  const NonPointerGlobalsAt: nat := 28

  // `VTable`, relative to the section payload.
  const NumBytesAt: nat := 0
  const ObjectTypeAt: nat := 2
  const VtMagicAt: nat := 3
  const IfaceHashEntriesAt: nat := 4
  const ReservedAt: nat := 10
  const IfaceHashMultAt: nat := 12
  const MethodsAt: nat := 16
  const MethodSlotSize: nat := 8

  // `IfaceEntry`: eight bytes, `aux` at 2 and `method` at 4.
  const IfaceEntrySize: nat := 8
  const EntryAuxAt: nat := 2
  const EntryMethodAt: nat := 4

  /** The operations whose handlers the interpreter core defines; every other
      entry of the static opcode table is a native operation. */
  datatype OpKind =
    | StLoc | LdLoc | StCap | LdCap | StGlb | LdGlb
    | LdLit | LdNumber
    | Jmp | JmpZ | JmpNz
    | CallProc | CallInd | Ret
    | Pop | PopMany | PushMany | Push
    | LdSpecial | LdInt | LdIntNeg
    | Native(id: nat)

  /** One entry of the compiled-in opcode table (`OpcodeDesc`). */
  datatype OpcodeDesc = OpcodeDesc(name: seq<Byte>, kind: OpKind)

  /** What the host build fixes: constants and the tagged-value helpers. */
  datatype Host = Host(
    vmMagic0: U32,
    vmMagic1: U32,
    vtableMagic: nat,
    vmOpcodeBaseMask: nat,   // VM_OPCODE_BASE_MASK
    opcodeBaseSize: nat,     // OPCODE_BASE_SIZE; OPCODE_BASE_MASK is 2^size - 1
    numCppMethods: nat,      // VM_NUM_CPP_METHODS
    valTypeObject: nat,      // ValType::Object
    valTypeFunction: nat,    // ValType::Function
    staticOpcodes: seq<OpcodeDesc>,
    isDouble: Word -> bool,
    isInt: Word -> bool,
    isNaN: Word -> bool,     // isnan(doubleVal(v))
    isPointer: Word -> bool,
    toBoolQuick: Word -> bool,
    tagNumber: int -> Word,  // TAG_NUMBER
    tagUndefined: Word,      // TAG_UNDEFINED
    vtableType: Word -> nat,     // getVTable(v)->objectType
    vtableReserved: Word -> nat  // getVTable(v)->reserved
  ) {
    /** OPCODE_BASE_MASK */
    function OpcodeBaseMask(): nat {
      Pow2(opcodeBaseSize) - 1
    }
  }

  /** The error recorded in a failed image: a code and a byte offset. */
  datatype VmError = VmError(code: nat, offset: nat)

  /** A loader pass produces a value, stops with an error, or reads image
      memory past the end of the image, starting at byte offset `at`; what
      lies there is outside the buffer and outside this model. */
  datatype Result<+T> = Ok(value: T) | Err(err: VmError) | ReadsPast(at: nat)

  /** `setVMImgError`: the offset is the distance from the image start, or 0
      when no position is given. */
  function SetVMImgError(code: nat, pos: Option<nat>): (e: VmError)
    ensures e.code == code
    ensures pos.None? ==> e.offset == 0
    ensures pos.Some? ==> e.offset == pos.value
  {
    VmError(code, if pos.Some? then pos.value else 0)
  }

  function TypeAt(buf: seq<Byte>, s: nat): (t: Byte)
    requires s + SectionHeaderSize <= |buf|
  {
    buf[s + SectionTypeAt]
  }

  function SizeAt(buf: seq<Byte>, s: nat): (n: U32)
    requires s + SectionHeaderSize <= |buf|
  {
    U32At(buf, s + SectionSizeAt)
  }
}
