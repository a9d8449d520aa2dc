/** The instruction encoding read by `exec_loop`: 16-bit code words in three
    forms, told apart by their top bits.

    `p` is `2^OPCODE_BASE_SIZE`, the scale at which a word splits into its
    opcode-table index (below) and its argument bits (above), and `q` is
    `2^(16 - OPCODE_BASE_SIZE)`; every property below holds for any such
    split of a 16-bit word. */
module Decode {
  import opened Words

  type U16 = w: int | 0 <= w < 0x1_0000

  /** A split of a 16-bit word at a bit position between 1 and 15. */
  predicate Scale(p: nat, q: nat) {
    p >= 2 && q >= 2 && q % 2 == 0 && p * q == 0x1_0000
  }

  /** The split of the host build: `p = 2^b`, `q = 2^(16 - b)`. */
  lemma HostScale(b: nat)
    requires 1 <= b <= 15
    ensures Scale(Pow2(b), Pow2(16 - b))
  {
    var p, q := Pow2(b), Pow2(16 - b);
    assert p >= 2 by {
      Pow2Monotone(1, b);
      assert Pow2(1) == 2;
    }
    assert q >= 2 && q % 2 == 0 by {
      assert q == 2 * Pow2(15 - b);
    }
    Pow2Split(b);
  }

  /** One decoded instruction: an opcode-table index and, except for an API
      call, an unsigned 32-bit argument. */
  datatype Instr = Basic(op: nat, arg: U32) | Api(op: nat) | Extended(op: nat, arg: U32)

  /** `opcode >> 15 == 0`: a one-word instruction with its argument inline. */
  predicate IsBasic(w: U16) {
    w / 0x8000 == 0
  }

  /** `opcode >> 14 == 0b10`: a call of an API function, no argument. */
  predicate IsApi(w: U16) {
    w / 0x4000 == 2
  }

  /** The remaining words start a two-word instruction. */
  predicate IsExtended(w: U16) {
    !IsBasic(w) && !IsApi(w)
  }

  /** The three forms partition the code words by their two top bits. */
  lemma FormsPartition(w: U16)
    ensures IsBasic(w) <==> w < 0x8000
    ensures IsApi(w) <==> 0x8000 <= w < 0xC000
    ensures IsExtended(w) <==> 0xC000 <= w
  {
  }

  function DecodeBasic(p: nat, w: U16): (i: Instr)
    requires p >= 1 && IsBasic(w)
  {
    DivAtMost(w, p);
    Basic(w % p, w / p)
  }

  function DecodeApi(w: U16): (i: Instr)
    requires IsApi(w)
  {
    Api(w % 0x4000)
  }

  /** The high part of an extended argument as the source computes it: the
      first word moved up 18 bits in a signed 32-bit value (its two top bits
      fall off), shifted back down arithmetically by `2 + OPCODE_BASE_SIZE`
      bits, and read as unsigned. */
  function ExtHigh(p: nat, w: U16): (r: U32)
    requires p >= 1
  {
    (ToInt32((w * 0x4_0000) % 0x1_0000_0000) / (4 * p)) % 0x1_0000_0000
  }

  /** A two-word instruction: the table index comes from the second word and
      the argument is the second word's upper bits plus the high part, with
      unsigned wrap-around. */
  function DecodeExtended(p: nat, w: U16, w2: U16): (i: Instr)
    requires p >= 1 && IsExtended(w)
  {
    Extended(w2 % p, (w2 / p + ExtHigh(p, w)) % 0x1_0000_0000)
  }

  // ------------------------------------------------------------- encoders

  function EncodeBasic(p: nat, q: nat, op: nat, arg: nat): (w: U16)
    requires Scale(p, q) && op < p && arg < q / 2
    ensures w < 0x8000
  {
    MulBelow(arg, p, q / 2, op);
    arg * p + op
  }

  function EncodeApi(op: nat): (w: U16)
    requires op < 0x4000
  {
    0x8000 + op
  }

  /** The signed argument range of a two-word instruction:
      `30 - OPCODE_BASE_SIZE` bits. */
  predicate ExtRange(q: nat, v: int) {
    -0x2000 * q <= v < 0x2000 * q
  }

  /** A two-word encoding of table index `op` with signed argument `v`. */
  function EncodeExtended(p: nat, q: nat, op: nat, v: int): (ws: (U16, U16))
    requires Scale(p, q) && op < p && ExtRange(q, v)
  {
    DivModSplit(v, q);
    MulBelow(v % q, p, q, op);
    (0xC000 + (v / q) % 0x4000, (v % q) * p + op)
  }

  /** The argument of a two-word instruction read as a signed value. */
  function ExtSigned(p: nat, q: nat, w: U16, w2: U16): (v: int)
    requires p >= 1
  {
    SignExt14(w % 0x4000) * q + w2 / p
  }

  // --------------------------------------------------------------- lemmas

  /** `arg * p + op` stays below `n * p` when `arg < n` and `op < p`. */
  lemma MulBelow(arg: nat, p: nat, n: nat, op: nat)
    requires arg < n && op < p
    ensures arg * p + op < n * p
  {
    MulMonotone(arg + 1, n, p);
  }

  /** A basic word decodes to the index and argument it was built from. */
  lemma BasicRoundTrip(p: nat, q: nat, op: nat, arg: nat)
    requires Scale(p, q) && op < p && arg < q / 2
    ensures IsBasic(EncodeBasic(p, q, op, arg))
    ensures DecodeBasic(p, EncodeBasic(p, q, op, arg)) == Basic(op, arg)
  {
    DivModUnique(EncodeBasic(p, q, op, arg), p, arg, op);
  }

  /** Every basic word is the encoding of its own decoding. */
  lemma BasicDecodeEncode(p: nat, q: nat, w: U16)
    requires Scale(p, q) && IsBasic(w)
    ensures var i := DecodeBasic(p, w);
            && i.op < p && i.arg < q / 2
            && EncodeBasic(p, q, i.op, i.arg) == w
  {
    DivModSplit(w, p);
    assert (q / 2) * p == 0x8000;
    DivBelow(w, p, q / 2);
  }

  lemma ApiRoundTrip(op: nat)
    requires op < 0x4000
    ensures IsApi(EncodeApi(op)) && DecodeApi(EncodeApi(op)) == Api(op)
  {
  }

  lemma ApiDecodeEncode(w: U16)
    requires IsApi(w)
    ensures DecodeApi(w).op < 0x4000 && EncodeApi(DecodeApi(w).op) == w
  {
  }

  /** Moving a 16-bit word up 18 bits in 32 bits keeps its low 14 bits. */
  lemma TopBitsFallOff(w: U16)
    ensures (w * 0x4_0000) % 0x1_0000_0000 == (w % 0x4000) * 0x4_0000
  {
    DivModSplit(w, 0x4000);
    DivModUnique(w * 0x4_0000, 0x1_0000_0000, w / 0x4000, (w % 0x4000) * 0x4_0000);
  }

  /** The source's shifts compute the sign-extended low 14 bits of the first
      word scaled by `q`, taken modulo 2^32. */
  lemma ExtHighScaled(p: nat, q: nat, w: U16)
    requires Scale(p, q)
    ensures ExtHigh(p, w) == (SignExt14(w % 0x4000) * q) % 0x1_0000_0000
  {
    TopBitsFallOff(w);
    var se := SignExt14(w % 0x4000);
    assert ToInt32((w % 0x4000) * 0x4_0000) == se * 0x4_0000;
    assert se * 0x4_0000 == (se * q) * (4 * p) by {
      assert se * (4 * (p * q)) == (se * q) * (4 * p);
    }
    DivModUnique(se * 0x4_0000, 4 * p, se * q, 0);
  }

  /** The unsigned argument of a two-word instruction is its signed reading
      modulo 2^32. */
  lemma ExtendedArgIsSigned(p: nat, q: nat, w: U16, w2: U16)
    requires Scale(p, q) && IsExtended(w)
    ensures DecodeExtended(p, w, w2).arg == ExtSigned(p, q, w, w2) % 0x1_0000_0000
  {
    ExtHighScaled(p, q, w);
    AddMod(w2 / p, SignExt14(w % 0x4000) * q, 0x1_0000_0000);
  }

  /** The quotient of a value in `[-n*q, n*q)` by `q` lies in `[-n, n)`. */
  lemma QuotientRange(v: int, q: nat, n: nat)
    requires q >= 1 && -((n * q) as int) <= v < n * q
    ensures -(n as int) <= v / q < n
  {
    var k := v / q;
    DivModSplit(v, q);
    if k >= n {
      MulMonotone(n, k, q);
    } else if k < -(n as int) {
      MulMonotone(k + 1, -(n as int), q);
    }
  }

  /** The first word of a two-word encoding carries the high part of the
      argument, which sign extension recovers. */
  lemma HighPartRecovered(q: nat, v: int)
    requires q >= 1 && ExtRange(q, v)
    ensures SignExt14((0xC000 + (v / q) % 0x4000) % 0x4000) == v / q
  {
    QuotientRange(v, q, 0x2000);
  }

  /** The two words of an encoding hold the high part, the low part and the
      table index. */
  lemma EncodedParts(p: nat, q: nat, op: nat, v: int)
    requires Scale(p, q) && op < p && ExtRange(q, v)
    ensures var (w, w2) := EncodeExtended(p, q, op, v);
            && IsExtended(w)
            && SignExt14(w % 0x4000) == v / q
            && w2 / p == v % q
            && w2 % p == op
  {
    HighPartRecovered(q, v);
    DivModSplit(v, q);
    DivModUnique(EncodeExtended(p, q, op, v).1, p, v % q, op);
  }

  /** A two-word encoding decodes to its table index and to its argument
      modulo 2^32. */
  lemma ExtendedRoundTrip(p: nat, q: nat, op: nat, v: int)
    requires Scale(p, q) && op < p && ExtRange(q, v)
    ensures IsExtended(EncodeExtended(p, q, op, v).0)
    ensures ExtSigned(p, q, EncodeExtended(p, q, op, v).0, EncodeExtended(p, q, op, v).1) == v
    ensures DecodeExtended(p, EncodeExtended(p, q, op, v).0, EncodeExtended(p, q, op, v).1) ==
            Extended(op, v % 0x1_0000_0000)
  {
    var (w, w2) := EncodeExtended(p, q, op, v);
    EncodedParts(p, q, op, v);
    DivModSplit(v, q);
    ExtendedArgIsSigned(p, q, w, w2);
  }

  /** Joining a high and a low part and splitting by `q` gives the parts
      back. */
  lemma SplitJoin(q: nat, se: int, lo: nat)
    requires q >= 1 && -0x2000 <= se < 0x2000 && lo < q
    ensures var v := se * q + lo;
            && ExtRange(q, v)
            && v / q == se
            && v % q == lo
  {
    DivModUnique(se * q + lo, q, se, lo);
    MulMonotone(-0x2000, se, q);
    MulMonotone(se + 1, 0x2000, q);
  }

  /** Every two-word instruction is the encoding of its signed reading. */
  lemma ExtendedDecodeEncode(p: nat, q: nat, w: U16, w2: U16)
    requires Scale(p, q) && IsExtended(w)
    ensures var i := DecodeExtended(p, w, w2);
            && i.op < p
            && ExtRange(q, ExtSigned(p, q, w, w2))
            && EncodeExtended(p, q, i.op, ExtSigned(p, q, w, w2)) == (w, w2)
  {
    var se, lo := SignExt14(w % 0x4000), w2 / p;
    var v := ExtSigned(p, q, w, w2);
    DivBelow(w2, p, q);
    SplitJoin(q, se, lo);
    assert (v / q) % 0x4000 == w % 0x4000;
    assert (v % q) * p + w2 % p == w2 by {
      DivModSplit(w2, p);
    }
  }
}
