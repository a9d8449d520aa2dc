/** The interpreter: the fiber context, the opcode handlers and `exec_loop`.

    Addresses are counted in 16-bit code words (the unit of `uint16_t *pc`);
    the image's byte `k` sits at byte address `2 * imgBase + k`, so a pointer
    to it is that number and the code word holding it is `imgBase + k / 2`.
    A null `pc` is address 0. Memory outside the image, the stack, the
    closure captures and the globals is not modelled: an access there is a
    `BadAccess` fault. */
module Vm {
  import opened Words
  import opened Layout
  import opened Header
  import opened Loader
  import opened Decode
  import opened Sections
  import opened Image

  /** Why the interpreter stopped before `pc` became null. */
  datatype Fault =
    | BadAccess              // a read or write outside the modelled memory
    | NullHandler(op: nat)   // the opcode-table slot is empty
    | MissingArgument(op: nat) // a core handler reached through the API form
    | FailedCast(v: Word)    // `failedCast(v)`

  /** The loaded image as the interpreter sees it. */
  datatype Env = Env(host: Host, imgBase: nat, buf: seq<Byte>, index: Index) {
    predicate Valid() {
      && 1 <= host.opcodeBaseSize <= 15
      && 2 * imgBase + |buf| < 0x1_0000_0000_0000_0000
      && (forall k :: 0 <= k < |index.pointerLiterals| && index.pointerLiterals[k].Some? ==>
            index.pointerLiterals[k].value < |buf|)
    }

    /** `2^OPCODE_BASE_SIZE`, the split of a basic code word. */
    function P(): nat
      requires Valid()
    {
      Pow2(host.opcodeBaseSize)
    }
  }

  /** `FiberContext`: the program counter, the accumulator `r0`, the stack
      pointer as an index into `stack` (the stack grows towards index 0), the
      closure captures and the globals. */
  datatype Ctx = Ctx(pc: int, r0: Word, sp: int, stack: seq<Word>, caps: seq<Word>, globals: seq<Word>)

  /** The result of one handler or one loop iteration. */
  datatype Step = Next(ctx: Ctx) | Stop(fault: Fault)

  /** The native operations (the static opcode table's other entries and the
      API functions): given the native's id, the argument (none for the API
      form) and the context, what it does. Their code is not part of this
      model. */
  type Natives = (nat, Option<U32>, Ctx) -> Step

  predicate InRange<T>(s: seq<T>, i: int) {
    0 <= i < |s|
  }

  /** The code word at address `a`, when it lies in the image. */
  function Fetch(env: Env, a: int): (r: Option<U16>)
    ensures r.Some? <==> 0 <= 2 * (a - env.imgBase) && 2 * (a - env.imgBase) + 2 <= |env.buf|
  {
    var off := 2 * (a - env.imgBase);
    if 0 <= off && off + 2 <= |env.buf| then Some(U16At(env.buf, off)) else None
  }

  /** The value `ldlit` loads: the section's address, or 0 for a null slot. */
  function LitValue(env: Env, k: nat): (v: Word)
    requires env.Valid() && k < |env.index.pointerLiterals|
    ensures env.index.pointerLiterals[k].None? ==> v == 0
    ensures env.index.pointerLiterals[k].Some? ==> v == 2 * env.imgBase + env.index.pointerLiterals[k].value
  {
    match env.index.pointerLiterals[k]
    case None => 0
    case Some(s) => 2 * env.imgBase + s
  }

  /** `*--sp = v`. */
  function PushValue(c: Ctx, v: Word): (r: Step)
    ensures r.Next? <==> 0 < c.sp <= |c.stack|
    ensures r.Next? ==> r.ctx.sp == c.sp - 1 && r.ctx.stack == c.stack[c.sp - 1 := v]
    ensures r.Next? ==> r.ctx.(sp := c.sp, stack := c.stack) == c
  {
    if 0 < c.sp <= |c.stack| then Next(c.(sp := c.sp - 1, stack := c.stack[c.sp - 1 := v]))
    else Stop(BadAccess)
  }

  /** The return record `callproc` and `callind` push:
      `((pc - imgbase) << 8) | 2` as a 64-bit value. */
  function ReturnRecord(env: Env, pc: int): (w: Word) {
    ((pc - env.imgBase) * 256 + 2) % 0x1_0000_0000_0000_0000
  }

  /** The code address a return record sends `ret` back to:
      `imgbase + (retaddr >> 8)` with an arithmetic shift. */
  function ReturnTarget(env: Env, w: Word): int {
    env.imgBase + ToInt64(w) / 256
  }

  /** Pushes the return record and continues at code address `target`. */
  function Call(env: Env, c: Ctx, target: int): (r: Step)
    ensures r.Next? <==> 0 < c.sp <= |c.stack|
    ensures r.Next? ==> r.ctx.pc == target && r.ctx.sp == c.sp - 1 &&
                        r.ctx.stack == c.stack[c.sp - 1 := ReturnRecord(env, c.pc)]
    ensures r.Next? ==> r.ctx.(pc := c.pc, sp := c.sp, stack := c.stack) == c
  {
    match PushValue(c, ReturnRecord(env, c.pc))
    case Stop(f) => Stop(f)
    case Next(c1) => Next(c1.(pc := target))
  }

  /** The tmps count of `ret`: `(arg & 0xf) | ((arg >> 8) & 0xff)`. */
  function NumTmps(arg: U32): nat {
    BitOr(arg % 0x10, (arg / 0x100) % 0x100)
  }

  /** The argument count of `ret`: `((arg >> 4) & 0xf) | ((arg >> 16) & 0xff)`. */
  function NumArgs(arg: U32): nat {
    BitOr((arg / 0x10) % 0x10, (arg / 0x1_0000) % 0x100)
  }

  /** A `ret` argument for `t` temporaries and `a` arguments: a count below
      16 in its nibble, a larger one in its byte. */
  function RetArg(t: nat, a: nat): (arg: U32)
    requires t < 0x100 && a < 0x100
  {
    (if t < 0x10 then t else t * 0x100) + (if a < 0x10 then a * 0x10 else a * 0x1_0000)
  }

  /** `-(int)arg` as a 32-bit `int`: two's-complement negation, where the
      negation of `INT_MIN` wraps to itself. */
  function NegInt32(arg: U32): (r: int)
    ensures -0x8000_0000 <= r < 0x8000_0000
    ensures arg <= 0x8000_0000 ==> r == -(arg as int)
    ensures arg > 0x8000_0000 ==> r == 0x1_0000_0000 - arg
  {
    ToInt32((0x1_0000_0000 - arg) % 0x1_0000_0000)
  }

  /** `pushmany n`: `n` slots below the stack pointer are set to `u`
      (`undefined`) at once, and the stack pointer moves down past them. */
  function PushUndefined(c: Ctx, u: Word, n: nat): (r: Step)
    ensures r.Next? ==> r.ctx.(sp := c.sp, stack := c.stack) == c && |r.ctx.stack| == |c.stack|
    ensures r.Stop? ==> r.fault == BadAccess
  {
    if n == 0 then Next(c)
    else if 0 <= c.sp - n && c.sp <= |c.stack| then
      Next(c.(sp := c.sp - n, stack := c.stack[..c.sp - n] + seq(n, _ => u) + c.stack[c.sp..]))
    else Stop(BadAccess)
  }

  /** A jump by the signed offset `arg`. */
  function Jump(c: Ctx, arg: U32): Ctx {
    c.(pc := c.pc + ToInt32(arg))
  }

  /** The handlers the core defines (`op_stloc` to `op_ldintneg`), run with
      `pc` already past the instruction. */
  function Exec(env: Env, kind: OpKind, arg: U32, c: Ctx): (r: Step)
    requires env.Valid() && !kind.Native?
    ensures r.Next? ==> |r.ctx.stack| == |c.stack| && |r.ctx.caps| == |c.caps| && |r.ctx.globals| == |c.globals|
    ensures r.Next? && kind != StCap ==> r.ctx.caps == c.caps
    ensures r.Next? && kind != StGlb ==> r.ctx.globals == c.globals
    ensures r.Next? && kind !in {Jmp, JmpZ, JmpNz, CallProc, CallInd, Ret} ==> r.ctx.pc == c.pc
    ensures r.Next? && kind in {StLoc, StCap, StGlb, Jmp, JmpZ, JmpNz, PopMany, PushMany} ==> r.ctx.r0 == c.r0
    ensures r.Stop? ==> r.fault == BadAccess || (kind == CallInd && r.fault == FailedCast(c.r0))
  {
    var ptrs := env.index.pointerLiterals;
    match kind
    case StLoc =>
      if InRange(c.stack, c.sp + arg) then Next(c.(stack := c.stack[c.sp + arg := c.r0])) else Stop(BadAccess)
    case LdLoc =>
      if InRange(c.stack, c.sp + arg) then Next(c.(r0 := c.stack[c.sp + arg])) else Stop(BadAccess)
    case StCap =>
      if InRange(c.caps, arg) then Next(c.(caps := c.caps[arg := c.r0])) else Stop(BadAccess)
    case LdCap =>
      if InRange(c.caps, arg) then Next(c.(r0 := c.caps[arg])) else Stop(BadAccess)
    case StGlb =>
      if InRange(c.globals, arg) then Next(c.(globals := c.globals[arg := c.r0])) else Stop(BadAccess)
    case LdGlb =>
      if InRange(c.globals, arg) then Next(c.(r0 := c.globals[arg])) else Stop(BadAccess)
    case LdLit =>
      if arg < |ptrs| then Next(c.(r0 := LitValue(env, arg))) else Stop(BadAccess)
    case LdNumber =>
      var t := env.index.numberLiterals;
      if arg < t.count && t.data + 8 * arg + 8 <= |env.buf| then Next(c.(r0 := U64At(env.buf, t.data + 8 * arg)))
      else Stop(BadAccess)
    case Jmp => Next(Jump(c, arg))
    case JmpZ => if !env.host.toBoolQuick(c.r0) then Next(Jump(c, arg)) else Next(c)
    case JmpNz => if env.host.toBoolQuick(c.r0) then Next(Jump(c, arg)) else Next(c)
    case CallProc =>
      if arg < |ptrs| then Call(env, c, LitValue(env, arg) / 2 + 4) else Stop(BadAccess)
    case CallInd =>
      var fn := c.r0;
      if !env.host.isPointer(fn) then Stop(FailedCast(fn))
      else if env.host.vtableType(fn) != env.host.valTypeFunction then Stop(FailedCast(fn))
      else if arg != env.host.vtableReserved(fn) then Stop(FailedCast(fn))
      else Call(env, c, fn / 2 + 4)
    case Ret =>
      var at := c.sp + NumTmps(arg);
      if InRange(c.stack, at) then
        Next(c.(sp := at + 1 + NumArgs(arg), pc := ReturnTarget(env, c.stack[at])))
      else Stop(BadAccess)
    case Pop =>
      if InRange(c.stack, c.sp) then Next(c.(r0 := c.stack[c.sp], sp := c.sp + 1)) else Stop(BadAccess)
    case PopMany => Next(c.(sp := c.sp + arg))
    case PushMany => PushUndefined(c, env.host.tagUndefined, arg)
    case Push => PushValue(c, c.r0)
    case LdSpecial => Next(c.(r0 := arg))
    case LdInt => Next(c.(r0 := env.host.tagNumber(arg)))
    case LdIntNeg => Next(c.(r0 := env.host.tagNumber(NegInt32(arg))))
  }

  /** Calls opcode-table slot `op`, with `arg` unless it is an API call. */
  function Dispatch(env: Env, natives: Natives, op: nat, arg: Option<U32>, c: Ctx): (r: Step)
    requires env.Valid()
    ensures op >= |env.index.opcodes| ==> r == Stop(BadAccess)
    ensures op < |env.index.opcodes| && env.index.opcodes[op].None? ==> r == Stop(NullHandler(op))
  {
    if op >= |env.index.opcodes| then Stop(BadAccess)
    else match env.index.opcodes[op]
      case None => Stop(NullHandler(op))
      case Some(d) =>
        match d.kind
        case Native(id) => natives(id, arg, c)
        case _ =>
          match arg
          case None => Stop(MissingArgument(op))
          case Some(a) => Exec(env, d.kind, a, c)
  }

  /** One iteration of `exec_loop` at a non-null `pc`: fetch, advance `pc`
      past the instruction, decode and dispatch. */
  function StepAt(env: Env, natives: Natives, c: Ctx): (r: Step)
    requires env.Valid()
  {
    match Fetch(env, c.pc)
    case None => Stop(BadAccess)
    case Some(w) =>
      if IsBasic(w) then
        var i := DecodeBasic(env.P(), w);
        Dispatch(env, natives, i.op, Some(i.arg), c.(pc := c.pc + 1))
      else if IsApi(w) then
        Dispatch(env, natives, DecodeApi(w).op, None, c.(pc := c.pc + 1))
      else
        match Fetch(env, c.pc + 1)
        case None => Stop(BadAccess)
        case Some(w2) =>
          var i := DecodeExtended(env.P(), w, w2);
          Dispatch(env, natives, i.op, Some(i.arg), c.(pc := c.pc + 2))
  }

  /** How a bounded run of the loop ends. */
  datatype Outcome = Halted(ctx: Ctx) | Faulted(fault: Fault, at: Ctx) | OutOfFuel(ctx: Ctx)

  /** `exec_loop` for at most `fuel` iterations: it stops when `pc` is null. */
  function Run(env: Env, natives: Natives, c: Ctx, fuel: nat): (r: Outcome)
    requires env.Valid()
    ensures r.Halted? ==> r.ctx.pc == 0
    ensures c.pc == 0 ==> r == Halted(c)
    decreases fuel
  {
    if c.pc == 0 then Halted(c)
    else if fuel == 0 then OutOfFuel(c)
    else
      match StepAt(env, natives, c)
      case Stop(f) => Faulted(f, c)
      case Next(c1) => Run(env, natives, c1, fuel - 1)
  }

  // ------------------------------------------------------ handler lemmas

  /** The load handler that reads the slot a store handler writes. */
  function LoadFor(k: OpKind): (l: OpKind)
    requires k in {StLoc, StCap, StGlb}
    ensures l in {LdLoc, LdCap, LdGlb}
  {
    match k
    case StLoc => LdLoc
    case StCap => LdCap
    case _ => LdGlb
  }

  /** A store and its load reach the same slot: one faults exactly when the
      other does; loading right after a store reads back the stored `r0`;
      storing right after a load writes back what was there. */
  lemma StoreLoad(env: Env, k: OpKind, arg: U32, c: Ctx)
    requires env.Valid() && k in {StLoc, StCap, StGlb}
    ensures Exec(env, k, arg, c).Next? <==> Exec(env, LoadFor(k), arg, c).Next?
    ensures var st := Exec(env, k, arg, c);
            st.Next? ==> Exec(env, LoadFor(k), arg, st.ctx) == st
    ensures var ld := Exec(env, LoadFor(k), arg, c);
            ld.Next? ==> Exec(env, k, arg, ld.ctx) == ld
  {
  }

  /** The table a store handler writes: the stack, the captures or the
      globals. */
  function StoreTable(k: OpKind, c: Ctx): seq<Word>
    requires k in {StLoc, StCap, StGlb}
  {
    match k
    case StLoc => c.stack
    case StCap => c.caps
    case _ => c.globals
  }

  /** The slot of that table a store with argument `arg` targets: relative
      to `sp` on the stack, absolute in the captures and the globals. */
  function StoreSlot(k: OpKind, arg: U32, c: Ctx): int
    requires k in {StLoc, StCap, StGlb}
  {
    if k == StLoc then c.sp + arg else arg
  }

  /** A store writes `r0` to its one slot and changes nothing else: not the
      other slots of its table, not the other two tables, not `pc`, `sp` or
      `r0`. */
  lemma StoreWritesOneSlot(env: Env, k: OpKind, arg: U32, c: Ctx)
    requires env.Valid() && k in {StLoc, StCap, StGlb} && Exec(env, k, arg, c).Next?
    ensures var r := Exec(env, k, arg, c).ctx;
            var t := StoreTable(k, r);
            && |t| == |StoreTable(k, c)|
            && InRange(t, StoreSlot(k, arg, c))
            && t[StoreSlot(k, arg, c)] == c.r0
            && (forall i :: 0 <= i < |t| && i != StoreSlot(k, arg, c) ==> t[i] == StoreTable(k, c)[i])
            && r.pc == c.pc && r.sp == c.sp && r.r0 == c.r0
            && (k != StLoc ==> r.stack == c.stack)
            && (k != StCap ==> r.caps == c.caps)
            && (k != StGlb ==> r.globals == c.globals)
  {
  }

  /** `pop` undoes `push`: `r0` and `sp` are back, and the slot below the
      stack pointer holds the pushed value. */
  lemma PushThenPop(env: Env, a: U32, b: U32, c: Ctx)
    requires env.Valid() && Exec(env, Push, a, c).Next?
    ensures Exec(env, Pop, b, Exec(env, Push, a, c).ctx) == Next(c.(stack := c.stack[c.sp - 1 := c.r0]))
  {
  }

  /** `push` undoes `pop` on the stack: the popped value goes back where it
      was, and `r0` keeps it. */
  lemma PopThenPush(env: Env, a: U32, b: U32, c: Ctx)
    requires env.Valid() && Exec(env, Pop, a, c).Next?
    ensures Exec(env, Push, b, Exec(env, Pop, a, c).ctx) == Next(c.(r0 := c.stack[c.sp]))
  {
  }

  /** `n` single pushes of `v`, as the loop of `op_pushmany` does them. */
  function PushN(c: Ctx, v: Word, n: nat): (r: Step)
    ensures r.Next? ==> r.ctx.r0 == c.r0 && r.ctx.pc == c.pc && |r.ctx.stack| == |c.stack|
    decreases n
  {
    if n == 0 then Next(c)
    else
      match PushValue(c, v)
      case Stop(f) => Stop(f)
      case Next(c1) => PushN(c1, v, n - 1)
  }

  /** `pushmany` is `arg` pushes of `undefined`: the same faults, the same
      stack. */
  lemma PushManyIsRepeatedPush(env: Env, n: U32, c: Ctx)
    requires env.Valid()
    ensures Exec(env, PushMany, n, c) == PushN(c, env.host.tagUndefined, n)
  {
    PushUndefinedIsRepeatedPush(c, env.host.tagUndefined, n);
  }

  lemma {:induction false} PushUndefinedIsRepeatedPush(c: Ctx, u: Word, n: nat)
    ensures PushUndefined(c, u, n) == PushN(c, u, n)
    decreases n
  {
    if n > 0 && 0 < c.sp <= |c.stack| {
      var c1 := PushValue(c, u).ctx;
      PushUndefinedIsRepeatedPush(c1, u, n - 1);
      if n > 1 && 0 <= c.sp - n {
        var s1 := c1.stack[..c1.sp - (n - 1)] + seq(n - 1, _ => u) + c1.stack[c1.sp..];
        var s := c.stack[..c.sp - n] + seq(n, _ => u) + c.stack[c.sp..];
        assert s1 == s by {
          assert |s1| == |s|;
          forall i | 0 <= i < |s|
            ensures s1[i] == s[i]
          {
          }
        }
      } else if n == 1 {
        assert c.stack[..c.sp - 1] + seq(1, _ => u) + c.stack[c.sp..] == c.stack[c.sp - 1 := u];
      }
    }
  }

  /** `popmany` after `pushmany` of the same count restores the stack
      pointer; the pushed slots hold `undefined` and the rest of the stack is
      untouched. */
  lemma PushManyThenPopMany(env: Env, n: U32, c: Ctx)
    requires env.Valid() && Exec(env, PushMany, n, c).Next?
    ensures var c1 := Exec(env, PushMany, n, c).ctx;
            && Exec(env, PopMany, n, c1) == Next(c1.(sp := c.sp))
            && c1.sp == c.sp - n
            && (forall i :: c.sp - n <= i < c.sp ==> c1.stack[i] == env.host.tagUndefined)
            && (forall i :: 0 <= i < |c.stack| && !(c.sp - n <= i < c.sp) ==> c1.stack[i] == c.stack[i])
  {
  }

  /** The `jmp` argument for a signed offset `d`: its 32-bit pattern. */
  function JumpArg(d: int): (arg: U32)
    requires -0x8000_0000 <= d < 0x8000_0000
  {
    d % 0x1_0000_0000
  }

  /** A jump by `JumpArg(d)` moves `pc` by exactly `d`. */
  lemma JumpLands(env: Env, d: int, c: Ctx)
    requires env.Valid() && -0x8000_0000 <= d < 0x8000_0000
    ensures Exec(env, Jmp, JumpArg(d), c) == Next(c.(pc := c.pc + d))
  {
  }

  /** Of `jmpz` and `jmpnz` with the same argument exactly one jumps, as
      `r0` is falsy or truthy; the other falls through. */
  lemma JumpsComplement(env: Env, arg: U32, c: Ctx)
    requires env.Valid()
    ensures Exec(env, JmpZ, arg, c) == Next(if env.host.toBoolQuick(c.r0) then c else Jump(c, arg))
    ensures Exec(env, JmpNz, arg, c) == Next(if env.host.toBoolQuick(c.r0) then Jump(c, arg) else c)
  {
  }

  /** `ret` reads back the counts a `RetArg` packs, for counts below 256. */
  lemma RetArgFields(t: nat, a: nat)
    requires t < 0x100 && a < 0x100
    ensures NumTmps(RetArg(t, a)) == t && NumArgs(RetArg(t, a)) == a
  {
    var arg := RetArg(t, a);
    var lo, hi := if t < 0x10 then t else 0, if t < 0x10 then 0 else t;
    var alo, ahi := if a < 0x10 then a else 0, if a < 0x10 then 0 else a;
    assert arg == lo + alo * 0x10 + hi * 0x100 + ahi * 0x1_0000;
    RetArgNibbles(lo, alo, hi, ahi);
  }

  /** The four fields of a `ret` argument. */
  lemma RetArgNibbles(lo: nat, alo: nat, hi: nat, ahi: nat)
    requires lo < 0x10 && alo < 0x10 && hi < 0x100 && ahi < 0x100
    requires (lo == 0 || hi == 0) && (alo == 0 || ahi == 0)
    ensures var arg := lo + alo * 0x10 + hi * 0x100 + ahi * 0x1_0000;
            && arg % 0x10 == lo && (arg / 0x100) % 0x100 == hi
            && (arg / 0x10) % 0x10 == alo && (arg / 0x1_0000) % 0x100 == ahi
            && NumTmps(arg) == lo + hi && NumArgs(arg) == alo + ahi
  {
    var arg := lo + alo * 0x10 + hi * 0x100 + ahi * 0x1_0000;
    DivModUnique(arg, 0x10, alo + hi * 0x10 + ahi * 0x1000, lo);
    DivModUnique(arg, 0x100, hi + ahi * 0x100, lo + alo * 0x10);
    DivModUnique(arg, 0x1_0000, ahi, lo + alo * 0x10 + hi * 0x100);
    DivModUnique(hi + ahi * 0x100, 0x100, ahi, hi);
    DivModUnique(alo + hi * 0x10 + ahi * 0x1000, 0x10, hi * 0x1 + ahi * 0x100, alo);
  }

  /** A return record leads back to the call's `pc` while the distance from
      the image base fits the 56 bits the record keeps. */
  lemma ReturnRecordTarget(env: Env, pc: int)
    requires -0x80_0000_0000_0000 <= pc - env.imgBase < 0x80_0000_0000_0000
    ensures ReturnTarget(env, ReturnRecord(env, pc)) == pc
  {
    var d := pc - env.imgBase;
    var x := d * 256 + 2;
    assert ToInt64(x % 0x1_0000_0000_0000_0000) == x;
    DivModUnique(x, 256, d, 2);
  }

  /** `ret` with `RetArg(t, a)` over a stack whose record sits `t` slots
      above `sp` drops the temporaries, the record and `a` arguments, and
      resumes at the recorded `pc`. */
  lemma RetResumes(env: Env, pc: int, t: nat, a: nat, c: Ctx)
    requires env.Valid() && t < 0x100 && a < 0x100
    requires -0x80_0000_0000_0000 <= pc - env.imgBase < 0x80_0000_0000_0000
    requires InRange(c.stack, c.sp + t) && c.stack[c.sp + t] == ReturnRecord(env, pc)
    ensures Exec(env, Ret, RetArg(t, a), c) == Next(c.(sp := c.sp + t + 1 + a, pc := pc))
  {
    RetArgFields(t, a);
    ReturnRecordTarget(env, pc);
  }

  /** After `callproc`, a callee that leaves `t` temporaries above the
      return record and returns with `RetArg(t, a)` resumes the caller after
      the call, with the record and `a` arguments popped. */
  lemma CallProcThenRet(env: Env, arg: U32, c: Ctx, callee: Ctx, t: nat, a: nat)
    requires env.Valid() && t < 0x100 && a < 0x100
    requires -0x80_0000_0000_0000 <= c.pc - env.imgBase < 0x80_0000_0000_0000
    requires Exec(env, CallProc, arg, c).Next?
    requires var c1 := Exec(env, CallProc, arg, c).ctx;
             callee.sp + t == c1.sp && InRange(callee.stack, c1.sp) && callee.stack[c1.sp] == c1.stack[c1.sp]
    ensures Exec(env, Ret, RetArg(t, a), callee) == Next(callee.(sp := c.sp + a, pc := c.pc))
  {
    RetResumes(env, c.pc, t, a, callee);
  }

  /** The same round trip through `callind`. */
  lemma CallIndThenRet(env: Env, arg: U32, c: Ctx, callee: Ctx, t: nat, a: nat)
    requires env.Valid() && t < 0x100 && a < 0x100
    requires -0x80_0000_0000_0000 <= c.pc - env.imgBase < 0x80_0000_0000_0000
    requires Exec(env, CallInd, arg, c).Next?
    requires var c1 := Exec(env, CallInd, arg, c).ctx;
             callee.sp + t == c1.sp && InRange(callee.stack, c1.sp) && callee.stack[c1.sp] == c1.stack[c1.sp]
    ensures Exec(env, Ret, RetArg(t, a), callee) == Next(callee.(sp := c.sp + a, pc := c.pc))
  {
    RetResumes(env, c.pc, t, a, callee);
  }

  /** `callind` rejects `r0` exactly when it is not a pointer to a function
      whose vtable's `reserved` field equals the argument; otherwise it
      faults only on a full stack, and enters the function's code. */
  lemma CallIndChecks(env: Env, arg: U32, c: Ctx)
    requires env.Valid()
    ensures var h := env.host;
            var ok := h.isPointer(c.r0) && h.vtableType(c.r0) == h.valTypeFunction && arg == h.vtableReserved(c.r0);
            var r := Exec(env, CallInd, arg, c);
            && (r == Stop(FailedCast(c.r0)) <==> !ok)
            && (r.Next? <==> ok && 0 < c.sp <= |c.stack|)
            && (r.Next? ==> r.ctx.pc == c.r0 / 2 + 4 && r.ctx.stack[r.ctx.sp] == ReturnRecord(env, c.pc))
  {
  }

  /** The pointer literals of a loaded image are 8-aligned offsets inside
      the image, so the image makes a valid interpreter environment. */
  lemma LoadedLiteralAligned(host: Host, dataAligned: bool, buf: seq<Byte>, vf: FunctionCheck, k: nat)
    requires |buf| < 0x1_0000_0000
    requires LoadVMImage(host, dataAligned, buf, vf).Loaded?
    requires var idx := LoadVMImage(host, dataAligned, buf, vf).index;
             k < |idx.pointerLiterals| && idx.pointerLiterals[k].Some?
    ensures var idx := LoadVMImage(host, dataAligned, buf, vf).index;
            Aligned(idx.pointerLiterals[k].value) && idx.pointerLiterals[k].value < |buf|
  {
    var idx := LoadVMImage(host, dataAligned, buf, vf).index;
    var secs := idx.sections;
    assert LoadSections(host, buf, secs) == Ok(idx);
    WellFormedFits(buf, secs);
    assert idx.pointerLiterals[k] == Some(secs[k]);
  }

  /** `callproc` on the pointer literal of a section of a loaded image
      continues at the first code word after the section's header. */
  lemma CallProcEntersSection(env: Env, arg: U32, c: Ctx)
    requires env.Valid() && arg < |env.index.pointerLiterals| && env.index.pointerLiterals[arg].Some?
    requires Aligned(env.index.pointerLiterals[arg].value)
    ensures var r := Exec(env, CallProc, arg, c);
            r.Next? ==> 2 * r.ctx.pc == 2 * env.imgBase + env.index.pointerLiterals[arg].value + SectionHeaderSize
  {
    var s := env.index.pointerLiterals[arg].value;
    var lit := LitValue(env, arg);
    assert lit == 2 * env.imgBase + s;
    DivModUnique(lit, 2, env.imgBase + s / 2, 0);
    var r := Exec(env, CallProc, arg, c);
    if r.Next? {
      assert r == Call(env, c, lit / 2 + 4);
    }
  }

  /** A loaded image placed below 2^64 is a valid environment for the
      interpreter, with an opcode table covering `VM_OPCODE_BASE_MASK`. */
  lemma LoadedEnvValid(host: Host, dataAligned: bool, buf: seq<Byte>, vf: FunctionCheck, imgBase: nat)
    requires |buf| < 0x1_0000_0000 && 1 <= host.opcodeBaseSize <= 15
    requires 2 * imgBase + |buf| < 0x1_0000_0000_0000_0000
    requires LoadVMImage(host, dataAligned, buf, vf).Loaded?
    ensures var env := Env(host, imgBase, buf, LoadVMImage(host, dataAligned, buf, vf).index);
            && env.Valid()
            && |env.index.opcodes| > host.vmOpcodeBaseMask
  {
    var idx := LoadVMImage(host, dataAligned, buf, vf).index;
    forall k | 0 <= k < |idx.pointerLiterals| && idx.pointerLiterals[k].Some?
      ensures idx.pointerLiterals[k].value < |buf|
    {
      LoadedLiteralAligned(host, dataAligned, buf, vf, k);
    }
  }

  /** `ldintneg n` loads `-n` for every `n` up to 2^31, and `ldint` and
      `ldintneg` agree on zero. */
  lemma LdIntNegNegates(env: Env, n: U32, c: Ctx)
    requires env.Valid() && n <= 0x8000_0000
    ensures Exec(env, LdIntNeg, n, c) == Next(c.(r0 := env.host.tagNumber(-(n as int))))
    ensures n == 0 ==> Exec(env, LdIntNeg, n, c) == Exec(env, LdInt, n, c)
  {
  }

  /** The load handlers change `r0` only, and `ldspecial` loads its argument
      and never faults. */
  lemma LoadsSetOnlyR0(env: Env, k: OpKind, arg: U32, c: Ctx)
    requires env.Valid() && k in {LdLoc, LdCap, LdGlb, LdLit, LdNumber, LdSpecial, LdInt, LdIntNeg}
    ensures var r := Exec(env, k, arg, c);
            && (r.Next? ==> r.ctx == c.(r0 := r.ctx.r0))
            && (k == LdSpecial ==> r == Next(c.(r0 := arg)))
  {
  }

  /** For an environment whose index the load pass built from the image's
      sections, `ldlit k` loads the address of section `k` when its type is
      0x20 or above, and 0 otherwise. */
  lemma LdLitLoadsSection(env: Env, k: U32, c: Ctx)
    requires env.Valid() && AllFit(env.buf, env.index.sections)
    requires LoadSections(env.host, env.buf, env.index.sections) == Ok(env.index)
    requires k < |env.index.sections|
    ensures var s := env.index.sections[k];
            && s + SectionHeaderSize <= |env.buf|
            && Exec(env, LdLit, k, c) == Next(c.(r0 := if TypeAt(env.buf, s) >= 0x20 then 2 * env.imgBase + s else 0))
  {
    assert SectionFits(env.buf, env.index.sections[k]);
    LdLitInRange(env, k, c);
  }

  /** `ldlit k` on a slot of the pointer-literal table never faults. */
  lemma LdLitInRange(env: Env, k: U32, c: Ctx)
    requires env.Valid() && k < |env.index.pointerLiterals|
    ensures Exec(env, LdLit, k, c).Next?
    ensures Exec(env, LdLit, k, c).ctx.r0 == LitValue(env, k)
  {
  }

  /** `ldnumber k` below the count of an accepted literal table loads entry
      `k`, an accepted literal. */
  lemma LdNumberAccepted(env: Env, k: U32, c: Ctx)
    requires env.Valid() && LiteralsAccepted(env.host, env.buf, env.index.numberLiterals)
    requires k < env.index.numberLiterals.count
    ensures var t := env.index.numberLiterals;
            && t.data + 8 * k + 8 <= |env.buf|
            && Exec(env, LdNumber, k, c) == Next(c.(r0 := U64At(env.buf, t.data + 8 * k)))
            && LiteralOk(env.host, U64At(env.buf, t.data + 8 * k))
  {
    assert LiteralEntryOk(env.host, env.buf, env.index.numberLiterals.data, k);
  }

  /** For such an environment, `ldnumber k` below the literal count loads
      entry `k` of the table of a number-literal section, an accepted
      literal. */
  lemma LdNumberLoadsLiteral(env: Env, k: U32, c: Ctx)
    requires env.Valid() && AllFit(env.buf, env.index.sections)
    requires LoadSections(env.host, env.buf, env.index.sections) == Ok(env.index)
    requires k < env.index.numberLiterals.count
    ensures var t := env.index.numberLiterals;
            && t.data + 8 * k + 8 <= |env.buf|
            && Exec(env, LdNumber, k, c) == Next(c.(r0 := U64At(env.buf, t.data + 8 * k)))
            && LiteralOk(env.host, U64At(env.buf, t.data + 8 * k))
            && exists i :: 0 <= i < |env.index.sections| && LiteralsOf(env.host, env.buf, env.index.sections[i], Some(t))
  {
    LoadSectionsTables(env.host, env.buf, env.index.sections);
    var i :| 0 <= i < |env.index.sections| &&
             LiteralsOf(env.host, env.buf, env.index.sections[i], Some(env.index.numberLiterals));
    LdNumberAccepted(env, k, c);
  }

  // ------------------------------------------------------ decoding lemmas

  /** `2^(16 - OPCODE_BASE_SIZE)`, the range of a basic word's argument
      doubled. */
  function Q(env: Env): (q: nat)
    requires env.Valid()
    ensures Scale(env.P(), q)
  {
    HostScale(env.host.opcodeBaseSize);
    Pow2(16 - env.host.opcodeBaseSize)
  }

  /** A basic word built from a table index and an argument runs that
      slot with that argument, one word on. */
  lemma StepBasic(env: Env, natives: Natives, c: Ctx, op: nat, arg: nat)
    requires env.Valid() && op < env.P() && arg < Q(env) / 2
    requires Fetch(env, c.pc) == Some(EncodeBasic(env.P(), Q(env), op, arg))
    ensures StepAt(env, natives, c) == Dispatch(env, natives, op, Some(arg), c.(pc := c.pc + 1))
  {
    BasicRoundTrip(env.P(), Q(env), op, arg);
  }

  /** An API word calls its slot with no argument, one word on. */
  lemma StepApi(env: Env, natives: Natives, c: Ctx, op: nat)
    requires env.Valid() && op < 0x4000
    requires Fetch(env, c.pc) == Some(EncodeApi(op))
    ensures StepAt(env, natives, c) == Dispatch(env, natives, op, None, c.(pc := c.pc + 1))
  {
    ApiRoundTrip(op);
    FormsPartition(EncodeApi(op));
  }

  /** A two-word encoding of a table index and a signed argument runs that
      slot with the argument's 32-bit pattern, two words on. */
  lemma StepExtended(env: Env, natives: Natives, c: Ctx, op: nat, v: int)
    requires env.Valid() && op < env.P() && ExtRange(Q(env), v)
    requires var (w, w2) := EncodeExtended(env.P(), Q(env), op, v);
             Fetch(env, c.pc) == Some(w) && Fetch(env, c.pc + 1) == Some(w2)
    ensures StepAt(env, natives, c) == Dispatch(env, natives, op, Some(v % 0x1_0000_0000), c.(pc := c.pc + 2))
  {
    ExtendedRoundTrip(env.P(), Q(env), op, v);
  }

  /** In a loaded image the opcode table covers every index a basic or
      two-word instruction can name, so those never read past it. */
  lemma BasicIndexInTable(env: Env, w: U16, w2: U16)
    requires env.Valid() && env.host.OpcodeBaseMask() <= env.host.vmOpcodeBaseMask
    requires |env.index.opcodes| > env.host.vmOpcodeBaseMask
    ensures IsBasic(w) ==> DecodeBasic(env.P(), w).op < |env.index.opcodes|
    ensures IsExtended(w) ==> DecodeExtended(env.P(), w, w2).op < |env.index.opcodes|
  {
  }

  // ----------------------------------------------------------- run lemmas

  /** More fuel changes nothing once a run has halted or faulted. */
  lemma {:induction false} RunMoreFuel(env: Env, natives: Natives, c: Ctx, f: nat, g: nat)
    requires env.Valid() && f <= g && !Run(env, natives, c, f).OutOfFuel?
    ensures Run(env, natives, c, g) == Run(env, natives, c, f)
    decreases f
  {
    if c.pc != 0 && f > 0 && StepAt(env, natives, c).Next? {
      RunMoreFuel(env, natives, StepAt(env, natives, c).ctx, f - 1, g - 1);
    }
  }

  /** A run of `f + g` steps is a run of `f` steps continued for `g`. */
  lemma {:induction false} RunCompose(env: Env, natives: Natives, c: Ctx, f: nat, g: nat)
    requires env.Valid() && Run(env, natives, c, f).OutOfFuel?
    ensures Run(env, natives, c, f + g) == Run(env, natives, Run(env, natives, c, f).ctx, g)
    decreases f
  {
    if f > 0 {
      RunCompose(env, natives, StepAt(env, natives, c).ctx, f - 1, g);
    }
  }
}
