/** Machine-level vocabulary shared by the loader and the interpreter:
    bytes, little-endian reads, fixed-width integers and their wrap-around. */
module Words {

  type Byte = b: int | 0 <= b < 256

  /** A 64-bit machine word (`TValue`, `uintptr_t`). */
  type Word = w: int | 0 <= w < 0x1_0000_0000_0000_0000

  /** An unsigned 32-bit quantity (`unsigned`, `uint32_t`). */
  type U32 = w: int | 0 <= w < 0x1_0000_0000

  datatype Option<+T> = None | Some(value: T)

  function Pow2(k: nat): (r: nat)
    ensures r >= 1
  {
    if k == 0 then 1 else 2 * Pow2(k - 1)
  }

  lemma {:induction false} Pow2Add(a: nat, b: nat)
    ensures Pow2(a + b) == Pow2(a) * Pow2(b)
  {
    if a > 0 {
      Pow2Add(a - 1, b);
    }
  }

  lemma {:induction false} Pow2Monotone(a: nat, b: nat)
    requires a <= b
    ensures Pow2(a) <= Pow2(b)
  {
    if a < b {
      Pow2Monotone(a, b - 1);
    }
  }

  lemma Pow2Values()
    ensures Pow2(13) == 0x2000 && Pow2(15) == 0x8000 && Pow2(16) == 0x1_0000 && Pow2(18) == 0x4_0000
  {
    assert Pow2(2) == 4;
    Pow2Add(2, 2);
    Pow2Add(4, 4);
    Pow2Add(8, 4);
    Pow2Add(12, 1);
    Pow2Add(13, 2);
    Pow2Add(15, 1);
    Pow2Add(16, 2);
  }

  /** A 15- or 16-bit field split at bit `b`. */
  lemma Pow2Split(b: nat)
    requires b <= 15
    ensures Pow2(b) * Pow2(15 - b) == Pow2(15 - b) * Pow2(b) == 0x8000
    ensures Pow2(b) * Pow2(16 - b) == Pow2(16 - b) * Pow2(b) == 0x1_0000
  {
    Pow2Add(b, 15 - b);
    Pow2Add(b, 16 - b);
    Pow2Values();
  }

  function U16At(buf: seq<Byte>, i: nat): (r: nat)
    requires i + 2 <= |buf|
    ensures r < 0x1_0000
  {
    buf[i] as int + 0x100 * (buf[i + 1] as int)
  }

  function U32At(buf: seq<Byte>, i: nat): (r: U32)
    requires i + 4 <= |buf|
  {
    U16At(buf, i) + 0x1_0000 * U16At(buf, i + 2)
  }

  /** The four little-endian bytes of a 32-bit value. */
  function LE32(v: U32): (b: seq<Byte>)
    ensures |b| == 4
  {
    [v % 0x100, v / 0x100 % 0x100, v / 0x1_0000 % 0x100, v / 0x100_0000]
  }

  /** Reading back four little-endian bytes gives the value written. */
  lemma U32AtLE32(buf: seq<Byte>, i: nat, v: U32)
    requires i + 4 <= |buf| && buf[i..i + 4] == LE32(v)
    ensures U32At(buf, i) == v
  {
    assert buf[i] == v % 0x100 && buf[i + 1] == v / 0x100 % 0x100;
    assert buf[i + 2] == v / 0x1_0000 % 0x100 && buf[i + 3] == v / 0x100_0000;
    var lo, hi := v % 0x1_0000, v / 0x1_0000;
    DivModSplit(v, 0x1_0000);
    DivModSplit(lo, 0x100);
    DivModSplit(hi, 0x100);
    DivModUnique(v, 0x100, hi * 0x100 + lo / 0x100, lo % 0x100);
    assert v / 0x100 % 0x100 == lo / 0x100 by {
      DivModUnique(v / 0x100, 0x100, hi, lo / 0x100);
    }
    assert v / 0x1_0000 % 0x100 == hi % 0x100;
    DivModUnique(v, 0x100_0000, hi / 0x100, hi % 0x100 * 0x1_0000 + lo);
    assert U16At(buf, i) == lo;
    assert U16At(buf, i + 2) == hi;
  }

  function U64At(buf: seq<Byte>, i: nat): (r: Word)
    requires i + 8 <= |buf|
  {
    U32At(buf, i) + 0x1_0000_0000 * U32At(buf, i + 4)
  }

  /** Reinterprets an unsigned 32-bit value as a two's-complement `int`. */
  function ToInt32(x: U32): (r: int)
    ensures -0x8000_0000 <= r < 0x8000_0000
    ensures r == x || r == x - 0x1_0000_0000
  {
    if x < 0x8000_0000 then x else x - 0x1_0000_0000
  }

  /** Reinterprets a 64-bit word as a two's-complement `intptr_t`. */
  function ToInt64(x: Word): (r: int)
    ensures -0x8000_0000_0000_0000 <= r < 0x8000_0000_0000_0000
    ensures r == x || r == x - 0x1_0000_0000_0000_0000
  {
    if x < 0x8000_0000_0000_0000 then x else x - 0x1_0000_0000_0000_0000
  }

  /** Sign extension of the low 14 bits of a value. */
  function SignExt14(x: nat): (r: int)
    requires x < 0x4000
    ensures -0x2000 <= r < 0x2000
    ensures r == x || r == x - 0x4000
  {
    if x < 0x2000 then x else x - 0x4000
  }

  /** Bitwise OR of two naturals, one bit at a time from the least
      significant. */
  function BitOr(a: nat, b: nat): (r: nat)
    decreases a + b
  {
    if a == 0 then b
    else if b == 0 then a
    else 2 * BitOr(a / 2, b / 2) + (if a % 2 == 1 || b % 2 == 1 then 1 else 0)
  }

  /** Quotient and remainder are determined by any decomposition
      `a == q * d + m` with `0 <= m < d`. */
  lemma DivModUnique(a: int, d: int, q: int, m: int)
    requires 0 <= m < d && a == q * d + m
    ensures a / d == q && a % d == m
  {
    var q0, m0 := a / d, a % d;
    assert (q - q0) * d == m0 - m;
    if q > q0 {
      MulAtLeast(q - q0, d);
    } else if q < q0 {
      MulAtLeast(q0 - q, d);
    }
  }

  lemma DivModSplit(w: int, p: int)
    requires p > 0
    ensures w == (w / p) * p + w % p && 0 <= w % p < p
  {
  }

  /** Reducing one summand modulo `m` does not change the sum modulo `m`. */
  lemma AddMod(a: int, x: int, m: int)
    requires m > 0
    ensures (a + x % m) % m == (a + x) % m
  {
    DivModSplit(x, m);
    DivModSplit(a + x, m);
    var k1, k2 := (a + x) / m, x / m;
    assert a + x % m == (k1 - k2) * m + (a + x) % m by {
      assert (k1 - k2) * m == k1 * m - k2 * m;
    }
    DivModUnique(a + x % m, m, k1 - k2, (a + x) % m);
  }

  lemma DivAtMost(w: nat, p: nat)
    requires p >= 1
    ensures w / p <= w
  {
    DivModSplit(w, p);
    MulMonotone(1, p, w / p);
  }

  /** A quotient is below `n` when the dividend is below `p * n`. */
  lemma DivBelow(w: nat, p: nat, n: nat)
    requires p > 0 && w < p * n
    ensures w / p < n
  {
    var a := w / p;
    if a >= n {
      MulMonotone(n, a, p);
    }
  }

  /** Dividing by `a` and then by `b` is dividing by `a * b`. */
  lemma DivDiv(x: nat, a: nat, b: nat)
    requires a > 0 && b > 0
    ensures x / a / b == x / (a * b)
  {
    var q, m := x / a / b, x / a % b;
    DivModSplit(x, a);
    DivModSplit(x / a, b);
    MulMonotone(m, b - 1, a);
    assert x == (a * b) * q + (a * m + x % a) by {
      assert x == (q * b + m) * a + x % a;
    }
    DivModUnique(x, a * b, q, a * m + x % a);
  }

  lemma MulMonotone(a: int, c: int, q: nat)
    requires a <= c
    ensures a * q <= c * q
  {
    assert c * q - a * q == (c - a) * q;
  }

  lemma MulAtLeast(k: int, d: int)
    requires k >= 1 && d > 0
    ensures k * d >= d
  {
    assert k * d == (k - 1) * d + d;
  }
}
