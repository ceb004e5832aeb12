/** Bytes, results and bit-level arithmetic shared by the codec models.
    Machine words are integers in a range; `|`, `^` and bit tests are defined on their binary digits. */
module Bits {

  type byte = b: int | 0 <= b < 256

  datatype Option<+T> = None | Some(value: T)

  datatype Result<+T, +E> = Ok(value: T) | Err(error: E) {
    predicate IsFailure() {
      Err?
    }

    function PropagateFailure<U>(): Result<U, E>
      requires Err?
    {
      Err(error)
    }

    function Extract(): T
      requires Ok?
    {
      value
    }
  }

  /** The error kinds a filter reports; messages are not modelled. `Panic` is no error of the source: its own
      bounds check on an index or a slice stops the program. */
  datatype FilterError = InvalidData | DecompressionError | Jbig2Error | Panic

  function Pow2(n: nat): (p: nat)
    ensures p >= 1
  {
    if n == 0 then 1 else 2 * Pow2(n - 1)
  }

  /** Bit `i` of `x`, bit 0 being the least significant. */
  predicate Bit(x: nat, i: nat) {
    if i == 0 then x % 2 == 1 else Bit(x / 2, i - 1)
  }

  /** Bit `i` is the digit of `2^i`. */
  lemma {:induction false} BitDigit(x: nat, i: nat)
    ensures Bit(x, i) <==> x / Pow2(i) % 2 == 1
  {
    if i > 0 {
      BitDigit(x / 2, i - 1);
      assert x / Pow2(i) == x / 2 / Pow2(i - 1) by { HalvedDiv(x, Pow2(i - 1)); }
    }
  }

  lemma HalvedDiv(x: nat, m: nat)
    requires m > 0
    ensures x / (2 * m) == x / 2 / m
  {
    var h := x / 2;
    var q, r := h / m, h % m;
    assert h == q * m + r;
    assert x == q * (2 * m) + (2 * r + x % 2) by { assert q * (2 * m) == 2 * (q * m); }
    assert 2 * r + x % 2 < 2 * m;
    DivMod(2 * r + x % 2, q, 2 * m);
  }

  function Or(a: nat, b: nat): nat {
    if a == 0 && b == 0 then 0
    else (if a % 2 == 1 || b % 2 == 1 then 1 else 0) + 2 * Or(a / 2, b / 2)
  }

  /** Exclusive or of the low `n` bits. */
  function XorBits(a: nat, b: nat, n: nat): (r: nat)
    ensures r < Pow2(n)
  {
    if n == 0 then 0
    else (if a % 2 == b % 2 then 0 else 1) + 2 * XorBits(a / 2, b / 2, n - 1)
  }

  function Xor(a: byte, b: byte): byte {
    assert Pow2(8) == 256 by { Pow2Eight(); }
    XorBits(a, b, 8)
  }

  lemma Pow2Eight()
    ensures Pow2(8) == 256
  {
    assert Pow2(4) == 16;
  }

  lemma {:induction false} XorBitsTwice(a: nat, b: nat, n: nat)
    requires a < Pow2(n)
    ensures XorBits(XorBits(a, b, n), b, n) == a
  {
    if n > 0 {
      XorBitsTwice(a / 2, b / 2, n - 1);
      var r := XorBits(a, b, n);
      assert r / 2 == XorBits(a / 2, b / 2, n - 1);
      assert r % 2 == if a % 2 == b % 2 then 0 else 1;
    }
  }

  lemma XorTwice(a: byte, b: byte)
    ensures Xor(Xor(a, b), b) == a
  {
    Pow2Eight();
    XorBitsTwice(a, b, 8);
  }

  lemma {:induction false} XorBitsBit(a: nat, b: nat, n: nat, i: nat)
    ensures Bit(XorBits(a, b, n), i) == (i < n && Bit(a, i) != Bit(b, i))
  {
    if n == 0 {
      BitZero(i);
    } else {
      var r := XorBits(a, b, n);
      assert r / 2 == XorBits(a / 2, b / 2, n - 1) && r % 2 == if a % 2 == b % 2 then 0 else 1;
      if i > 0 { XorBitsBit(a / 2, b / 2, n - 1, i - 1); }
    }
  }

  /** Exclusive or, bit by bit. */
  lemma XorBit(a: byte, b: byte, i: nat)
    requires i < 8
    ensures Bit(Xor(a, b), i) == (Bit(a, i) != Bit(b, i))
  {
    XorBitsBit(a, b, 8, i);
  }

  lemma {:induction false} XorBitsZero(a: nat, n: nat)
    requires a < Pow2(n)
    ensures XorBits(a, 0, n) == a
  {
    if n > 0 { XorBitsZero(a / 2, n - 1); }
  }

  lemma XorZero(a: byte)
    ensures Xor(a, 0) == a
  {
    Pow2Eight();
    XorBitsZero(a, 8);
  }

  lemma {:induction false} BitZero(i: nat)
    ensures !Bit(0, i)
  {
    if i > 0 { BitZero(i - 1); }
  }

  lemma {:induction false} OrBit(a: nat, b: nat, i: nat)
    ensures Bit(Or(a, b), i) == (Bit(a, i) || Bit(b, i))
  {
    if a == 0 && b == 0 {
      BitZero(i);
    } else if i > 0 {
      OrBit(a / 2, b / 2, i - 1);
    }
  }

  lemma {:induction false} BitOfPow2(k: nat, i: nat)
    ensures Bit(Pow2(k), i) == (i == k)
  {
    if k == 0 {
      if i > 0 { BitZero(i - 1); }
    } else if i > 0 {
      BitOfPow2(k - 1, i - 1);
    }
  }

  lemma {:induction false} OrBound(a: nat, b: nat, n: nat)
    requires a < Pow2(n) && b < Pow2(n)
    ensures Or(a, b) < Pow2(n)
  {
    if n > 0 && (a != 0 || b != 0) {
      OrBound(a / 2, b / 2, n - 1);
    }
  }

  lemma {:induction false} OrZero(b: nat)
    ensures Or(0, b) == b
  {
    if b > 0 { OrZero(b / 2); }
  }

  /** When the operands occupy different bit ranges, `|` is addition. */
  lemma {:induction false} OrDisjoint(low: nat, high: nat, n: nat)
    requires low < Pow2(n)
    ensures Or(low, high * Pow2(n)) == low + high * Pow2(n)
  {
    if n == 0 {
      OrZero(high);
    } else {
      var shifted := high * Pow2(n);
      assert shifted == 2 * (high * Pow2(n - 1));
      if low != 0 || shifted != 0 {
        OrDisjoint(low / 2, high, n - 1);
      }
    }
  }

  lemma {:induction false} OrCommutes(a: nat, b: nat)
    ensures Or(a, b) == Or(b, a)
  {
    if a != 0 || b != 0 { OrCommutes(a / 2, b / 2); }
  }

  /** `b | 1 << i` */
  function SetBit(b: byte, i: nat): byte
    requires i < 8
  {
    Pow2Eight();
    Pow2Monotone(i + 1, 8);
    OrBound(b, Pow2(i), 8);
    Or(b, Pow2(i))
  }

  lemma SetBitSets(b: byte, i: nat, k: nat)
    requires i < 8
    ensures Bit(SetBit(b, i), k) == (Bit(b, k) || k == i)
  {
    hide Bit, Or, Pow2;
    OrBit(b, Pow2(i), k);
    BitOfPow2(i, k);
  }

  lemma {:induction false} Pow2Add(m: nat, n: nat)
    ensures Pow2(m + n) == Pow2(m) * Pow2(n)
  {
    if m > 0 {
      Pow2Add(m - 1, n);
      assert Pow2(m + n) == 2 * (Pow2(m - 1) * Pow2(n));
    }
  }

  lemma {:induction false} Pow2Monotone(m: nat, n: nat)
    requires m <= n
    ensures Pow2(m) <= Pow2(n)
    decreases n
  {
    if m < n { Pow2Monotone(m, n - 1); }
  }

  /** Big-endian 32-bit word of the four bytes at `pos`. */
  function BeU32(data: seq<byte>, pos: nat): (v: nat)
    requires pos + 4 <= |data|
    ensures v < 0x1_0000_0000
    ensures v == 16_777_216 * data[pos] as int + 65_536 * data[pos + 1] as int + 256 * data[pos + 2] as int
      + data[pos + 3] as int
  {
    var a: int, b: int, c: int, d: int := data[pos], data[pos + 1], data[pos + 2], data[pos + 3];
    ((a * 256 + b) * 256 + c) * 256 + d
  }

  function BeBytes(v: nat): (s: seq<byte>)
    requires v < 0x1_0000_0000
    ensures |s| == 4
  {
    [v / 0x100_0000, v / 0x1_0000 % 256, v / 256 % 256, v % 256]
  }

  lemma BeRoundTrip(v: nat)
    requires v < 0x1_0000_0000
    ensures BeU32(BeBytes(v), 0) == v
  {
    assert v / 0x1_0000 == v / 256 / 256;
    assert v / 0x100_0000 == v / 0x1_0000 / 256;
  }

  lemma BeBytesOfWord(data: seq<byte>, pos: nat)
    requires pos + 4 <= |data|
    ensures BeBytes(BeU32(data, pos)) == data[pos..pos + 4]
  {
    var a: int, b: int, c: int, d: int := data[pos], data[pos + 1], data[pos + 2], data[pos + 3];
    var v := BeU32(data, pos);
    assert v == 256 * (256 * (256 * a + b) + c) + d;
    assert v / 256 == 256 * (256 * a + b) + c;
    assert v / 0x1_0000 == v / 256 / 256 == 256 * a + b;
    assert v / 0x100_0000 == v / 0x1_0000 / 256 == a;
  }

  /** `div_ceil(8)` */
  function CeilDiv8(n: nat): (r: nat)
    ensures n <= 8 * r < n + 8
  {
    (n + 7) / 8
  }

  function SaturatingSub(a: nat, b: nat): nat {
    if a >= b then a - b else 0
  }

  lemma ConcatAssoc<T>(a: seq<T>, b: seq<T>, c: seq<T>)
    ensures a + (b + c) == (a + b) + c
  {
  }

  function Repeat<T>(x: T, n: nat): (s: seq<T>)
    ensures |s| == n && forall i :: 0 <= i < n ==> s[i] == x
  {
    seq(n, _ => x)
  }

  function Min(a: nat, b: nat): nat {
    if a <= b then a else b
  }

  function Max(a: nat, b: nat): nat {
    if a >= b then a else b
  }

  type Word = v: int | 0 <= v < 0x1_0000_0000

  /** `concat` of a list of byte strings. */
  function Concat(parts: seq<seq<byte>>): seq<byte> {
    if parts == [] then [] else Concat(parts[..|parts| - 1]) + parts[|parts| - 1]
  }

  lemma ConcatSnoc(parts: seq<seq<byte>>, last: seq<byte>)
    ensures Concat(parts + [last]) == Concat(parts) + last
  {
    assert (parts + [last])[..|parts|] == parts;
  }

  lemma DivMod(low: nat, high: nat, m: nat)
    requires low < m
    ensures (low + high * m) / m == high && (low + high * m) % m == low
  {
    var x := low + high * m;
    var d, r := x / m, x % m;
    assert x == d * m + r;
    if d > high {
      assert (d - high) * m == low - r;
      AtLeast(d - high, m);
    } else if d < high {
      assert (high - d) * m == r - low;
      AtLeast(high - d, m);
    }
  }

  lemma AtLeast(n: nat, m: nat)
    requires n >= 1
    ensures n * m >= m
  {
  }
}
