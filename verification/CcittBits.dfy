/** The CCITT `BitReader` (src/filters/ccitt.rs): an accumulator, a count of available bits and a byte cursor
    that together stand for one position in the bit stream of the data, most significant bit first. */
module CcittBits {
  import opened Bits

  /** Bit `k` of the data, zero past its end. */
  predicate StreamBit(data: seq<byte>, k: nat) {
    k < 8 * |data| && Bit(data[k / 8], 7 - k % 8)
  }

  function Stream(data: seq<byte>, pos: nat, n: nat): (bits: seq<bool>)
    ensures |bits| == n
  {
    seq(n, i requires 0 <= i < n => StreamBit(data, pos + i))
  }

  /** The number whose lowest bit is the first of `bits`. */
  function Value(bits: seq<bool>): nat {
    if bits == [] then 0 else (if bits[0] then 1 else 0) + 2 * Value(bits[1..])
  }

  /** `u8::reverse_bits` */
  function ReverseBits(b: byte): nat {
    Value(seq(8, i requires 0 <= i < 8 => Bit(b, 7 - i)))
  }

  lemma {:induction false} ValueBound(bits: seq<bool>)
    ensures Value(bits) < Pow2(|bits|)
  {
    if bits != [] { ValueBound(bits[1..]); }
  }

  lemma ValueNone()
    ensures Value([]) == 0 && Pow2(0) == 1
  {
  }

  lemma ValueStep(bit: bool, bits: seq<bool>)
    ensures Value([bit] + bits) == (if bit then 1 else 0) + 2 * Value(bits)
  {
    assert ([bit] + bits)[1..] == bits;
  }

  lemma Doubled(x: nat, n: nat)
    ensures x * Pow2(n + 1) == 2 * (x * Pow2(n))
  {
  }

  lemma {:induction false} ValueAppend(a: seq<bool>, b: seq<bool>)
    ensures Value(a + b) == Value(a) + Value(b) * Pow2(|a|)
  {
    hide Value, Pow2;
    if a == [] {
      assert a + b == b;
      ValueNone();
    } else {
      var first, rest := a[0], a[1..];
      assert a == [first] + rest && a + b == [first] + (rest + b);
      ValueAppend(rest, b);
      ValueStep(first, rest);
      ValueStep(first, rest + b);
      Doubled(Value(b), |rest|);
    }
  }

  lemma {:induction false} ValueZeros(n: nat)
    ensures Value(Repeat(false, n)) == 0
  {
    if n > 0 {
      assert Repeat(false, n)[1..] == Repeat(false, n - 1);
      ValueZeros(n - 1);
    }
  }

  /** Masking keeps the first bits, shifting drops them. */
  lemma ValueSplit(bits: seq<bool>, n: nat)
    requires n <= |bits|
    ensures Value(bits) % Pow2(n) == Value(bits[..n]) && Value(bits) / Pow2(n) == Value(bits[n..])
  {
    hide Value, Pow2;
    assert bits == bits[..n] + bits[n..];
    ValueAppend(bits[..n], bits[n..]);
    ValueBound(bits[..n]);
    DivMod(Value(bits[..n]), Value(bits[n..]), Pow2(n));
  }

  lemma StreamSplit(data: seq<byte>, pos: nat, m: nat, n: nat)
    ensures Stream(data, pos, m + n) == Stream(data, pos, m) + Stream(data, pos + m, n)
    ensures Stream(data, pos, m + n)[..m] == Stream(data, pos, m)
    ensures Stream(data, pos, m + n)[m..] == Stream(data, pos + m, n)
  {
    hide StreamBit;
  }

  lemma StreamPastEnd(data: seq<byte>, pos: nat, n: nat)
    requires pos >= 8 * |data|
    ensures Stream(data, pos, n) == Repeat(false, n)
  {
    forall i | 0 <= i < n ensures Stream(data, pos, n)[i] == false {
      assert !StreamBit(data, pos + i);
    }
  }

  lemma StreamByte(data: seq<byte>, i: nat)
    requires i < |data|
    ensures Value(Stream(data, 8 * i, 8)) == ReverseBits(data[i])
  {
    hide Bit, Value;
    var reversed := seq(8, k requires 0 <= k < 8 => Bit(data[i], 7 - k));
    forall k | 0 <= k < 8 ensures Stream(data, 8 * i, 8)[k] == reversed[k] {
      assert (8 * i + k) / 8 == i && (8 * i + k) % 8 == k;
      assert StreamBit(data, 8 * i + k) == Bit(data[i], 7 - k);
    }
    assert Stream(data, 8 * i, 8) == reversed;
  }

  /** Loading a byte above the available bits. */
  lemma LoadByte(data: seq<byte>, pos: nat, avail: nat, i: nat)
    requires i < |data| && pos + avail == 8 * i
    ensures var acc := Value(Stream(data, pos, avail));
      Or(acc, ReverseBits(data[i]) * Pow2(avail)) == Value(Stream(data, pos, avail + 8))
  {
    hide Value, Or, Pow2, ReverseBits, Stream;
    var acc := Value(Stream(data, pos, avail));
    ValueBound(Stream(data, pos, avail));
    OrDisjoint(acc, ReverseBits(data[i]), avail);
    StreamByte(data, i);
    StreamSplit(data, pos, avail, 8);
    ValueAppend(Stream(data, pos, avail), Stream(data, 8 * i, 8));
  }

  /** Bits supplied past the end are zeros, which the accumulator already holds. */
  lemma LoadNothing(data: seq<byte>, pos: nat, avail: nat, count: nat)
    requires pos + avail >= 8 * |data| && avail <= count
    ensures Value(Stream(data, pos, avail)) == Value(Stream(data, pos, count))
  {
    hide Value, Stream, Pow2;
    StreamSplit(data, pos, avail, count - avail);
    StreamPastEnd(data, pos + avail, count - avail);
    ValueZeros(count - avail);
    ValueAppend(Stream(data, pos, avail), Repeat(false, count - avail));
  }

  /** The accumulator as the value of `avail` stream bits, masked and shifted. */
  lemma AccSplit(data: seq<byte>, pos: nat, avail: nat, count: nat)
    ensures count <= avail ==> Value(Stream(data, pos, avail)) % Pow2(count) == Value(Stream(data, pos, count))
    ensures count <= avail ==>
      Value(Stream(data, pos, avail)) / Pow2(count) == Value(Stream(data, pos + count, avail - count))
    ensures count > avail ==> Value(Stream(data, pos, avail)) / Pow2(count) == 0
  {
    hide Value, Stream, Pow2;
    if count <= avail {
      StreamSplit(data, pos, count, avail - count);
      ValueSplit(Stream(data, pos, avail), count);
    } else {
      ValueBound(Stream(data, pos, avail));
      Pow2Monotone(avail, count);
      DivMod(Value(Stream(data, pos, avail)), 0, Pow2(count));
    }
  }

  /** Reads of more bits than this would shift a loaded byte out of the 32-bit accumulator. */
  const MAX_READ: nat := 25

  class BitReader {
    const data: seq<byte>
    var bytePos: nat
    var bitAcc: nat
    var bitsAvail: nat
    /** The position in the bit stream that the three fields stand for. */
    ghost var pos: nat

    ghost predicate Valid()
      reads this
    {
      && bytePos <= |data| && bitsAvail <= 32
      && bitAcc == Value(Stream(data, pos, bitsAvail))
      && pos + bitsAvail >= 8 * bytePos
      && (bytePos < |data| ==> pos + bitsAvail == 8 * bytePos)
    }

    /** Bits counted as available that the data does not have. */
    ghost function Surplus(): nat
      reads this
      requires Valid()
    {
      pos + bitsAvail - 8 * bytePos
    }

    /** Where the reader takes the data to end: behind its last bit, or behind the last bit claimed beyond it. */
    ghost function End(): nat
      reads this
      requires Valid()
    {
      8 * |data| + Surplus()
    }

    constructor (data: seq<byte>)
      ensures Valid() && this.data == data && pos == 0 && bytePos == 0 && bitsAvail == 0 && End() == 8 * |data|
    {
      this.data := data;
      bytePos := 0;
      bitAcc := 0;
      bitsAvail := 0;
      pos := 0;
      new;
      NoBits(data);
    }

    /** After loading for `count` bits: no surplus and less than a byte too many, or the data is used up
        and exactly `count` bits are claimed. */
    ghost predicate JustLoaded(count: nat)
      reads this
    {
      (pos + bitsAvail == 8 * bytePos && bitsAvail < count + 8) || (bytePos == |data| && bitsAvail == count)
    }

    /** `is_at_end` */
    predicate IsAtEnd()
      reads this
    {
      bytePos >= |data| && bitsAvail == 0
    }

    /** `ensure_bits` */
    method EnsureBits(count: nat) returns (ok: bool)
      requires Valid() && count <= MAX_READ
      modifies `bytePos, `bitAcc, `bitsAvail
      ensures Valid()
      ensures ok <==> !(count > 0 && old(IsAtEnd()))
      ensures ok ==> bitsAvail >= count
      ensures !ok ==> IsAtEnd()
      ensures old(bytePos) <= bytePos
      ensures old(bitsAvail) >= count ==> bytePos == old(bytePos) && bitsAvail == old(bitsAvail)
      ensures ok && old(bitsAvail) < count ==> JustLoaded(count)
      ensures End() == if ok then Max(old(End()), pos + count) else old(End())
      ensures count <= 1 ==> Surplus() == old(Surplus())
    {
      hide Value, Stream, Or, Pow2, ReverseBits;
      while bitsAvail < count
        invariant Valid() && End() == old(End())
        invariant old(bitsAvail) < count <= bitsAvail ==> JustLoaded(count)
        invariant count <= 1 ==> Surplus() == old(Surplus())
        invariant old(bytePos) <= bytePos
        invariant IsAtEnd() ==> old(IsAtEnd())
        invariant old(IsAtEnd()) ==> bytePos == old(bytePos) && bitsAvail == old(bitsAvail)
        invariant old(bitsAvail) >= count ==> bytePos == old(bytePos) && bitsAvail == old(bitsAvail)
        decreases |data| - bytePos
      {
        if bytePos >= |data| {
          if bitsAvail == 0 {
            return false;
          }
          LoadNothing(data, pos, bitsAvail, count);
          bitsAvail := count;
          return true;
        }
        LoadByte(data, pos, bitsAvail, bytePos);
        var value := ReverseBits(data[bytePos]);
        bytePos := bytePos + 1;
        bitAcc := Or(bitAcc, value * Pow2(bitsAvail));
        bitsAvail := bitsAvail + 8;
      }
      return true;
    }

    /** `peek_bits`: the next bits, the first one lowest; the position does not move. */
    method PeekBits(count: nat) returns (r: Option<nat>)
      requires Valid() && count <= MAX_READ
      modifies `bytePos, `bitAcc, `bitsAvail
      ensures Valid()
      ensures r == if count > 0 && old(IsAtEnd()) then None else Some(Value(Stream(data, pos, count)))
      ensures r.Some? ==> bitsAvail >= count
      ensures old(bitsAvail) >= count ==> bytePos == old(bytePos) && bitsAvail == old(bitsAvail)
      ensures r.Some? && old(bitsAvail) < count ==> JustLoaded(count)
      ensures End() == if r.Some? then Max(old(End()), pos + count) else old(End())
      ensures count <= 1 ==> Surplus() == old(Surplus())
      ensures r.None? ==> IsAtEnd()
    {
      hide Value, Stream, Pow2;
      var ok := EnsureBits(count);
      if !ok {
        return None;
      }
      AccSplit(data, pos, bitsAvail, count);
      return Some(bitAcc % Pow2(count));
    }

    /** `consume_bits` */
    method ConsumeBits(count: nat)
      requires Valid() && count < 32
      modifies `bitAcc, `bitsAvail, `pos
      ensures Valid()
      ensures bitsAvail == SaturatingSub(old(bitsAvail), count)
      ensures pos == old(pos) + (old(bitsAvail) - bitsAvail)
      ensures Surplus() == old(Surplus()) && End() == old(End())
    {
      hide Value, Stream, Pow2;
      AccSplit(data, pos, bitsAvail, count);
      bitAcc := bitAcc / Pow2(count);
      pos := pos + if count <= bitsAvail then count else bitsAvail;
      bitsAvail := SaturatingSub(bitsAvail, count);
      if bitsAvail == 0 {
        NoBitsAt(data, pos);
      }
    }

    /** `read_bits`: the next bits, and the position moves past them. */
    method ReadBits(count: nat) returns (r: Option<nat>)
      requires Valid() && count <= MAX_READ
      modifies this
      ensures Valid()
      ensures r == if count > 0 && old(IsAtEnd()) then None else Some(Value(Stream(data, old(pos), count)))
      ensures pos == old(pos) + if r.Some? then count else 0
      ensures End() == if r.Some? then Max(old(End()), old(pos) + count) else old(End())
      ensures count <= 1 ==> Surplus() == old(Surplus())
      ensures r.None? ==> IsAtEnd()
    {
      hide Value, Stream;
      r := PeekBits(count);
      if r.Some? {
        ConsumeBits(count);
      }
    }

    /** `align_byte`: the position moves to a byte boundary exactly when the surplus bits, if any, are whole bytes. */
    method AlignByte()
      requires Valid()
      modifies `bitAcc, `bitsAvail, `pos
      ensures Valid() && bitsAvail % 8 == 0
      ensures pos == old(pos) + old(bitsAvail) % 8
      ensures pos % 8 == 0 <==> old(Surplus()) % 8 == 0
      ensures Surplus() == old(Surplus())
    {
      hide Value, Stream;
      var rem := bitsAvail % 8;
      if rem != 0 {
        ConsumeBits(rem);
      }
      BoundaryBySurplus(pos, bitsAvail, bytePos, Surplus());
    }
  }

  /** The reader reports the end of data exactly at the end it has come to believe in. */
  lemma AtEndExactly(reader: BitReader)
    requires reader.Valid()
    ensures reader.pos <= reader.End() && (reader.IsAtEnd() <==> reader.pos == reader.End())
  {
    hide Value, Stream;
  }

  /** All that a bit reader's future depends on: its position, and where it takes the data to end. */
  datatype Cursor = Cursor(pos: nat, end: nat)

  ghost function At(reader: BitReader): Cursor
    reads reader
    requires reader.Valid()
  {
    Cursor(reader.pos, reader.End())
  }

  /** After a look at `window` bits and a move over `width` of them. */
  function Past(c: Cursor, width: nat, window: nat): Cursor {
    Cursor(c.pos + width, Max(c.end, c.pos + window))
  }

  /** The bits stand in the data from bit `pos` on. */
  ghost predicate Holds(data: seq<byte>, pos: nat, bits: seq<bool>) {
    bits == Stream(data, pos, |bits|) && pos + |bits| <= 8 * |data|
  }

  lemma HoldsBoth(data: seq<byte>, pos: nat, a: seq<bool>, b: seq<bool>)
    ensures Holds(data, pos, a + b) <==> Holds(data, pos, a) && Holds(data, pos + |a|, b)
  {
    hide Stream;
    StreamSplit(data, pos, |a|, |b|);
    assert (a + b)[..|a|] == a && (a + b)[|a|..] == b;
  }

  lemma BoundaryBySurplus(pos: nat, avail: nat, bytePos: nat, surplus: nat)
    requires pos + avail == 8 * bytePos + surplus && avail % 8 == 0
    ensures pos % 8 == surplus % 8
  {
    assert pos == 8 * (bytePos - avail / 8) + surplus;
  }

  lemma NoBits(data: seq<byte>)
    ensures Value(Stream(data, 0, 0)) == 0
  {
  }

  lemma NoBitsAt(data: seq<byte>, pos: nat)
    ensures Value(Stream(data, pos, 0)) == 0
  {
  }

  /** A peek past the end followed by `align_byte` can leave the reader inside a byte of the data:
      it then still delivers bit 4 of the only byte, 0000 1111. */
  method AlignInsideByte() returns (next: Option<nat>)
    ensures next == Some(1)
  {
    hide Value, Stream;
    var data: seq<byte> := [15];
    var reader := new BitReader(data);
    var peeked := reader.PeekBits(12);
    assert peeked.Some?;
    reader.ConsumeBits(3);
    reader.AlignByte();
    next := reader.ReadBits(1);
    FifthBit();
  }

  lemma FifthBit()
    ensures Value(Stream([15], 4, 1)) == 1
  {
    assert Bit(15, 3) by { assert Bit(1, 0); assert Bit(3, 1); assert Bit(7, 2); }
    assert StreamBit([15], 4);
    assert Stream([15], 4, 1) == [true];
    ValueStep(true, []);
    assert [true] + [] == [true];
  }

  /** Reading in pieces reads the same stream. */
  lemma ReadsCompose(data: seq<byte>, pos: nat, m: nat, n: nat)
    ensures Value(Stream(data, pos, m + n)) == Value(Stream(data, pos, m)) + Value(Stream(data, pos + m, n)) * Pow2(m)
  {
    hide Value, Stream, Pow2;
    StreamSplit(data, pos, m, n);
    ValueAppend(Stream(data, pos, m), Stream(data, pos + m, n));
  }

  // ---------------------------------------------------------------- end-of-line synchronisation

  /** At least eleven zeros, all read since `start`, and then a one that is bit `end - 1`. */
  ghost predicate EolEndsAt(data: seq<byte>, start: nat, end: nat) {
    start + 12 <= end && StreamBit(data, end - 1) && forall k :: end - 12 <= k < end - 1 ==> !StreamBit(data, k)
  }

  lemma OneBit(data: seq<byte>, pos: nat)
    ensures Value(Stream(data, pos, 1)) == if StreamBit(data, pos) then 1 else 0
  {
    hide StreamBit;
    assert Stream(data, pos, 1) == [StreamBit(data, pos)] + [];
    ValueStep(StreamBit(data, pos), []);
    ValueNone();
  }

  /** `sync_to_eol`: stops right after the first end-of-line code, or at the end of data if there is none. */
  method SyncToEol(reader: BitReader) returns (ok: bool)
    requires reader.Valid()
    modifies reader
    ensures reader.Valid()
    ensures ok ==> EolEndsAt(reader.data, old(reader.pos), reader.pos)
    ensures !ok ==> reader.IsAtEnd() && !EolEndsAt(reader.data, old(reader.pos), reader.pos)
    ensures forall end :: old(reader.pos) < end < reader.pos ==> !EolEndsAt(reader.data, old(reader.pos), end)
  {
    hide Value, Stream, StreamBit;
    ghost var start := reader.pos;
    var zeros := 0;
    while true
      invariant reader.Valid() && start <= reader.pos && zeros <= reader.pos - start
      invariant forall k :: reader.pos - zeros <= k < reader.pos ==> !StreamBit(reader.data, k)
      invariant reader.pos - zeros == start || StreamBit(reader.data, reader.pos - zeros - 1)
      invariant forall end :: start < end <= reader.pos ==> !EolEndsAt(reader.data, start, end)
      decreases 8 * |reader.data| + reader.Surplus() - reader.pos
    {
      OneBit(reader.data, reader.pos);
      var bit := reader.ReadBits(1);
      if bit.None? {
        return false;
      }
      if bit.value == 0 {
        zeros := zeros + 1;
      } else {
        if zeros >= 11 {
          return true;
        }
        zeros := 0;
      }
    }
  }
}
