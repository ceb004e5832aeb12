/** `decode_ascii85` and `ascii85_tuple_to_u32` (src/filters/mod.rs), against the encoding of
    section 7.4.3 of ISO 32000-1. */
module Ascii85 {
  import opened Bits

  type Digit = d: int | 0 <= d < 85
  type Tuple = t: seq<Digit> | |t| < 5 witness []

  const TILDE: byte := 126
  const LETTER_Z: byte := 122
  const BANG: byte := 33
  const LETTER_U: byte := 117

  /** `u8::is_ascii_whitespace`: space, tab, line feed, form feed, carriage return. */
  predicate Whitespace(b: byte) {
    b == 32 || b == 9 || b == 10 || b == 12 || b == 13
  }

  /** The positional value of five digits. */
  function TupleSum(t: seq<Digit>): nat
    requires |t| == 5
  {
    t[0] as int * 52200625 + t[1] as int * 614125 + t[2] as int * 7225 + t[3] as int * 85 + t[4] as int
  }

  /** Base-85 digits of a word, most significant first. */
  function Digits(v: Word): (t: seq<Digit>)
    ensures |t| == 5
  {
    var q1 := v / 85;
    var q2 := q1 / 85;
    var q3 := q2 / 85;
    [q3 / 85, q3 % 85, q2 % 85, q1 % 85, v % 85]
  }

  lemma DigitsSum(v: Word)
    ensures TupleSum(Digits(v)) == v
  {
    var q1 := v / 85;
    var q2 := q1 / 85;
    var q3 := q2 / 85;
    var q4 := q3 / 85;
    assert v == 85 * q1 + v % 85 && q1 == 85 * q2 + q1 % 85 && q2 == 85 * q3 + q2 % 85 && q3 == 85 * q4 + q3 % 85;
  }

  lemma LastDigit(q: nat, d: Digit)
    ensures (85 * q + d as int) / 85 == q && (85 * q + d as int) % 85 == d as int
  {
  }

  lemma SumDigits(t: seq<Digit>)
    requires |t| == 5 && TupleSum(t) < 0x1_0000_0000
    ensures Digits(TupleSum(t)) == t
  {
    var q3: nat := 85 * t[0] as int + t[1] as int;
    var q2 := 85 * q3 + t[2] as int;
    var q1 := 85 * q2 + t[3] as int;
    assert TupleSum(t) == 85 * q1 + t[4] as int;
    LastDigit(q1, t[4]);
    LastDigit(q2, t[3]);
    LastDigit(q3, t[2]);
    LastDigit(t[0] as int, t[1]);
  }

  /** `ascii85_tuple_to_u32`: the 32-bit word that has the five digits, refused when there is none.
      The sum cannot overflow 64 bits. */
  function TupleToU32(t: seq<Digit>): (r: Result<nat, FilterError>)
    requires |t| == 5
    ensures r.Ok? ==> r.value < 0x1_0000_0000 && Digits(r.value) == t
    ensures r.Err? ==> r.error == InvalidData && forall v: Word :: Digits(v) != t
  {
    if TupleSum(t) < 0x1_0000_0000 then
      SumDigits(t);
      Ok(TupleSum(t))
    else
      NoWord(t);
      Err(InvalidData)
  }

  lemma NoWord(t: seq<Digit>)
    requires |t| == 5 && TupleSum(t) >= 0x1_0000_0000
    ensures forall v: Word :: Digits(v) != t
  {
    hide Digits, TupleSum;
    forall v: Word ensures Digits(v) != t { DigitsSum(v); }
  }

  // ---------------------------------------------------------------- decoder

  /** `tuple.resize(5, 84)` */
  function Completed(tuple: Tuple): (t: seq<Digit>)
    ensures |t| == 5
  {
    tuple + Repeat(84 as Digit, 5 - |tuple|)
  }

  /** What the end of input makes of an unfinished tuple: padded with the top digit, one byte fewer
      than its digits. */
  function Flushed(tuple: Tuple, out: seq<byte>, limit: nat): Result<seq<byte>, FilterError> {
    if tuple == [] then Ok(out)
    else
      var value := TupleToU32(Completed(tuple));
      if value.Err? then Err(value.error)
      else if |out| + (|tuple| - 1) > limit then Err(DecompressionError)
      else Ok(out + BeBytes(value.value)[..|tuple| - 1])
  }

  datatype Step = Done(r: Result<seq<byte>, FilterError>) | More(tuple: Tuple, out: seq<byte>)

  /** The loop body for one byte. */
  function StepByte(b: byte, tuple: Tuple, out: seq<byte>, limit: nat): Step {
    if Whitespace(b) then More(tuple, out)
    else if b == TILDE then Done(Flushed(tuple, out, limit))
    else if b == LETTER_Z then
      if |out| + 4 > limit then Done(Err(DecompressionError)) else More(tuple, out + [0, 0, 0, 0])
    else if !(BANG <= b <= LETTER_U) then Done(Err(InvalidData))
    else if |tuple| < 4 then More(tuple + [b - BANG], out)
    else
      var value := TupleToU32(tuple + [b - BANG]);
      if value.Err? then Done(Err(value.error))
      else if |out| + 4 > limit then Done(Err(DecompressionError))
      else More([], out + BeBytes(value.value))
  }

  /** What the decoder does with each byte: white space is skipped, `~` ends the input, `z` stands for four zeros, the
      characters from `!` to `u` are digits, and any other is refused. */
  lemma ByteExactly(b: byte, tuple: Tuple, out: seq<byte>, limit: nat)
    ensures var step := StepByte(b, tuple, out, limit);
      && (b == ' ' as int || b == '\t' as int || b == '\n' as int || b == 12 || b == '\r' as int ==>
            step == More(tuple, out))
      && (b == '~' as int ==> step == Done(Flushed(tuple, out, limit)))
      && (b == 'z' as int && |out| + 4 <= limit ==> step == More(tuple, out + [0, 0, 0, 0]))
      && (b == 'z' as int && |out| + 4 > limit ==> step == Done(Err(DecompressionError)))
      && ('!' as int <= b <= 'u' as int && |tuple| < 4 ==> step == More(tuple + [b - 33], out))
      && ('!' as int <= b <= 'u' as int && |tuple| == 4 ==>
            match TupleToU32(tuple + [b - 33])
            case Err(e) => step == Done(Err(e))
            case Ok(v) =>
              step == if |out| + 4 > limit then Done(Err(DecompressionError)) else More([], out + BeBytes(v)))
      && ((b < 33 && b !in {9, 10, 12, 13, 32}) || b in {118, 119, 120, 121, 123, 124, 125} || b > 126 ==>
            step == Done(Err(InvalidData)))
  {
    hide TupleToU32, Flushed;
  }

  function DecodeRest(s: seq<byte>, tuple: Tuple, out: seq<byte>, limit: nat): Result<seq<byte>, FilterError>
    decreases |s|
  {
    if s == [] then Flushed(tuple, out, limit)
    else
      match StepByte(s[0], tuple, out, limit)
      case Done(r) => r
      case More(t, o) => DecodeRest(s[1..], t, o, limit)
  }

  function Decoded(data: seq<byte>, limit: nat): Result<seq<byte>, FilterError> {
    DecodeRest(data, [], [], limit)
  }

  lemma RestAt(data: seq<byte>, i: nat, tuple: Tuple, out: seq<byte>, limit: nat)
    requires i < |data|
    ensures DecodeRest(data[i..], tuple, out, limit) ==
      match StepByte(data[i], tuple, out, limit)
      case Done(r) => r
      case More(t, o) => DecodeRest(data[i + 1..], t, o, limit)
  {
    hide StepByte, Flushed;
    assert data[i..][1..] == data[i + 1..];
  }

  lemma RestAtEnd(tuple: Tuple, out: seq<byte>, limit: nat)
    ensures DecodeRest([], tuple, out, limit) == Flushed(tuple, out, limit)
  {
  }

  /** `decode_ascii85`. */
  method DecodeAscii85(data: seq<byte>, maxOutputBytes: nat) returns (r: Result<seq<byte>, FilterError>)
    ensures r == Decoded(data, maxOutputBytes)
  {
    hide DecodeRest, BeBytes, TupleToU32;
    var result: seq<byte> := [];
    var tuple: seq<Digit> := [];
    var i := 0;
    assert data[0..] == data;
    while i < |data|
      invariant 0 <= i <= |data| && |tuple| < 5 && |result| <= maxOutputBytes
      invariant DecodeRest(data[i..], tuple, result, maxOutputBytes) == Decoded(data, maxOutputBytes)
    {
      RestAt(data, i, tuple, result, maxOutputBytes);
      var value := data[i];
      if Whitespace(value) {
        i := i + 1;
        continue;
      }
      if value == 126 {
        break;
      }
      if value == 122 {
        if 4 > SaturatingSub(maxOutputBytes, |result|) {
          return Err(DecompressionError);
        }
        result := result + [0, 0, 0, 0];
        i := i + 1;
        continue;
      }
      if !(33 <= value <= 117) {
        return Err(InvalidData);
      }
      tuple := tuple + [value - 33];
      if |tuple| == 5 {
        var word := TupleToU32(tuple);
        if word.Err? {
          return Err(word.error);
        }
        if 4 > SaturatingSub(maxOutputBytes, |result|) {
          return Err(DecompressionError);
        }
        result := result + BeBytes(word.value);
        tuple := [];
      }
      i := i + 1;
    }
    RestAtEnd(tuple, result, maxOutputBytes);
    assert i == |data| ==> data[i..] == [];
    if tuple != [] {
      var bytesToTake := |tuple| - 1;
      var word := TupleToU32(Completed(tuple));
      if word.Err? {
        return Err(word.error);
      }
      if bytesToTake > SaturatingSub(maxOutputBytes, |result|) {
        return Err(DecompressionError);
      }
      result := result + BeBytes(word.value)[..bytesToTake];
    }
    return Ok(result);
  }

  // ---------------------------------------------------------------- the encoding of the standard

  function Chars(t: seq<Digit>): (s: seq<byte>)
    ensures |s| == |t|
  {
    seq(|t|, i requires 0 <= i < |t| => t[i] as int + 33)
  }

  /** A group of four bytes: `z` when all are zero, else five digits. */
  function EncodedGroup(group: seq<byte>): seq<byte>
    requires |group| == 4
  {
    var v := BeU32(group, 0);
    if v == 0 then [LETTER_Z] else Chars(Digits(v))
  }

  /** A final group of n = 1, 2 or 3 bytes: the first n + 1 digits of the group completed with zeros. */
  function EncodedPartial(group: seq<byte>): seq<byte>
    requires 1 <= |group| <= 3
  {
    Chars(Digits(BeU32(group + Repeat(0 as byte, 4 - |group|), 0))[..|group| + 1])
  }

  function Encoded(data: seq<byte>): seq<byte> {
    if data == [] then []
    else if |data| < 4 then EncodedPartial(data)
    else EncodedGroup(data[..4]) + Encoded(data[4..])
  }

  // ---------------------------------------------------------------- theorems

  /** Padding with the top digit rounds the kept digits up by less than one kept byte. */
  lemma PaddedSum(v: Word, keep: nat)
    requires 2 <= keep <= 4
    requires keep == 2 ==> v % 0x100_0000 == 0
    requires keep == 3 ==> v % 0x1_0000 == 0
    requires keep == 4 ==> v % 0x100 == 0
    ensures var padded := Digits(v)[..keep] + Repeat(84 as Digit, 5 - keep);
      var unit := if keep == 2 then 0x100_0000 else if keep == 3 then 0x1_0000 else 0x100;
      v <= TupleSum(padded) < v + unit
  {
    DigitsSum(v);
    var d := Digits(v);
    var padded := d[..keep] + Repeat(84 as Digit, 5 - keep);
    if keep == 2 {
      assert padded == [d[0], d[1], 84, 84, 84];
    } else if keep == 3 {
      assert padded == [d[0], d[1], d[2], 84, 84];
    } else {
      assert padded == [d[0], d[1], d[2], d[3], 84];
    }
  }

  /** Raising a word below the next multiple of the dropped bytes keeps the other bytes. */
  lemma KeptBytes(v: Word, raised: nat, kept: nat)
    requires 1 <= kept <= 3
    requires var unit := if kept == 1 then 0x100_0000 else if kept == 2 then 0x1_0000 else 0x100;
      v % unit == 0 && v <= raised < v + unit
    ensures raised < 0x1_0000_0000 && BeBytes(raised)[..kept] == BeBytes(v)[..kept]
  {
    if kept == 1 {
      assert raised / 0x100_0000 == v / 0x100_0000;
    } else if kept == 2 {
      assert raised / 0x1_0000 == v / 0x1_0000;
      assert raised / 0x100_0000 == raised / 0x1_0000 / 0x100 == v / 0x100_0000;
    } else {
      assert raised / 0x100 == v / 0x100;
      assert raised / 0x1_0000 == raised / 0x100 / 0x100 == v / 0x1_0000;
      assert raised / 0x100_0000 == raised / 0x1_0000 / 0x100 == v / 0x100_0000;
    }
  }

  lemma WordOfPartial(group: seq<byte>)
    requires 1 <= |group| <= 3
    ensures var whole := group + Repeat(0 as byte, 4 - |group|);
      var unit := if |group| == 1 then 0x100_0000 else if |group| == 2 then 0x1_0000 else 0x100;
      BeU32(whole, 0) % unit == 0 && BeBytes(BeU32(whole, 0))[..|group|] == group
  {
    var whole := group + Repeat(0 as byte, 4 - |group|);
    BeBytesOfWord(whole, 0);
    assert whole[0..4] == whole && whole[..|group|] == group;
    var a: int, b: int, c: int, d: int := whole[0], whole[1], whole[2], whole[3];
    assert BeU32(whole, 0) == a * 0x100_0000 + b * 0x1_0000 + c * 0x100 + d;
    if |group| == 1 {
      assert b == 0 && c == 0 && d == 0;
    } else if |group| == 2 {
      assert c == 0 && d == 0;
    } else {
      assert d == 0;
    }
  }

  lemma DecodeDigit(d: Digit, rest: seq<byte>, tuple: Tuple, out: seq<byte>, limit: nat)
    ensures DecodeRest([d as int + 33] + rest, tuple, out, limit) ==
      if |tuple| < 4 then DecodeRest(rest, tuple + [d], out, limit)
      else
        var value := TupleToU32(tuple + [d]);
        if value.Err? then Err(value.error)
        else if |out| + 4 > limit then Err(DecompressionError)
        else DecodeRest(rest, [], out + BeBytes(value.value), limit)
  {
    hide TupleToU32, BeBytes, Flushed;
    var s := [d as int + 33] + rest;
    assert s[1..] == rest;
  }

  /** Reading digits that do not complete a tuple. */
  lemma {:induction false} DecodeDigits(t: seq<Digit>, rest: seq<byte>, tuple: Tuple, out: seq<byte>, limit: nat)
    requires |tuple| + |t| < 5
    ensures DecodeRest(Chars(t) + rest, tuple, out, limit) == DecodeRest(rest, tuple + t, out, limit)
    decreases |t|
  {
    hide DecodeRest;
    if t == [] {
      assert Chars(t) + rest == rest && tuple + t == tuple;
    } else {
      assert Chars(t) + rest == [t[0] as int + 33] + (Chars(t[1..]) + rest);
      DecodeDigit(t[0], Chars(t[1..]) + rest, tuple, out, limit);
      DecodeDigits(t[1..], rest, tuple + [t[0]], out, limit);
      assert tuple + [t[0]] + t[1..] == tuple + t;
    }
  }

  lemma DecodeGroup(group: seq<byte>, rest: seq<byte>, out: seq<byte>, limit: nat)
    requires |group| == 4
    ensures DecodeRest(EncodedGroup(group) + rest, [], out, limit) ==
      if |out| + 4 > limit then Err(DecompressionError) else DecodeRest(rest, [], out + group, limit)
  {
    hide DecodeRest, BeBytes, Digits, TupleSum;
    var v := BeU32(group, 0);
    BeBytesOfWord(group, 0);
    assert group[0..4] == group;
    if v == 0 {
      ZeroGroup(group);
      DecodeZero(rest, [], out, limit);
    } else {
      var d := Digits(v);
      DigitsSum(v);
      assert Chars(d) + rest == Chars(d[..4]) + ([d[4] as int + 33] + rest);
      DecodeDigits(d[..4], [d[4] as int + 33] + rest, [], out, limit);
      assert [] + d[..4] == d[..4] && d[..4] + [d[4]] == d;
      DecodeDigit(d[4], rest, d[..4], out, limit);
    }
  }

  lemma ZeroGroup(group: seq<byte>)
    requires |group| == 4 && BeU32(group, 0) == 0
    ensures group == [0, 0, 0, 0]
  {
  }

  /** The end of the encoded data: the end of input, or the end mark with anything after it. */
  predicate AtEnd(rest: seq<byte>) {
    rest == [] || rest[0] == TILDE
  }

  lemma DecodeEnd(rest: seq<byte>, tuple: Tuple, out: seq<byte>, limit: nat)
    requires AtEnd(rest)
    ensures DecodeRest(rest, tuple, out, limit) == Flushed(tuple, out, limit)
  {
    hide Flushed;
  }

  lemma DecodePartial(group: seq<byte>, rest: seq<byte>, out: seq<byte>, limit: nat)
    requires 1 <= |group| <= 3 && AtEnd(rest)
    ensures DecodeRest(EncodedPartial(group) + rest, [], out, limit) ==
      if |out| + |group| > limit then Err(DecompressionError) else Ok(out + group)
  {
    hide DecodeRest, BeBytes, Digits, TupleSum, BeU32;
    var n := |group|;
    var v := BeU32(group + Repeat(0 as byte, 4 - n), 0);
    var t := Digits(v)[..n + 1];
    DecodeDigits(t, rest, [], out, limit);
    assert [] + t == t;
    DecodeEnd(rest, t, out, limit);
    WordOfPartial(group);
    PaddedSum(v, n + 1);
    KeptBytes(v, TupleSum(t + Repeat(84 as Digit, 4 - n)), n);
  }

  /** ASCII85 inverse: decoding the standard's encoding of any bytes returns them when the limit has room,
      and is refused when it has not. */
  lemma {:induction false} RoundTripFrom(data: seq<byte>, rest: seq<byte>, out: seq<byte>, limit: nat)
    requires AtEnd(rest) && |out| <= limit
    ensures DecodeRest(Encoded(data) + rest, [], out, limit) ==
      if |out| + |data| > limit then Err(DecompressionError) else Ok(out + data)
    decreases |data|
  {
    hide DecodeRest, EncodedGroup, EncodedPartial, Flushed;
    if data == [] {
      assert [] + rest == rest && out + [] == out;
      DecodeEnd(rest, [], out, limit);
      FlushNothing(out, limit);
    } else if |data| < 4 {
      DecodePartial(data, rest, out, limit);
    } else {
      ConcatAssoc(EncodedGroup(data[..4]), Encoded(data[4..]), rest);
      DecodeGroup(data[..4], Encoded(data[4..]) + rest, out, limit);
      if |out| + 4 <= limit {
        RoundTripFrom(data[4..], rest, out + data[..4], limit);
        ConcatAssoc(out, data[..4], data[4..]);
        assert data[..4] + data[4..] == data;
      }
    }
  }

  lemma FlushNothing(out: seq<byte>, limit: nat)
    ensures Flushed([], out, limit) == Ok(out)
  {
  }

  lemma RoundTrip(data: seq<byte>, rest: seq<byte>, limit: nat)
    requires AtEnd(rest)
    ensures Decoded(Encoded(data) + rest, limit) == if |data| > limit then Err(DecompressionError) else Ok(data)
  {
    hide DecodeRest, Encoded;
    RoundTripFrom(data, rest, [], limit);
    assert [] + data == data;
  }

  function Stripped(s: seq<byte>): seq<byte> {
    if s == [] then []
    else if Whitespace(s[0]) then Stripped(s[1..])
    else [s[0]] + Stripped(s[1..])
  }

  /** Whitespace anywhere, in any input, changes nothing: neither the result nor the error. */
  lemma {:induction false} WhitespaceIgnoredFrom(s: seq<byte>, tuple: Tuple, out: seq<byte>, limit: nat)
    ensures DecodeRest(s, tuple, out, limit) == DecodeRest(Stripped(s), tuple, out, limit)
    decreases |s|
  {
    hide DecodeRest, StepByte, Flushed;
    if s != [] {
      assert s[0..] == s;
      RestAt(s, 0, tuple, out, limit);
      if Whitespace(s[0]) {
        WhitespaceStep(s[0], tuple, out, limit);
        WhitespaceIgnoredFrom(s[1..], tuple, out, limit);
      } else {
        var stripped := Stripped(s);
        assert stripped[0..] == stripped && stripped[1..] == Stripped(s[1..]);
        RestAt(stripped, 0, tuple, out, limit);
        match StepByte(s[0], tuple, out, limit)
        case Done(r) =>
        case More(t, o) => WhitespaceIgnoredFrom(s[1..], t, o, limit);
      }
    }
  }

  lemma WhitespaceStep(b: byte, tuple: Tuple, out: seq<byte>, limit: nat)
    requires Whitespace(b)
    ensures StepByte(b, tuple, out, limit) == More(tuple, out)
  {
  }

  lemma WhitespaceIgnored(s: seq<byte>, t: seq<byte>, limit: nat)
    requires Stripped(s) == Stripped(t)
    ensures Decoded(s, limit) == Decoded(t, limit)
  {
    hide DecodeRest;
    WhitespaceIgnoredFrom(s, [], [], limit);
    WhitespaceIgnoredFrom(t, [], [], limit);
  }

  // ---------------------------------------------------------------- what is accepted

  /** The characters that count: those before the end mark that are not whitespace. */
  function Text(s: seq<byte>): seq<byte> {
    if s == [] || s[0] == TILDE then []
    else if Whitespace(s[0]) then Text(s[1..])
    else [s[0]] + Text(s[1..])
  }

  predicate IsDigit(b: byte) {
    BANG <= b <= LETTER_U
  }

  predicate Spelled(text: seq<byte>) {
    forall i :: 0 <= i < |text| ==> text[i] == LETTER_Z || IsDigit(text[i])
  }

  function DigitsIn(text: seq<byte>): seq<Digit> {
    if text == [] then []
    else (if IsDigit(text[0]) then [text[0] - BANG] else []) + DigitsIn(text[1..])
  }

  function ZerosIn(text: seq<byte>): nat {
    if text == [] then 0 else (if text[0] == LETTER_Z then 1 else 0) + ZerosIn(text[1..])
  }

  /** The digits taken five by five, the last ones completed with the top digit, all make 32-bit words. */
  predicate WordsFit(ds: seq<Digit>) {
    if |ds| < 5 then ds == [] || TupleSum(Completed(ds)) < 0x1_0000_0000
    else TupleSum(ds[..5]) < 0x1_0000_0000 && WordsFit(ds[5..])
  }

  /** Bytes that `n` digits decode to; a lone last digit decodes to none. */
  function DigitBytes(n: nat): nat {
    n / 5 * 4 + if n % 5 == 0 then 0 else n % 5 - 1
  }

  lemma DigitStep(tuple: Tuple, d: Digit, ds: seq<Digit>)
    ensures |tuple| < 4 ==> tuple + ([d] + ds) == (tuple + [d]) + ds
    ensures |tuple| == 4 ==>
      && (WordsFit(tuple + ([d] + ds)) <==> TupleSum(tuple + [d]) < 0x1_0000_0000 && WordsFit(ds))
      && DigitBytes(|tuple + ([d] + ds)|) == 4 + DigitBytes(|ds|)
  {
    hide TupleSum, Completed;
    var all := tuple + ([d] + ds);
    if |tuple| == 4 {
      assert all[..5] == tuple + [d] && all[5..] == ds;
    }
  }

  lemma TextStep(s: seq<byte>)
    requires s != [] && s[0] != TILDE && !Whitespace(s[0])
    ensures var t, more := Text(s), Text(s[1..]);
      && t == [s[0]] + more
      && (Spelled(t) <==> (s[0] == LETTER_Z || IsDigit(s[0])) && Spelled(more))
      && DigitsIn(t) == (if IsDigit(s[0]) then [s[0] - BANG] else []) + DigitsIn(more)
      && ZerosIn(t) == (if s[0] == LETTER_Z then 1 else 0) + ZerosIn(more)
  {
    var t, more := Text(s), Text(s[1..]);
    assert t[1..] == more;
    if Spelled(t) {
      forall i | 0 <= i < |more| ensures more[i] == LETTER_Z || IsDigit(more[i]) { assert more[i] == t[i + 1]; }
    }
  }

  /** What is accepted, from any state of the loop. */
  lemma {:induction false} AcceptedFrom(s: seq<byte>, tuple: Tuple, out: seq<byte>, limit: nat)
    requires |out| <= limit
    ensures var r, text := DecodeRest(s, tuple, out, limit), Text(s);
      var size := |out| + 4 * ZerosIn(text) + DigitBytes(|tuple + DigitsIn(text)|);
      && (r.Ok? <==> Spelled(text) && WordsFit(tuple + DigitsIn(text)) && size <= limit)
      && (r.Ok? ==> |r.value| == size)
    decreases |s|
  {
    hide DecodeRest, TupleToU32, TupleSum, Spelled, DigitsIn, ZerosIn, Completed, WordsFit, DigitBytes, BeBytes, Text;
    if s == [] {
      NoText([]);
      RestAtEnd(tuple, out, limit);
      FlushedExactly(tuple, out, limit);
    } else {
      assert s[0..] == s;
      RestAt(s, 0, tuple, out, limit);
      if Whitespace(s[0]) {
        SkipText(s);
        AcceptedFrom(s[1..], tuple, out, limit);
      } else if s[0] == TILDE {
        NoText(s);
        FlushedExactly(tuple, out, limit);
      } else {
        TextStep(s);
        assert [] + DigitsIn(Text(s[1..])) == DigitsIn(Text(s[1..]));
        if s[0] == LETTER_Z {
          if |out| + 4 <= limit { AcceptedFrom(s[1..], tuple, out + [0, 0, 0, 0], limit); }
        } else if IsDigit(s[0]) {
          var d: Digit := s[0] - BANG;
          DigitStep(tuple, d, DigitsIn(Text(s[1..])));
          if |tuple| < 4 {
            AcceptedFrom(s[1..], tuple + [d], out, limit);
          } else {
            WordOf(tuple + [d]);
            assert [] + DigitsIn(Text(s[1..])) == DigitsIn(Text(s[1..]));
            if TupleToU32(tuple + [d]).Ok? && |out| + 4 <= limit {
              AcceptedFrom(s[1..], [], out + BeBytes(TupleToU32(tuple + [d]).value), limit);
            }
          }
        }
      }
    }
  }

  lemma WordOf(t: seq<Digit>)
    requires |t| == 5
    ensures TupleToU32(t).Ok? <==> TupleSum(t) < 0x1_0000_0000
  {
  }

  lemma NoText(s: seq<byte>)
    requires s == [] || s[0] == TILDE
    ensures Text(s) == [] && Spelled([]) && DigitsIn([]) == [] && ZerosIn([]) == 0
  {
  }

  lemma SkipText(s: seq<byte>)
    requires s != [] && Whitespace(s[0])
    ensures Text(s) == Text(s[1..])
  {
  }

  lemma FlushedExactly(tuple: Tuple, out: seq<byte>, limit: nat)
    requires |out| <= limit
    ensures var r, size := Flushed(tuple, out, limit), |out| + DigitBytes(|tuple + []|);
      && tuple + [] == tuple
      && (r.Ok? <==> WordsFit(tuple) && size <= limit)
      && (r.Ok? ==> |r.value| == size)
  {
    hide TupleSum, Completed;
    assert tuple + [] == tuple;
    if tuple != [] { WordOf(Completed(tuple)); }
  }

  /** An input is accepted exactly when, before the end mark and but for whitespace, it consists of digits and `z`,
      the digits five by five make 32-bit words, and the output fits the limit; the output then has four bytes for
      every `z`, four for every five digits, and one fewer than the digits left over. */
  lemma DecodesExactly(s: seq<byte>, limit: nat)
    ensures var r, text := Decoded(s, limit), Text(s);
      var size := 4 * ZerosIn(text) + DigitBytes(|DigitsIn(text)|);
      && (r.Ok? <==> Spelled(text) && WordsFit(DigitsIn(text)) && size <= limit)
      && (r.Ok? ==> |r.value| == size)
  {
    hide DecodeRest, Spelled, DigitsIn, ZerosIn, WordsFit, DigitBytes, Text;
    AcceptedFrom(s, [], [], limit);
    assert [] + DigitsIn(Text(s)) == DigitsIn(Text(s));
  }

  /** `z` is taken inside a group too, and its zeros come out before the bytes of the group it interrupts. */
  lemma ZeroOvertakes(v: Word, k: nat, limit: nat)
    requires k <= 4 && limit >= 8
    ensures Decoded(Chars(Digits(v)[..k]) + ([LETTER_Z] + Chars(Digits(v)[k..])), limit) ==
      Ok([0, 0, 0, 0] + BeBytes(v))
  {
    hide DecodeRest, TupleSum, BeBytes, Digits, Flushed;
    var t := Digits(v);
    DecodeDigits(t[..k], [LETTER_Z] + Chars(t[k..]), [], [], limit);
    assert [] + t[..k] == t[..k];
    DecodeZero(Chars(t[k..]), t[..k], [], limit);
    assert [] + [0, 0, 0, 0] == [0, 0, 0, 0];
    assert Chars(t[k..]) == Chars(t[k..4]) + ([t[4] as int + 33] + []);
    DecodeDigits(t[k..4], [t[4] as int + 33] + [], t[..k], [0, 0, 0, 0], limit);
    assert t[..k] + t[k..4] == t[..4];
    DecodeDigit(t[4], [], t[..4], [0, 0, 0, 0], limit);
    assert t[..4] + [t[4]] == t;
    DigitsSum(v);
    DecodeEnd([], [], [0, 0, 0, 0] + BeBytes(v), limit);
    FlushNothing([0, 0, 0, 0] + BeBytes(v), limit);
  }

  lemma DecodeZero(rest: seq<byte>, tuple: Tuple, out: seq<byte>, limit: nat)
    ensures DecodeRest([LETTER_Z] + rest, tuple, out, limit) ==
      if |out| + 4 > limit then Err(DecompressionError) else DecodeRest(rest, tuple, out + [0, 0, 0, 0], limit)
  {
    assert ([LETTER_Z] + rest)[1..] == rest;
  }

  lemma LoneSum(d: Digit)
    ensures TupleSum(Completed([d])) < 0x1_0000_0000 <==> d < 82
  {
    assert Completed([d]) == [d, 84, 84, 84, 84];
  }

  /** A lone digit decodes to nothing, and is accepted when it is below 82, the last that a full word may start with. */
  lemma LoneDigit(d: Digit, limit: nat)
    ensures Decoded([d as int + 33], limit) == if d < 82 then Ok([]) else Err(InvalidData)
  {
    hide DecodeRest, BeBytes, TupleSum, Completed;
    assert [d as int + 33] + [] == [d as int + 33];
    DecodeDigit(d, [], [], [], limit);
    assert [] + [d] == [d];
    DecodeEnd([], [d], [], limit);
    LoneSum(d);
    WordOf(Completed([d]));
    assert forall w: seq<byte> :: |w| == 4 ==> [] + w[..0] == [];
    assert forall w: nat :: w < 0x1_0000_0000 ==> |BeBytes(w)| == 4;
  }
}
