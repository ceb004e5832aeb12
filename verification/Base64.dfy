/** The Base64 pair: `base64_encode` (src/bin/pdf-ast.rs) and `TrustStore::decode_base64`
    (src/crypto/certificates.rs), section 4 of RFC 4648. */
module Base64 {
  import opened Bits

  type Sextet = v: int | 0 <= v < 64

  const EQUALS: byte := 61

  /** The table shared by both files: A-Z, a-z, 0-9, + and /. */
  function Letter(v: Sextet): byte {
    if v < 26 then 65 + v
    else if v < 52 then 97 + (v - 26)
    else if v < 62 then 48 + (v - 52)
    else if v == 62 then 43
    else 47
  }

  /** `BASE64_CHARS.iter().position(..)` */
  function Position(b: byte): Option<Sextet> {
    if 65 <= b <= 90 then Some(b as int - 65)
    else if 97 <= b <= 122 then Some(b as int - 97 + 26)
    else if 48 <= b <= 57 then Some(b as int - 48 + 52)
    else if b == 43 then Some(62)
    else if b == 47 then Some(63)
    else None
  }

  /** `Position` is the table's inverse: it finds the one place of a letter, and only letters have one. */
  lemma PositionFindsLetter(b: byte, v: Sextet)
    ensures Position(b) == Some(v) <==> Letter(v) == b
  {
  }

  const ALPHABET: seq<string> := [
    "ABCDEFGHIJKLMNOP", "QRSTUVWXYZabcdef", "ghijklmnopqrstuv", "wxyz0123456789+/"]

  /** The table in its letters. */
  lemma LettersAre(v: Sextet)
    ensures |ALPHABET[v / 16]| == 16 && Letter(v) == ALPHABET[v / 16][v % 16] as int
  {
    hide Letter;
    if v < 16 { FirstLetters(v); } else if v < 32 { SecondLetters(v - 16); }
    else if v < 48 { ThirdLetters(v - 32); } else { LastLetters(v - 48); }
  }

  lemma FirstLetters(i: nat)
    requires i < 16
    ensures |ALPHABET[0]| == 16 && Letter(i) == ALPHABET[0][i] as int
  {
  }

  lemma SecondLetters(i: nat)
    requires i < 16
    ensures |ALPHABET[1]| == 16 && Letter(16 + i) == ALPHABET[1][i] as int
  {
  }

  lemma ThirdLetters(i: nat)
    requires i < 16
    ensures |ALPHABET[2]| == 16 && Letter(32 + i) == ALPHABET[2][i] as int
  {
  }

  lemma LastLetters(i: nat)
    requires i < 16
    ensures |ALPHABET[3]| == 16 && Letter(48 + i) == ALPHABET[3][i] as int
  {
  }

  // ---------------------------------------------------------------- encoder

  /** `n >> 18`, `n >> 12`, `n >> 6` and `n`, each `& 63`. */
  function Sextets(n: nat): (s: seq<Sextet>)
    ensures |s| == 4
  {
    [n / 0x4_0000 % 64, n / 0x1000 % 64, n / 0x40 % 64, n % 64]
  }

  /** `b1 << 16 | b2 << 8 | b3`; the shifted bytes share no bits. */
  function Joined(b1: byte, b2: byte, b3: byte): nat {
    Or(Or(b1 as int * 0x1_0000, b2 as int * 0x100), b3)
  }

  function EncodedGroup(b1: byte, b2: byte, b3: byte, letters: nat): seq<byte>
    requires letters <= 4
  {
    seq(letters, i requires 0 <= i < letters => Letter(Sextets(Joined(b1, b2, b3))[i]))
  }

  function Encoded(data: seq<byte>): seq<byte> {
    if |data| == 0 then []
    else if |data| == 1 then EncodedGroup(data[0], 0, 0, 2) + [EQUALS, EQUALS]
    else if |data| == 2 then EncodedGroup(data[0], data[1], 0, 3) + [EQUALS]
    else EncodedGroup(data[0], data[1], data[2], 4) + Encoded(data[3..])
  }

  lemma JoinedIsSum(b1: byte, b2: byte, b3: byte)
    ensures Joined(b1, b2, b3) == b1 as int * 0x1_0000 + b2 as int * 0x100 + b3 as int < 0x100_0000
  {
    Pow2Eight();
    Pow2Add(8, 8);
    var a: int, b: int, c: int := b1, b2, b3;
    OrCommutes(a * 0x1_0000, b * 0x100);
    OrDisjoint(b * 0x100, a, 16);
    OrCommutes(a * 0x1_0000 + b * 0x100, c);
    assert a * 0x1_0000 + b * 0x100 == (a * 0x100 + b) * 0x100;
    OrDisjoint(c, a * 0x100 + b, 8);
  }

  /** The text has four characters for every three bytes or part of three; as many letters as the bits need come
      first, and equals signs fill it up. */
  lemma {:induction false} EncodedShape(data: seq<byte>)
    ensures |Encoded(data)| == (|data| + 2) / 3 * 4
    ensures forall k :: 0 <= k < |Encoded(data)| ==> (Encoded(data)[k] == '=' as int <==> 6 * k >= 8 * |data|)
  {
    hide Joined;
    LettersNotEquals();
    if |data| >= 3 {
      var more := Encoded(data[3..]);
      EncodedShape(data[3..]);
      assert Encoded(data) == EncodedGroup(data[0], data[1], data[2], 4) + more;
      forall k | 0 <= k < |Encoded(data)| ensures Encoded(data)[k] == EQUALS <==> 6 * k >= 8 * |data| {
        if k >= 4 { assert Encoded(data)[k] == more[k - 4]; }
      }
    }
  }

  lemma LettersNotEquals()
    ensures forall v: Sextet :: Letter(v) != EQUALS
  {
  }

  lemma EncodedStep(data: seq<byte>, i: nat)
    requires i + 3 <= |data|
    ensures Encoded(data[i..]) == EncodedGroup(data[i], data[i + 1], data[i + 2], 4) + Encoded(data[i + 3..])
  {
    hide EncodedGroup;
    assert data[i..][3..] == data[i + 3..];
  }

  lemma EncodedTail(data: seq<byte>, i: nat)
    requires i <= |data| < i + 3
    ensures Encoded(data[i..]) ==
      if |data| == i then []
      else if |data| == i + 1 then EncodedGroup(data[i], 0, 0, 2) + [EQUALS, EQUALS]
      else EncodedGroup(data[i], data[i + 1], 0, 3) + [EQUALS]
  {
    hide EncodedGroup;
  }

  lemma GroupIs(b1: byte, b2: byte, b3: byte)
    ensures var n := Joined(b1, b2, b3);
      && EncodedGroup(b1, b2, b3, 2) == [Letter(n / 0x4_0000 % 64), Letter(n / 0x1000 % 64)]
      && EncodedGroup(b1, b2, b3, 3) == [Letter(n / 0x4_0000 % 64), Letter(n / 0x1000 % 64), Letter(n / 0x40 % 64)]
      && EncodedGroup(b1, b2, b3, 4) ==
         [Letter(n / 0x4_0000 % 64), Letter(n / 0x1000 % 64), Letter(n / 0x40 % 64), Letter(n % 64)]
  {
    hide Letter, Joined;
  }

  /** `base64_encode`. */
  method Base64Encode(data: seq<byte>) returns (result: seq<byte>)
    ensures result == Encoded(data)
  {
    hide Encoded, EncodedGroup, Letter, Or;
    result := [];
    var i := 0;
    assert data[0..] == data && [] + Encoded(data) == Encoded(data);
    while i + 3 <= |data|
      invariant 0 <= i <= |data| && result + Encoded(data[i..]) == Encoded(data)
    {
      EncodedStep(data, i);
      GroupIs(data[i], data[i + 1], data[i + 2]);
      var n := Or(Or(data[i] as int * 0x1_0000, data[i + 1] as int * 0x100), data[i + 2]);
      var letters := [Letter(n / 0x4_0000 % 64), Letter(n / 0x1000 % 64), Letter(n / 0x40 % 64), Letter(n % 64)];
      ConcatAssoc(result, letters, Encoded(data[i + 3..]));
      result := result + letters;
      i := i + 3;
    }
    EncodedTail(data, i);
    assert result + [] == result;
    if |data| - i == 1 {
      GroupIs(data[i], 0, 0);
      ShortGroup(data[i], 0);
      var n := data[i] as int * 0x1_0000;
      result := result + ([Letter(n / 0x4_0000 % 64), Letter(n / 0x1000 % 64)] + [EQUALS, EQUALS]);
    } else if |data| - i == 2 {
      GroupIs(data[i], data[i + 1], 0);
      ShortGroup(data[i], data[i + 1]);
      var n := Or(data[i] as int * 0x1_0000, data[i + 1] as int * 0x100);
      result := result +
        ([Letter(n / 0x4_0000 % 64), Letter(n / 0x1000 % 64), Letter(n / 0x40 % 64)] + [EQUALS]);
    }
  }

  lemma ShortGroup(b1: byte, b2: byte)
    ensures Joined(b1, b2, 0) == Or(b1 as int * 0x1_0000, b2 as int * 0x100)
    ensures b2 == 0 ==> Joined(b1, b2, 0) == b1 as int * 0x1_0000
  {
    hide Or;
    var two := Or(b1 as int * 0x1_0000, b2 as int * 0x100);
    OrCommutes(two, 0);
    OrZero(two);
    OrCommutes(b1 as int * 0x1_0000, 0);
    OrZero(b1 as int * 0x1_0000);
  }

  // ---------------------------------------------------------------- decoder

  /** `replace('=', "")` */
  function Cleaned(s: seq<byte>): seq<byte> {
    if s == [] then []
    else if s[0] == EQUALS then Cleaned(s[1..])
    else [s[0]] + Cleaned(s[1..])
  }

  /** The values of a chunk's characters, if all are in the alphabet. */
  function Values(chunk: seq<byte>): (r: Option<seq<Sextet>>)
    ensures r.Some? ==> |r.value| == |chunk|
  {
    if chunk == [] then Some([])
    else
      match (Values(chunk[..|chunk| - 1]), Position(chunk[|chunk| - 1]))
      case (Some(vs), Some(v)) => Some(vs + [v])
      case _ => None
  }

  /** The bytes of up to four values, in the source's 8-bit shifts. */
  function GroupBytes(v: seq<Sextet>): seq<byte>
    requires |v| <= 4
  {
    if |v| < 2 then []
    else if |v| == 2 then [FirstByte(v[0], v[1])]
    else if |v| == 3 then [FirstByte(v[0], v[1]), SecondByte(v[1], v[2])]
    else [FirstByte(v[0], v[1]), SecondByte(v[1], v[2]), ThirdByte(v[2], v[3])]
  }

  function FirstByte(v0: Sextet, v1: Sextet): byte {
    OrByte(v0 as int * 4 % 256, v1 / 16)
  }

  function SecondByte(v1: Sextet, v2: Sextet): byte {
    OrByte(v1 as int * 16 % 256, v2 / 4)
  }

  function ThirdByte(v2: Sextet, v3: Sextet): byte {
    OrByte(v2 as int * 64 % 256, v3)
  }

  function OrByte(a: byte, b: byte): byte {
    Pow2Eight();
    OrBound(a, b, 8);
    Or(a, b)
  }

  function DecodedClean(s: seq<byte>): Result<seq<byte>, FilterError> {
    if s == [] then Ok([])
    else
      var n := if |s| < 4 then |s| else 4;
      match Values(s[..n])
      case None => Err(InvalidData)
      case Some(v) =>
        var more := DecodedClean(s[n..]);
        if more.Err? then more else Ok(GroupBytes(v) + more.value)
  }

  function Decoded(s: seq<byte>): Result<seq<byte>, FilterError> {
    DecodedClean(Cleaned(s))
  }

  function Joining(result: seq<byte>, rest: Result<seq<byte>, FilterError>): Result<seq<byte>, FilterError> {
    if rest.Err? then rest else Ok(result + rest.value)
  }

  lemma DecodedStep(s: seq<byte>, i: nat, n: nat)
    requires i < |s| && n == (if |s| - i < 4 then |s| - i else 4)
    ensures DecodedClean(s[i..]) ==
      match Values(s[i..i + n])
      case None => Err(InvalidData)
      case Some(v) => Joining(GroupBytes(v), DecodedClean(s[i + n..]))
  {
    hide Values, GroupBytes;
    assert s[i..][..n] == s[i..i + n] && s[i..][n..] == s[i + n..];
  }

  lemma ValuesStep(chunk: seq<byte>, j: nat)
    requires j < |chunk|
    ensures Values(chunk[..j + 1]) ==
      match (Values(chunk[..j]), Position(chunk[j]))
      case (Some(vs), Some(v)) => Some(vs + [v])
      case _ => None
  {
    hide Position;
    assert chunk[..j + 1][..j] == chunk[..j];
  }

  lemma {:induction false} ValuesNone(chunk: seq<byte>, j: nat)
    requires j <= |chunk| && Values(chunk[..j]).None?
    ensures Values(chunk).None?
    decreases |chunk| - j
  {
    hide Values, Position;
    if j < |chunk| {
      ValuesStep(chunk, j);
      ValuesNone(chunk, j + 1);
    } else {
      assert chunk[..j] == chunk;
    }
  }

  /** The loop over one chunk's characters, filling `values`. */
  method ReadChunk(chunk: seq<byte>, values: array<Sextet>) returns (ok: bool)
    requires |chunk| <= values.Length == 4
    modifies values
    ensures ok <==> Values(chunk).Some?
    ensures ok ==> values[..|chunk|] == Values(chunk).value
  {
    hide Values, Position;
    assert Values(chunk[..0]) == Some([]) by { ValuesNothing(chunk); }
    for j := 0 to |chunk|
      invariant Values(chunk[..j]) == Some(values[..j])
    {
      ValuesStep(chunk, j);
      var position := Position(chunk[j]);
      if position.None? {
        ValuesNone(chunk, j + 1);
        return false;
      }
      ghost var before := values[..j];
      values[j] := position.value;
      assert values[..j + 1] == before + [position.value];
    }
    assert chunk[..|chunk|] == chunk;
    return true;
  }

  lemma ValuesNothing(chunk: seq<byte>)
    ensures Values(chunk[..0]) == Some([])
  {
  }

  /** `decode_base64`. */
  method DecodeBase64(base64: seq<byte>) returns (r: Result<seq<byte>, FilterError>)
    ensures r == Decoded(base64)
  {
    hide DecodedClean, Values, Or;
    var clean := Cleaned(base64);
    var result: seq<byte> := [];
    var i := 0;
    assert clean[0..] == clean;
    ghost var all := DecodedClean(clean);
    assert all.Ok? ==> [] + all.value == all.value;
    while i < |clean|
      invariant 0 <= i <= |clean| && Joining(result, DecodedClean(clean[i..])) == all
    {
      var n := if |clean| - i < 4 then |clean| - i else 4;
      DecodedStep(clean, i, n);
      var chunk := clean[i..i + n];
      var values := new Sextet[4](_ => 0);
      var ok := ReadChunk(chunk, values);
      if !ok {
        return Err(InvalidData);
      }
      ghost var before, more := result, DecodedClean(clean[i + n..]);
      assert values[..n][..] == Values(chunk).value;
      if n >= 2 {
        result := result + [OrByte(values[0] as int * 4 % 256, values[1] / 16)];
      }
      if n >= 3 {
        result := result + [OrByte(values[1] as int * 16 % 256, values[2] / 4)];
      }
      if n >= 4 {
        result := result + [OrByte(values[2] as int * 64 % 256, values[3])];
      }
      assert result == before + GroupBytes(Values(chunk).value);
      if more.Ok? { ConcatAssoc(before, GroupBytes(Values(chunk).value), more.value); }
      i := i + n;
    }
    DecodedNothing();
    assert clean[i..] == [];
    assert result + [] == result;
    return Ok(result);
  }

  lemma DecodedNothing()
    ensures DecodedClean([]) == Ok([])
  {
  }

  // ---------------------------------------------------------------- theorems

  lemma OrIsSum(low: nat, high: nat, shift: nat, scale: nat)
    requires scale == Pow2(shift) && low < scale
    ensures Or(high * scale, low) == high * scale + low
  {
    hide Or;
    OrCommutes(high * scale, low);
    OrDisjoint(low, high, shift);
  }

  /** The three 8-bit shift expressions undo the four 6-bit ones. */
  lemma GroupInverse(b1: byte, b2: byte, b3: byte)
    ensures GroupBytes(Sextets(Joined(b1, b2, b3))) == [b1, b2, b3]
    ensures b3 == 0 ==> GroupBytes(Sextets(Joined(b1, b2, b3))[..3]) == [b1, b2]
    ensures b2 == 0 && b3 == 0 ==> GroupBytes(Sextets(Joined(b1, b2, b3))[..2]) == [b1]
  {
    hide Joined, FirstByte, SecondByte, ThirdByte, Sextets;
    JoinedIsSum(b1, b2, b3);
    SextetBytes(Joined(b1, b2, b3));
    BytesOfWord(b1, b2, b3, Joined(b1, b2, b3));
  }

  lemma BytesAsSums(v0: Sextet, v1: Sextet, v2: Sextet, v3: Sextet)
    ensures FirstByte(v0, v1) == v0 as int * 4 + v1 as int / 16
    ensures SecondByte(v1, v2) == v1 as int * 16 % 256 + v2 as int / 4
    ensures ThirdByte(v2, v3) == v2 as int * 64 % 256 + v3 as int
  {
    hide Or, Pow2;
    SmallPowers();
    ShiftedOut(v1, 16, 16);
    ShiftedOut(v2, 64, 4);
    OrIsSum(v1 / 16, v0, 2, 4);
    OrIsSum(v2 / 4, v1 % 16, 4, 16);
    OrIsSum(v3, v2 % 4, 6, 64);
  }

  lemma BytesOfWord(b0: byte, b1: byte, b2: byte, n: nat)
    requires n == 0x1_0000 * b0 as int + 0x100 * b1 as int + b2 as int
    ensures b0 == n / 0x1_0000 && b1 == n / 0x100 % 256 && b2 == n % 256
  {
    assert n / 0x100 == 0x100 * b0 as int + b1 as int;
    assert n / 0x1_0000 == n / 0x100 / 0x100;
  }

  /** Regrouping 24 bits from sextets to bytes. */
  lemma Regroup(v0: Sextet, v1: Sextet, v2: Sextet, v3: Sextet, n: nat)
    requires n == 0x4_0000 * v0 as int + 0x1000 * v1 as int + 0x40 * v2 as int + v3 as int
    ensures v0 as int * 4 + v1 as int / 16 == n / 0x1_0000
    ensures v1 as int * 16 % 256 + v2 as int / 4 == n / 0x100 % 256
    ensures v2 as int * 64 % 256 + v3 as int == n % 256
  {
    var h1: int, l1: int := v1 / 16, v1 % 16;
    var h2: int, l2: int := v2 / 4, v2 % 4;
    ShiftedOut(v1, 16, 16);
    ShiftedOut(v2, 64, 4);
    BytesOfWord(v0 as int * 4 + h1, l1 * 16 + h2, l2 * 64 + v3 as int, n);
  }

  lemma ShiftedOut(v: Sextet, scale: int, keep: int)
    requires (scale == 16 && keep == 16) || (scale == 64 && keep == 4)
    ensures v as int * scale % 256 == v as int % keep * scale
  {
  }

  lemma SplitSextets(n: nat)
    requires n < 0x100_0000
    ensures var v := Sextets(n);
      n == 0x4_0000 * v[0] as int + 0x1000 * v[1] as int + 0x40 * v[2] as int + v[3] as int
  {
    var q1 := n / 64;
    var q2 := q1 / 64;
    var q3 := q2 / 64;
    assert n / 0x1000 == q2 && n / 0x4_0000 == q3 && q3 < 64;
  }

  lemma SextetBytes(n: nat)
    requires n < 0x100_0000
    ensures var v := Sextets(n);
      && FirstByte(v[0], v[1]) == n / 0x1_0000
      && SecondByte(v[1], v[2]) == n / 0x100 % 256
      && ThirdByte(v[2], v[3]) == n % 256
  {
    hide FirstByte, SecondByte, ThirdByte, Sextets;
    var v := Sextets(n);
    SplitSextets(n);
    BytesAsSums(v[0], v[1], v[2], v[3]);
    Regroup(v[0], v[1], v[2], v[3], n);
  }

  lemma SmallPowers()
    ensures Pow2(2) == 4 && Pow2(4) == 16 && Pow2(6) == 64
  {
  }

  lemma {:induction false} LettersValues(v: seq<Sextet>)
    ensures Values(Letters(v)) == Some(v) && Cleaned(Letters(v)) == Letters(v)
  {
    hide Letter, Position, Values, Cleaned;
    if v == [] {
      ValuesNothing([]);
      CleanedMarks();
    } else {
      var front, last := v[..|v| - 1], v[|v| - 1];
      LettersValues(front);
      assert Letters(v) == Letters(front) + [Letter(last)];
      assert Letters(v)[..|v| - 1] == Letters(front) && Letters(v)[..|v|] == Letters(v);
      ValuesStep(Letters(v), |v| - 1);
      PositionFindsLetter(Letter(last), last);
      assert front + [last] == v;
      CleanedAppend(Letters(front), [Letter(last)]);
      LetterKept(last);
    }
  }

  lemma LetterKept(v: Sextet)
    ensures Cleaned([Letter(v)]) == [Letter(v)]
  {
  }

  function Letters(v: seq<Sextet>): (s: seq<byte>)
    ensures |s| == |v|
  {
    seq(|v|, i requires 0 <= i < |v| => Letter(v[i]))
  }

  lemma {:induction false} CleanedAppend(a: seq<byte>, b: seq<byte>)
    ensures Cleaned(a + b) == Cleaned(a) + Cleaned(b)
  {
    if a == [] {
      assert a + b == b;
    } else {
      assert (a + b)[1..] == a[1..] + b;
      CleanedAppend(a[1..], b);
    }
  }

  /** Base64 round trip, over full groups and both remainders. */
  lemma {:induction false} RoundTrip(data: seq<byte>)
    ensures Decoded(Encoded(data)) == Ok(data)
    decreases |data|
  {
    hide Cleaned, GroupBytes, Sextets, Joined, Letter, Values, DecodedClean;
    if data == [] {
      CleanedMarks();
      DecodedNothing();
    } else if |data| < 3 {
      var b2 := if |data| == 1 then 0 else data[1];
      var v := Sextets(Joined(data[0], b2, 0))[..|data| + 1];
      var marks := if |data| == 1 then [EQUALS, EQUALS] else [EQUALS];
      assert Encoded(data) == Letters(v) + marks;
      CleanedAppend(Letters(v), marks);
      CleanedMarks();
      LettersValues(v);
      assert Letters(v) + [] == Letters(v);
      DecodedGroup(v, []);
      DecodedNothing();
      GroupInverse(data[0], b2, 0);
      assert GroupBytes(v) == data;
      assert data + [] == data;
    } else {
      var v := Sextets(Joined(data[0], data[1], data[2]));
      assert Encoded(data) == Letters(v) + Encoded(data[3..]);
      CleanedAppend(Letters(v), Encoded(data[3..]));
      LettersValues(v);
      DecodedGroup(v, Cleaned(Encoded(data[3..])));
      GroupInverse(data[0], data[1], data[2]);
      RoundTrip(data[3..]);
      assert [data[0], data[1], data[2]] + data[3..] == data;
    }
  }

  lemma CleanedMarks()
    ensures Cleaned([]) == [] && Cleaned([EQUALS]) == [] && Cleaned([EQUALS, EQUALS]) == []
  {
  }

  lemma DecodedGroup(v: seq<Sextet>, rest: seq<byte>)
    requires 1 <= |v| <= 4 && (|v| < 4 ==> rest == [])
    ensures DecodedClean(Letters(v) + rest) == Joining(GroupBytes(v), DecodedClean(rest))
  {
    hide DecodedClean, Values, GroupBytes, Letter;
    var s := Letters(v) + rest;
    assert s[0..] == s && s[0..0 + |v|] == Letters(v) && s[0 + |v|..] == rest;
    DecodedStep(s, 0, |v|);
    LettersValues(v);
  }

  predicate InAlphabet(s: seq<byte>) {
    forall i :: 0 <= i < |s| ==> Position(s[i]).Some?
  }

  lemma {:induction false} ValuesExactly(chunk: seq<byte>)
    ensures Values(chunk).Some? <==> InAlphabet(chunk)
  {
    hide Position;
    if chunk != [] {
      var front := chunk[..|chunk| - 1];
      ValuesExactly(front);
      assert chunk == front + [chunk[|chunk| - 1]];
    }
  }

  // ---------------------------------------------------------------- the bits of the result

  lemma TimesFour(x: nat, i: nat)
    ensures Bit(4 * x, i) == (i >= 2 && Bit(x, i - 2))
  {
    assert 4 * x / 2 == 2 * x && 2 * x / 2 == x;
    assert i >= 1 ==> Bit(4 * x, i) == Bit(2 * x, i - 1);
  }

  lemma Quarter(x: nat, i: nat)
    ensures Bit(x / 4, i) == Bit(x, i + 2)
  {
    assert x / 4 == x / 2 / 2;
    assert Bit(x, i + 2) == Bit(x / 2, i + 1) == Bit(x / 2 / 2, i);
  }

  /** Nothing above the six bits of a sextet. */
  lemma AboveSextet(v: nat, i: nat)
    requires (v < 64 && i >= 6) || (v < 16 && i >= 4) || (v < 4 && i >= 2)
    ensures !Bit(v, i)
    decreases v
  {
    Quarter(v, i - 2);
    if v < 4 { BitZero(i - 2); } else { AboveSextet(v / 4, i - 2); }
  }

  lemma Sixteenths(v: nat)
    ensures v % 16 % 4 == v % 4 && v % 16 / 4 == v / 4 % 4
  {
    var q, r := v / 16, v % 16;
    assert v == 4 * (4 * q) + r && v / 4 == 4 * q + r / 4;
  }

  lemma LowBits(v: nat, i: nat)
    ensures i < 2 ==> Bit(v % 4, i) == Bit(v, i)
    ensures i < 4 ==> Bit(v % 16, i) == Bit(v, i)
  {
    hide Bit;
    Sixteenths(v);
    if i < 2 {
      LowTwo(v, i);
      LowTwo(v % 16, i);
    } else if i < 4 {
      Quarter(v, i - 2);
      Quarter(v % 16, i - 2);
      LowTwo(v / 4, i - 2);
    }
  }

  lemma LowTwo(v: nat, i: nat)
    requires i < 2
    ensures Bit(v % 4, i) == Bit(v, i)
  {
    assert v % 4 % 2 == v % 2 && v % 4 / 2 % 2 == v / 2 % 2;
  }

  lemma TimesSixteen(x: nat, i: nat)
    ensures Bit(16 * x, i) == (i >= 4 && Bit(x, i - 4))
    ensures Bit(x / 16, i) == Bit(x, i + 4)
    ensures Bit(64 * x, i) == (i >= 6 && Bit(x, i - 6))
  {
    hide Bit;
    TimesFour(4 * x, i);
    TimesFour(16 * x, i);
    if i >= 2 { TimesFour(x, i - 2); TimesFour(4 * x, i - 2); }
    if i >= 4 { TimesFour(x, i - 4); }
    Quarter(x / 4, i);
    Quarter(x, i + 2);
  }

  /** Bit `k` of a byte string, most significant first. */
  predicate OutBit(out: seq<byte>, k: nat)
    requires k < 8 * |out|
  {
    Bit(out[k / 8], 7 - k % 8)
  }

  /** Bit `k` of the concatenated sextets of the characters, most significant first. */
  predicate TextBit(s: seq<byte>, k: nat)
    requires k < 6 * |s|
  {
    Position(s[k / 6]).Some? && Bit(Position(s[k / 6]).value, 5 - k % 6)
  }

  lemma {:induction false} ValueAt(chunk: seq<byte>, j: nat)
    requires Values(chunk).Some? && j < |chunk|
    ensures Position(chunk[j]) == Some(Values(chunk).value[j])
    decreases |chunk|
  {
    hide Position;
    if j < |chunk| - 1 { ValueAt(chunk[..|chunk| - 1], j); }
  }

  lemma FirstBits(v0: Sextet, v1: Sextet, i: nat)
    requires i < 8
    ensures Bit(FirstByte(v0, v1), i) == if i >= 2 then Bit(v0, i - 2) else Bit(v1, i + 4)
  {
    hide Or, Bit;
    OrBit(v0 as int * 4, v1 as int / 16, i);
    TimesFour(v0, i);
    TimesSixteen(v1, i);
    if i >= 2 { AboveSextet(v1, i + 4); }
  }

  lemma SecondBits(v1: Sextet, v2: Sextet, i: nat)
    requires i < 8
    ensures Bit(SecondByte(v1, v2), i) == if i >= 4 then Bit(v1, i - 4) else Bit(v2, i + 2)
  {
    hide Or, Bit;
    ShiftedOut(v1, 16, 16);
    OrBit(v1 as int % 16 * 16, v2 as int / 4, i);
    TimesSixteen(v1 as int % 16, i);
    Quarter(v2, i);
    if i >= 4 {
      LowBits(v1, i - 4);
      AboveSextet(v2, i + 2);
    }
  }

  lemma ThirdBits(v2: Sextet, v3: Sextet, i: nat)
    requires i < 8
    ensures Bit(ThirdByte(v2, v3), i) == if i >= 6 then Bit(v2, i - 6) else Bit(v3, i)
  {
    hide Or, Bit;
    ShiftedOut(v2, 64, 4);
    OrBit(v2 as int % 4 * 64, v3, i);
    TimesSixteen(v2 as int % 4, i);
    if i >= 6 {
      LowBits(v2, i - 6);
      AboveSextet(v3, i);
    }
  }

  lemma GroupBits(chunk: seq<byte>, k: nat)
    requires 1 <= |chunk| <= 4 && Values(chunk).Some? && k < 8 * |GroupBytes(Values(chunk).value)|
    ensures k < 6 * |chunk| && OutBit(GroupBytes(Values(chunk).value), k) == TextBit(chunk, k)
  {
    hide Bit, Position, Values, FirstByte, SecondByte, ThirdByte, GroupBytes;
    var v := Values(chunk).value;
    GroupBit(v, k);
    ValueAt(chunk, k / 6);
  }

  /** Bit `k` of the bytes of a group is bit `k` of its sextets. */
  lemma GroupBit(v: seq<Sextet>, k: nat)
    requires 1 <= |v| <= 4 && k < 8 * |GroupBytes(v)|
    ensures k < 6 * |v| && OutBit(GroupBytes(v), k) == Bit(v[k / 6], 5 - k % 6)
  {
    hide Bit, FirstByte, SecondByte, ThirdByte;
    if k < 8 {
      FirstBits(v[0], v[1], 7 - k % 8);
    } else if k < 16 {
      SecondBits(v[1], v[2], 7 - k % 8);
    } else {
      ThirdBits(v[2], v[3], 7 - k % 8);
    }
  }

  predicate Acceptable(s: seq<byte>) {
    forall i :: 0 <= i < |s| ==> s[i] == EQUALS || Position(s[i]).Some?
  }

  lemma {:induction false} CleanedAlphabet(s: seq<byte>)
    ensures Acceptable(s) <==> InAlphabet(Cleaned(s))
  {
    hide Position;
    if s != [] {
      CleanedAlphabet(s[1..]);
      FirstAcceptable(s);
      FirstInAlphabet([s[0]], Cleaned(s[1..]));
      EqualsForeign();
      OneLetter(s[0]);
    }
  }

  lemma OneLetter(b: byte)
    ensures InAlphabet([b]) <==> Position(b).Some?
  {
    hide Position;
    assert [b][0] == b;
  }

  lemma EqualsForeign()
    ensures Position(EQUALS).None?
  {
  }

  lemma FirstAcceptable(s: seq<byte>)
    requires s != []
    ensures Acceptable(s) <==> (s[0] == EQUALS || Position(s[0]).Some?) && Acceptable(s[1..])
  {
    hide Position;
    assert s == [s[0]] + s[1..];
  }

  lemma FirstInAlphabet(a: seq<byte>, b: seq<byte>)
    ensures InAlphabet(a + b) <==> InAlphabet(a) && InAlphabet(b)
  {
    hide Position;
    if InAlphabet(a + b) {
      forall i | 0 <= i < |a| ensures Position(a[i]).Some? { assert a[i] == (a + b)[i]; }
      forall i | 0 <= i < |b| ensures Position(b[i]).Some? { assert b[i] == (a + b)[i + |a|]; }
    }
  }

  lemma {:induction false} CleanDecodes(s: seq<byte>)
    ensures DecodedClean(s).Ok? <==> InAlphabet(s)
    ensures DecodedClean(s).Ok? ==> |DecodedClean(s).value| == 6 * |s| / 8
    decreases |s|
  {
    hide DecodedClean, Values, Position, InAlphabet;
    if s == [] {
      DecodedNothing();
      assert InAlphabet([]) by { NoneForeign(); }
    } else {
      var n := if |s| < 4 then |s| else 4;
      assert s[0..] == s && s[0..0 + n] == s[..n] && s[0 + n..] == s[n..] && s == s[..n] + s[n..];
      DecodedStep(s, 0, n);
      ValuesExactly(s[..n]);
      CleanDecodes(s[n..]);
      FirstInAlphabet(s[..n], s[n..]);
    }
  }

  lemma NoneForeign()
    ensures InAlphabet([])
  {
  }

  lemma {:induction false} CleanBits(s: seq<byte>, k: nat)
    requires DecodedClean(s).Ok? && k < 8 * |DecodedClean(s).value|
    ensures k < 6 * |s| && OutBit(DecodedClean(s).value, k) == TextBit(s, k)
    decreases |s|
  {
    hide DecodedClean, Values, Position, Bit, InAlphabet, GroupBytes;
    CleanDecodes(s);
    if s == [] {
      assert false;
    } else {
      var n := if |s| < 4 then |s| else 4;
      assert s[0..] == s && s[0..0 + n] == s[..n] && s[0 + n..] == s[n..];
      DecodedStep(s, 0, n);
      var group, more := GroupBytes(Values(s[..n]).value), DecodedClean(s[n..]).value;
      GroupLength(s[..n]);
      CleanDecodes(s[n..]);
      if k < 8 * |group| {
        GroupBits(s[..n], k);
        assert (group + more)[k / 8] == group[k / 8] && s[..n][k / 6] == s[k / 6];
      } else {
        CleanBits(s[n..], k - 8 * |group|);
        assert n == 4 && |group| == 3;
        assert (k - 24) / 8 == k / 8 - 3 && (k - 24) % 8 == k % 8 && (k - 24) / 6 == k / 6 - 4 && (k - 24) % 6 == k % 6;
        assert (group + more)[k / 8] == more[(k - 24) / 8] && s[n..][(k - 24) / 6] == s[k / 6];
      }
    }
  }

  lemma GroupLength(chunk: seq<byte>)
    requires 1 <= |chunk| <= 4 && Values(chunk).Some?
    ensures |GroupBytes(Values(chunk).value)| == 6 * |chunk| / 8
  {
  }

  /** The decoder refuses exactly the inputs with a character that is neither in the alphabet nor `=`, wherever it
      stands; otherwise it drops every `=`, and the output is the bits of the sextets in order, as many whole bytes
      as they fill. */
  lemma DecodesExactly(s: seq<byte>)
    ensures Decoded(s).Ok? <==> Acceptable(s)
    ensures Decoded(s).Ok? ==>
      && |Decoded(s).value| == 6 * |Cleaned(s)| / 8
      && forall k :: 0 <= k < 8 * |Decoded(s).value| ==> OutBit(Decoded(s).value, k) == TextBit(Cleaned(s), k)
  {
    hide DecodedClean, Position, Bit, Cleaned, InAlphabet, Acceptable, OutBit, TextBit;
    CleanDecodes(Cleaned(s));
    CleanedAlphabet(s);
    if Decoded(s).Ok? {
      forall k | 0 <= k < 8 * |Decoded(s).value| ensures OutBit(Decoded(s).value, k) == TextBit(Cleaned(s), k) {
        CleanBits(Cleaned(s), k);
      }
    }
  }
}
