/** The JP2 box walker `decode_jpx_to_codestream_with_limit` (src/filters/jpx.rs), against the box layout of
    Annex I.4 of ISO/IEC 15444-1. */
module Jp2Boxes {
  import opened Bits

  type Outcome<T> = Result<T, FilterError>

  type BoxType = t: seq<byte> | |t| == 4 witness [0, 0, 0, 0]

  const SIGNATURE_TYPE: BoxType := [0x6A, 0x50, 0x20, 0x20]
  const CODESTREAM_TYPE: BoxType := [0x6A, 0x70, 0x32, 0x63]
  const SIGNATURE: seq<byte> := [0x0D, 0x0A, 0x87, 0x0A]

  /** How a box writes its length: in 32 bits, in 64 bits, or as "to the end of the file". */
  datatype LengthForm = Short | Extended | ToEnd

  datatype RawBox = RawBox(form: LengthForm, kind: BoxType, payload: seq<byte>)

  predicate Sized(b: RawBox) {
    match b.form
    case Short => |b.payload| + 8 < 0x1_0000_0000
    case Extended => |b.payload| + 16 < 0x1_0000_0000_0000_0000
    case ToEnd => true
  }

  type Box = b: RawBox | Sized(b) witness RawBox(ToEnd, [0, 0, 0, 0], [])

  function Be64(v: nat): (s: seq<byte>)
    requires v < 0x1_0000_0000_0000_0000
    ensures |s| == 8
  {
    BeBytes(v / 0x1_0000_0000) + BeBytes(v % 0x1_0000_0000)
  }

  function Word64(s: seq<byte>): (v: nat)
    requires |s| == 8
    ensures v < 0x1_0000_0000_0000_0000
  {
    BeU32(s, 0) * 0x1_0000_0000 + BeU32(s, 4)
  }

  /** The bytes of a box followed by `rest`. */
  function Written(b: Box, rest: seq<byte>): (s: seq<byte>)
    ensures |s| >= |rest| + 8
  {
    match b.form
    case Short => BeBytes(|b.payload| + 8) + (b.kind + (b.payload + rest))
    case Extended => BeBytes(1) + (b.kind + (Be64(|b.payload| + 16) + (b.payload + rest)))
    case ToEnd => BeBytes(0) + (b.kind + (b.payload + rest))
  }

  /** The type names in their letters, and the contents of a signature box. */
  lemma NamesAre()
    ensures forall i :: 0 <= i < 4 ==> SIGNATURE_TYPE[i] as int == "jP  "[i] as int
    ensures forall i :: 0 <= i < 4 ==> CODESTREAM_TYPE[i] as int == "jp2c"[i] as int
    ensures SIGNATURE == [13, 10, 135, 10]
  {
  }

  lemma Word64Is(s: seq<byte>)
    requires |s| == 8
    ensures Word64(s) ==
      (16_777_216 * s[0] as int + 65_536 * s[1] as int + 256 * s[2] as int + s[3] as int) * 4_294_967_296
      + (16_777_216 * s[4] as int + 65_536 * s[5] as int + 256 * s[6] as int + s[7] as int)
  {
  }

  // ---------------------------------------------------------------- parsing

  datatype Parsed = Parsed(box: Box, rest: seq<byte>)

  /** Header and payload of the box at the front of `s`, as the loop body reads them. */
  function ParseBox(s: seq<byte>): (r: Outcome<Parsed>)
    requires |s| >= 8
    ensures r.Ok? ==> |r.value.rest| + 8 <= |s|
    ensures r.Err? ==> r.error == InvalidData
  {
    var length := BeU32(s, 0);
    var kind: BoxType := s[4..8];
    if length == 1 then
      if |s| < 16 then Err(InvalidData)
      else
        var extLen := Word64(s[8..16]);
        if extLen < 16 || extLen > |s| then Err(InvalidData)
        else Ok(Parsed(RawBox(Extended, kind, s[16..extLen]), s[extLen..]))
    else if length == 0 then Ok(Parsed(RawBox(ToEnd, kind, s[8..]), []))
    else if length < 8 || length > |s| then Err(InvalidData)
    else Ok(Parsed(RawBox(Short, kind, s[8..length]), s[length..]))
  }

  /** Annex I.4 of ISO/IEC 15444-1 in offsets: a length of 0 reaches to the end, a length of 1 says that the length
      stands in the eight bytes from offset 8 on and the contents behind them, and any other is that of the box with its
      eight bytes of header; the type stands at offset 4. */
  lemma BoxExactly(s: seq<byte>)
    requires |s| >= 8
    ensures var short := 16_777_216 * s[0] as int + 65_536 * s[1] as int + 256 * s[2] as int + s[3] as int;
      var long := short == 1;
      var length := if short == 0 then |s| else if long && |s| >= 16 then Word64(s[8..16]) else short;
      var from := if long then 16 else 8;
      && (ParseBox(s).Ok? <==> (long ==> |s| >= 16) && from <= length <= |s|)
      && (ParseBox(s).Ok? ==>
            var p := ParseBox(s).value;
            p.box.kind == s[4..8] && p.box.payload == s[from..length] && p.rest == s[length..])
  {
    hide Word64;
  }

  lemma Word64Of(v: nat)
    requires v < 0x1_0000_0000_0000_0000
    ensures Word64(Be64(v)) == v
  {
    hide BeBytes;
    var high, low := v / 0x1_0000_0000, v % 0x1_0000_0000;
    WordAt(BeBytes(high), BeBytes(low));
    BeRoundTrip(high);
    BeRoundTrip(low);
  }

  lemma WordAt(a: seq<byte>, b: seq<byte>)
    requires |a| == 4 && |b| == 4
    ensures BeU32(a + b, 0) == BeU32(a, 0) && BeU32(a + b, 4) == BeU32(b, 0)
  {
  }

  lemma Be64Of(s: seq<byte>)
    requires |s| == 8
    ensures Be64(Word64(s)) == s
  {
    hide BeBytes, BeU32;
    var high, low := BeU32(s, 0), BeU32(s, 4);
    assert (high * 0x1_0000_0000 + low) / 0x1_0000_0000 == high;
    assert (high * 0x1_0000_0000 + low) % 0x1_0000_0000 == low;
    BeBytesOfWord(s, 0);
    BeBytesOfWord(s, 4);
    assert s == s[0..4] + s[4..8];
  }

  lemma FrontWord(word: seq<byte>, rest: seq<byte>)
    requires |word| == 4
    ensures BeU32(word + rest, 0) == BeU32(word, 0)
  {
  }

  /** What follows position `from` starts with `part`. */
  lemma PartAt(s: seq<byte>, from: nat, part: seq<byte>, rest: seq<byte>)
    requires from <= |s| && s[from..] == part + rest
    ensures from + |part| <= |s| && s[from..from + |part|] == part && s[from + |part|..] == rest
  {
    var tail := s[from..];
    assert tail[..|part|] == part && tail[|part|..] == rest;
    assert s[from..from + |part|] == tail[..|part|] && s[from + |part|..] == tail[|part|..];
  }

  lemma ParseShort(b: Box, rest: seq<byte>)
    requires b.form.Short?
    ensures ParseBox(Written(b, rest)) == Ok(Parsed(b, rest))
  {
    hide BeBytes, BeU32, Be64, Word64;
    var s, n := Written(b, rest), |b.payload| + 8;
    assert s[0..] == s;
    BeRoundTrip(n);
    FrontWord(BeBytes(n), b.kind + (b.payload + rest));
    PartAt(s, 0, BeBytes(n), b.kind + (b.payload + rest));
    PartAt(s, 4, b.kind, b.payload + rest);
    PartAt(s, 8, b.payload, rest);
  }

  lemma ParseExtended(b: Box, rest: seq<byte>)
    requires b.form.Extended?
    ensures ParseBox(Written(b, rest)) == Ok(Parsed(b, rest))
  {
    hide BeBytes, BeU32, Be64, Word64;
    var s, n := Written(b, rest), |b.payload| + 16;
    assert s[0..] == s;
    BeRoundTrip(1);
    Word64Of(n);
    FrontWord(BeBytes(1), b.kind + (Be64(n) + (b.payload + rest)));
    PartAt(s, 0, BeBytes(1), b.kind + (Be64(n) + (b.payload + rest)));
    PartAt(s, 4, b.kind, Be64(n) + (b.payload + rest));
    PartAt(s, 8, Be64(n), b.payload + rest);
    PartAt(s, 16, b.payload, rest);
  }

  /** Parsing inverts writing, a to-the-end box having nothing after it. */
  lemma ParseWritten(b: Box, rest: seq<byte>)
    requires b.form.ToEnd? ==> rest == []
    ensures ParseBox(Written(b, rest)) == Ok(Parsed(b, rest))
  {
    hide BeBytes, BeU32, Be64, Word64;
    match b.form
    case Short => ParseShort(b, rest);
    case Extended => ParseExtended(b, rest);
    case ToEnd =>
      var s := Written(b, rest);
      assert s[0..] == s;
      BeRoundTrip(0);
      FrontWord(BeBytes(0), b.kind + (b.payload + rest));
      PartAt(s, 0, BeBytes(0), b.kind + (b.payload + rest));
      PartAt(s, 4, b.kind, b.payload + rest);
      assert b.payload + [] == b.payload;
  }

  lemma Pieces(s: seq<byte>, from: nat, to: nat)
    requires from <= to <= |s|
    ensures s[from..] == s[from..to] + s[to..]
  {
  }

  /** Writing inverts parsing. */
  lemma WrittenParse(s: seq<byte>)
    requires |s| >= 8 && ParseBox(s).Ok?
    ensures var p := ParseBox(s).value; s == Written(p.box, p.rest) && (p.box.form.ToEnd? ==> p.rest == [])
  {
    hide BeBytes, BeU32, Be64, Word64;
    var p := ParseBox(s).value;
    BeBytesOfWord(s, 0);
    assert s[0..] == s;
    Pieces(s, 0, 4);
    Pieces(s, 4, 8);
    match p.box.form
    case Short =>
      Pieces(s, 8, BeU32(s, 0));
    case Extended =>
      Be64Of(s[8..16]);
      Pieces(s, 8, 16);
      Pieces(s, 16, Word64(s[8..16]));
    case ToEnd =>
      assert p.box.payload + [] == p.box.payload;
  }

  // ---------------------------------------------------------------- the walk

  /** The walk over what is left, with `out` collected so far, `any` codestream box and `saw` signature box seen. */
  function Walk(s: seq<byte>, out: seq<byte>, any: bool, saw: bool, limit: nat): Outcome<seq<byte>>
    decreases |s|
  {
    if |s| < 8 then (if saw && any then Ok(out) else Err(InvalidData))
    else
      var p :- ParseBox(s);
      if p.box.kind == SIGNATURE_TYPE then
        if p.box.payload != SIGNATURE then Err(InvalidData) else Walk(p.rest, out, any, true, limit)
      else if p.box.kind == CODESTREAM_TYPE then
        if |out| + |p.box.payload| > limit then Err(DecompressionError)
        else Walk(p.rest, out + p.box.payload, true, saw, limit)
      else Walk(p.rest, out, any, saw, limit)
  }

  predicate RawCodestream(data: seq<byte>) {
    |data| >= 2 && data[0] == 0xFF && data[1] == 0x4F
  }

  function Decoded(data: seq<byte>, limit: nat): Outcome<seq<byte>> {
    if |data| < 2 then Err(InvalidData)
    else if RawCodestream(data) then (if |data| > limit then Err(DecompressionError) else Ok(data))
    else if |data| < 12 then Err(InvalidData)
    else Walk(data, [], false, false, limit)
  }

  lemma WalkStep(s: seq<byte>, out: seq<byte>, any: bool, saw: bool, limit: nat)
    requires |s| >= 8
    ensures Walk(s, out, any, saw, limit) ==
      if ParseBox(s).Err? then Err(InvalidData)
      else
        var p := ParseBox(s).value;
        if p.box.kind == SIGNATURE_TYPE then
          if p.box.payload != SIGNATURE then Err(InvalidData) else Walk(p.rest, out, any, true, limit)
        else if p.box.kind == CODESTREAM_TYPE then
          if |out| + |p.box.payload| > limit then Err(DecompressionError)
          else Walk(p.rest, out + p.box.payload, true, saw, limit)
        else Walk(p.rest, out, any, saw, limit)
  {
    hide ParseBox;
  }

  lemma WalkEnd(s: seq<byte>, out: seq<byte>, any: bool, saw: bool, limit: nat)
    requires |s| < 8
    ensures Walk(s, out, any, saw, limit) == if saw && any then Ok(out) else Err(InvalidData)
  {
  }

  /** What the loop body reads at `pos`: type, payload, and the position after the box. */
  datatype Header = Header(kind: BoxType, payload: seq<byte>, next: nat)

  function BoxEnd(data: seq<byte>, pos: nat): Outcome<nat>
    requires pos + 8 <= |data|
  {
    var length := BeU32(data, pos);
    if length == 1 then
      if pos + 16 > |data| then Err(InvalidData)
      else
        var extLen := Word64(data[pos + 8..pos + 16]);
        if extLen < 16 || pos + extLen > |data| then Err(InvalidData) else Ok(pos + extLen)
    else if length == 0 then Ok(|data|)
    else if length < 8 || pos + length > |data| then Err(InvalidData)
    else Ok(pos + length)
  }

  function PayloadStart(data: seq<byte>, pos: nat): nat
    requires pos + 8 <= |data|
  {
    if BeU32(data, pos) == 1 then pos + 16 else pos + 8
  }

  /** `ParseBox` at a position of the whole input. */
  lemma ParseAt(data: seq<byte>, pos: nat)
    requires pos + 8 <= |data|
    ensures var p, end := ParseBox(data[pos..]), BoxEnd(data, pos);
      && (p.Ok? <==> end.Ok?)
      && (p.Ok? ==>
        && PayloadStart(data, pos) <= end.value <= |data|
        && p.value.box.kind == data[pos + 4..pos + 8]
        && p.value.box.payload == data[PayloadStart(data, pos)..end.value]
        && p.value.rest == data[end.value..])
  {
    hide BeU32, Word64;
    var s := data[pos..];
    assert BeU32(s, 0) == BeU32(data, pos) by { WordAtPosition(data, pos); }
    assert s[4..8] == data[pos + 4..pos + 8] && s[8..] == data[pos + 8..];
    assert |s| >= 16 ==> s[8..16] == data[pos + 8..pos + 16];
    if BoxEnd(data, pos).Ok? {
      SliceAt(data, pos, PayloadStart(data, pos) - pos, BoxEnd(data, pos).value - pos);
    }
  }

  lemma WordAtPosition(data: seq<byte>, pos: nat)
    requires pos + 4 <= |data|
    ensures BeU32(data[pos..], 0) == BeU32(data, pos)
  {
  }

  lemma SliceAt(data: seq<byte>, pos: nat, from: nat, to: nat)
    requires from <= to <= |data| - pos && pos <= |data|
    ensures data[pos..][from..to] == data[pos + from..pos + to] && data[pos..][to..] == data[pos + to..]
  {
  }

  /** The header and payload part of the loop body. */
  method ReadBox(data: seq<byte>, start: nat) returns (r: Outcome<Header>)
    requires start + 8 <= |data|
    ensures var p := ParseBox(data[start..]);
      && (r.Ok? <==> p.Ok?)
      && (r.Ok? ==> p.value.box.kind == r.value.kind && p.value.box.payload == r.value.payload)
      && (r.Ok? ==> start + 8 <= r.value.next <= |data| && p.value.rest == data[r.value.next..])
      && (r.Err? ==> r.error == InvalidData)
  {
    hide BeU32, Word64, ParseBox;
    ParseAt(data, start);
    var pos := start;
    var length := BeU32(data, pos);
    var boxType: BoxType := data[pos + 4..pos + 8];
    pos := pos + 8;
    var boxLen: nat, headerExtra: nat := length, 8;
    if length == 1 {
      if pos + 8 > |data| {
        return Err(InvalidData);
      }
      var extLen := Word64(data[pos..pos + 8]);
      pos := pos + 8;
      if extLen < 16 {
        return Err(InvalidData);
      }
      boxLen, headerExtra := extLen, 16;
    } else if length == 0 {
      boxLen := SaturatingSub(|data|, pos) + 8;
    }
    if boxLen < headerExtra {
      return Err(InvalidData);
    }
    var payloadEnd: nat := pos + (boxLen - headerExtra);
    if payloadEnd > |data| {
      return Err(InvalidData);
    }
    return Ok(Header(boxType, data[pos..payloadEnd], payloadEnd));
  }

  /** `decode_jpx_to_codestream_with_limit`. */
  method DecodeJpxToCodestream(data: seq<byte>, maxOutputBytes: nat) returns (r: Outcome<seq<byte>>)
    ensures r == Decoded(data, maxOutputBytes)
  {
    hide Walk, ParseBox, Concat;
    if |data| < 2 {
      return Err(InvalidData);
    }
    if |data| >= 2 && data[0] == 0xFF && data[1] == 0x4F {
      if |data| > maxOutputBytes {
        return Err(DecompressionError);
      }
      return Ok(data);
    }
    if |data| < 12 {
      return Err(InvalidData);
    }
    var pos := 0;
    var codestreams: seq<seq<byte>> := [];
    var codestreamLength := 0;
    var sawSignature := false;
    ConcatNothing();
    assert data[0..] == data;
    ghost var all := Walk(data, [], false, false, maxOutputBytes);
    while pos <= SaturatingSub(|data|, 8)
      invariant 0 <= pos <= |data| && codestreamLength == |Concat(codestreams)|
      invariant Walk(data[pos..], Concat(codestreams), codestreams != [], sawSignature, maxOutputBytes) == all
      decreases |data| - pos
    {
      WalkStep(data[pos..], Concat(codestreams), codestreams != [], sawSignature, maxOutputBytes);
      var box := ReadBox(data, pos);
      if box.Err? {
        return Err(InvalidData);
      }
      var boxType, payload := box.value.kind, box.value.payload;
      pos := box.value.next;
      if boxType == SIGNATURE_TYPE {
        if payload != SIGNATURE {
          return Err(InvalidData);
        }
        sawSignature := true;
      } else if boxType == CODESTREAM_TYPE {
        codestreamLength := codestreamLength + |payload|;
        if codestreamLength > maxOutputBytes {
          return Err(DecompressionError);
        }
        ConcatSnoc(codestreams, payload);
        codestreams := codestreams + [payload];
      }
    }
    WalkEnd(data[pos..], Concat(codestreams), codestreams != [], sawSignature, maxOutputBytes);
    if !sawSignature {
      return Err(InvalidData);
    }
    if codestreams == [] {
      return Err(InvalidData);
    }
    return Ok(Concat(codestreams));
  }

  lemma ConcatNothing()
    ensures Concat([]) == []
  {
  }

  // ---------------------------------------------------------------- theorems

  /** The bytes of a list of boxes followed by `tail`. */
  function WrittenAll(bs: seq<Box>, tail: seq<byte>): seq<byte> {
    if bs == [] then tail else Written(bs[0], WrittenAll(bs[1..], tail))
  }

  /** Signature boxes carry the signature, a to-the-end box comes last, and fewer than eight bytes are left over. */
  predicate Allowed(bs: seq<Box>, tail: seq<byte>) {
    if bs == [] then |tail| < 8
    else
      && (bs[0].kind == SIGNATURE_TYPE ==> bs[0].payload == SIGNATURE)
      && (bs[0].form.ToEnd? ==> |bs| == 1 && tail == [])
      && Allowed(bs[1..], tail)
  }

  predicate HasType(bs: seq<Box>, kind: BoxType) {
    bs != [] && (bs[0].kind == kind || HasType(bs[1..], kind))
  }

  /** The `jp2c` payloads in order. */
  function Codestreams(bs: seq<Box>): seq<byte> {
    if bs == [] then []
    else (if bs[0].kind == CODESTREAM_TYPE then bs[0].payload else []) + Codestreams(bs[1..])
  }

  lemma {:induction false} WalkComplete(bs: seq<Box>, tail: seq<byte>, out: seq<byte>, any: bool, saw: bool, limit: nat)
    requires Allowed(bs, tail) && |out| <= limit
    ensures Walk(WrittenAll(bs, tail), out, any, saw, limit) ==
      if |out| + |Codestreams(bs)| > limit then Err(DecompressionError)
      else if (saw || HasType(bs, SIGNATURE_TYPE)) && (any || HasType(bs, CODESTREAM_TYPE)) then
        Ok(out + Codestreams(bs))
      else Err(InvalidData)
    decreases |bs|
  {
    hide Walk, ParseBox, Written;
    if bs == [] {
      WalkEnd(tail, out, any, saw, limit);
      assert out + [] == out;
    } else {
      var b, more := bs[0], WrittenAll(bs[1..], tail);
      assert b.form.ToEnd? ==> bs[1..] == [];
      ParseWritten(b, more);
      WalkStep(Written(b, more), out, any, saw, limit);
      if b.kind == CODESTREAM_TYPE {
        ConcatAssoc(out, b.payload, Codestreams(bs[1..]));
        if |out| + |b.payload| <= limit {
          WalkComplete(bs[1..], tail, out + b.payload, true, saw, limit);
        }
      } else {
        assert [] + Codestreams(bs[1..]) == Codestreams(bs[1..]);
        WalkComplete(bs[1..], tail, out, any, saw || b.kind == SIGNATURE_TYPE, limit);
      }
    }
  }

  lemma {:induction false} WalkSound(s: seq<byte>, out: seq<byte>, any: bool, saw: bool, limit: nat)
    returns (bs: seq<Box>, tail: seq<byte>)
    requires Walk(s, out, any, saw, limit).Ok?
    ensures s == WrittenAll(bs, tail) && Allowed(bs, tail)
    decreases |s|
  {
    hide Walk, ParseBox, Written;
    if |s| < 8 {
      bs, tail := [], s;
    } else {
      WalkStep(s, out, any, saw, limit);
      WrittenParse(s);
      var b, rest := ParseBox(s).value.box, ParseBox(s).value.rest;
      var more;
      if b.form.ToEnd? {
        more, tail := [], [];
      } else if b.kind == CODESTREAM_TYPE {
        more, tail := WalkSound(rest, out + b.payload, true, saw, limit);
      } else {
        more, tail := WalkSound(rest, out, any, saw || b.kind == SIGNATURE_TYPE, limit);
      }
      bs := [b] + more;
      assert bs[1..] == more;
    }
  }

  ghost predicate Container(data: seq<byte>, bs: seq<Box>, tail: seq<byte>, out: seq<byte>) {
    && data == WrittenAll(bs, tail) && Allowed(bs, tail)
    && HasType(bs, SIGNATURE_TYPE) && HasType(bs, CODESTREAM_TYPE)
    && out == Codestreams(bs)
  }

  /** The decoder returns `out` exactly for `out` itself, if it is a raw codestream, and for containers whose codestream
      payloads concatenate to `out`, within the limit. */
  lemma DecodesExactly(data: seq<byte>, limit: nat, out: seq<byte>)
    ensures Decoded(data, limit) == Ok(out) <==>
      |out| <= limit &&
      if |data| >= 2 && data[0] == 0xFF && data[1] == 0x4F then out == data
      else |data| >= 12 && exists bs, tail :: Container(data, bs, tail, out)
    ensures RawCodestream(data) && |data| > limit ==> Decoded(data, limit) == Err(DecompressionError)
  {
    hide Walk, WrittenAll, Allowed, HasType, Codestreams;
    if !RawCodestream(data) && |data| >= 12 {
      WalkedExactly(data, limit, out);
    }
  }

  lemma WalkedExactly(data: seq<byte>, limit: nat, out: seq<byte>)
    requires !RawCodestream(data) && |data| >= 12
    ensures Decoded(data, limit) == Ok(out) <==> |out| <= limit && exists bs, tail :: Container(data, bs, tail, out)
  {
    hide Walk, WrittenAll, Allowed, HasType, Codestreams;
    if Decoded(data, limit) == Ok(out) {
      var bs, tail := WalkSound(data, [], false, false, limit);
      WalkComplete(bs, tail, [], false, false, limit);
      assert [] + Codestreams(bs) == Codestreams(bs);
      assert Container(data, bs, tail, out);
    }
    if |out| <= limit && exists bs, tail :: Container(data, bs, tail, out) {
      var bs, tail :| Container(data, bs, tail, out);
      WalkComplete(bs, tail, [], false, false, limit);
      assert [] + Codestreams(bs) == Codestreams(bs);
    }
  }

  /** In particular: any allowed list of boxes that starts with the signature box decodes to its codestreams. */
  lemma ContainerDecodes(bs: seq<Box>, limit: nat)
    requires bs != [] && bs[0].kind == SIGNATURE_TYPE && !bs[0].form.ToEnd? && Allowed(bs, [])
    requires HasType(bs, CODESTREAM_TYPE)
    ensures Decoded(WrittenAll(bs, []), limit) ==
      if |Codestreams(bs)| > limit then Err(DecompressionError) else Ok(Codestreams(bs))
  {
    hide Walk, HasType, Codestreams, Allowed;
    assert HasType(bs, SIGNATURE_TYPE) && bs[0].payload == SIGNATURE by { FirstBox(bs); }
    SignatureFirst(bs[0], WrittenAll(bs[1..], []));
    WalkComplete(bs, [], [], false, false, limit);
    assert [] + Codestreams(bs) == Codestreams(bs);
  }

  lemma FirstBox(bs: seq<Box>)
    requires bs != [] && bs[0].kind == SIGNATURE_TYPE && Allowed(bs, [])
    ensures HasType(bs, SIGNATURE_TYPE) && bs[0].payload == SIGNATURE
  {
  }

  lemma SignatureFirst(b: Box, rest: seq<byte>)
    requires b.payload == SIGNATURE && !b.form.ToEnd?
    ensures |Written(b, rest)| >= 12 && !RawCodestream(Written(b, rest))
  {
    assert BeBytes(12) == [0, 0, 0, 12] && BeBytes(1) == [0, 0, 0, 1];
  }
}
