/** Code widths of the LZW encoder `encode_lzw_pdf` (src/compression/mod.rs), code by code as they are written: against
    section 7.4.4.2 of ISO 32000-1, and read back from the packed bits. */
module LzwWidths {
  import opened Bits
  import opened Lzw

  // ---------------------------------------------------------------- what is written

  /** The width the encoder is using when the next free code is `nextCode`. */
  function WidthAt(nextCode: nat, earlyChange: bool): (width: nat)
    ensures 9 <= width <= 12
  {
    var n := nextCode + if earlyChange then 1 else 0;
    if n < 511 then 9 else if n < 1023 then 10 else if n < 2047 then 11 else 12
  }

  /** Codes between the last Clear before write `i` and that write, which has a Clear every 3840 writes. */
  function Since(i: nat): nat {
    if i == 0 then 0 else (i - 1) % 3840
  }

  /** Write `i` of the encoder, the End code at the end excepted: a Clear every 3840 writes and nowhere else, a width
      that the number of codes since the last Clear determines, and a code that fits it. */
  ghost predicate Laid(writes: seq<Write>, i: nat, earlyChange: bool)
    requires i < |writes|
  {
    && (writes[i].code == CLEAR <==> i % 3840 == 0) && writes[i].code != END
    && writes[i].width == WidthAt(258 + Since(i), earlyChange)
    && writes[i].code < Pow2(writes[i].width)
  }

  ghost predicate AllLaid(st: Encoder, earlyChange: bool) {
    var n := |st.writes|;
    && n % 3840 != 0 && st.nextCode == 257 + n % 3840 && st.codeSize == WidthAt(st.nextCode, earlyChange)
    && forall i :: 0 <= i < n ==> Laid(st.writes, i, earlyChange)
  }

  lemma Powers()
    ensures Pow2(9) == 512 && Pow2(10) == 1024 && Pow2(11) == 2048 && Pow2(12) == 4096
  {
    Pow2Eight();
  }

  lemma WidenedWidth(nextCode: nat, earlyChange: bool)
    requires FIRST <= nextCode < TABLE_END
    ensures Widened(WidthAt(nextCode, earlyChange), nextCode + 1, earlyChange) == WidthAt(nextCode + 1, earlyChange)
  {
    Powers();
  }

  /** A code below the next free one fits the width in use. */
  lemma CodeFits(code: nat, nextCode: nat, earlyChange: bool)
    requires (code < nextCode || code == CLEAR) && nextCode <= TABLE_END
    ensures code < Pow2(WidthAt(nextCode, earlyChange))
  {
    Powers();
  }

  /** One more write, laid like those before it. */
  lemma OneMoreLaid(writes: seq<Write>, last: Write, earlyChange: bool)
    requires forall i :: 0 <= i < |writes| ==> Laid(writes, i, earlyChange)
    requires Laid(writes + [last], |writes|, earlyChange)
    ensures forall i :: 0 <= i < |writes| + 1 ==> Laid(writes + [last], i, earlyChange)
  {
    hide Pow2, WidthAt;
    forall i | 0 <= i < |writes| + 1 ensures Laid(writes + [last], i, earlyChange) {
      if i < |writes| { assert Laid(writes, i, earlyChange); }
    }
  }

  lemma Places(n: nat)
    requires n % 3840 != 0
    ensures Since(n) == n % 3840 - 1
    ensures n % 3840 < 3839 ==> (n + 1) % 3840 == n % 3840 + 1
    ensures n % 3840 == 3839 ==> (n + 1) % 3840 == 0 && (n + 2) % 3840 == 1 && Since(n + 1) == 3839
  {
  }

  /** The code of the phrase, written next. */
  lemma PhraseLaid(data: seq<byte>, earlyChange: bool)
    requires var st := Run(data, earlyChange); AllLaid(st, earlyChange) && st.w != []
    ensures var st := Run(data, earlyChange);
      st.w in st.dict && var out := st.writes + [Write(st.dict[st.w], st.codeSize)];
      forall i :: 0 <= i < |out| ==> Laid(out, i, earlyChange)
  {
    hide Pow2, WidthAt, Run;
    var st := Run(data, earlyChange);
    DictionaryInvariant(data, earlyChange);
    ReadyPhrase(st);
    Places(|st.writes|);
    CodeFits(st.dict[st.w], st.nextCode, earlyChange);
    OneMoreLaid(st.writes, Write(st.dict[st.w], st.codeSize), earlyChange);
  }

  lemma {:induction false} RunLaid(data: seq<byte>, earlyChange: bool)
    ensures AllLaid(Run(data, earlyChange), earlyChange)
  {
    hide Run, Pow2, Laid, WidthAt, Singles, Widened, Since;
    if data == [] {
      RunEmpty(earlyChange);
      StartLaid(earlyChange);
    } else {
      var front, k := data[..|data| - 1], data[|data| - 1];
      var st := Run(front, earlyChange);
      RunLaid(front, earlyChange);
      RunLast(data, earlyChange);
      if st.w + [k] !in st.dict {
        assert [] + [k] == [k];
        PhraseLaid(front, earlyChange);
        Places(|st.writes|);
        if st.nextCode < TABLE_END {
          WidenedWidth(st.nextCode, earlyChange);
        } else {
          ClearLaid(st.writes + [Write(st.dict[st.w], st.codeSize)], earlyChange);
        }
      }
    }
  }

  lemma StartLaid(earlyChange: bool)
    ensures AllLaid(START, earlyChange)
  {
    hide Singles;
    Powers();
  }

  lemma ClearLaid(writes: seq<Write>, earlyChange: bool)
    requires |writes| % 3840 == 0 && |writes| > 0 && forall i :: 0 <= i < |writes| ==> Laid(writes, i, earlyChange)
    ensures WidthAt(258, earlyChange) == 9 && WidthAt(4096, earlyChange) == 12
    ensures var out := writes + [Write(CLEAR, 12)]; forall i :: 0 <= i < |out| ==> Laid(out, i, earlyChange)
  {
    Powers();
    assert (|writes| - 1) % 3840 == 3839;
    hide Pow2;
    OneMoreLaid(writes, Write(CLEAR, 12), earlyChange);
  }

  /** Everything the encoder writes: an End code last and nowhere else, in the width of the code before it; before it a
      Clear every 3840 writes, and every code in the width that the number of codes since the last Clear determines. */
  lemma WritesExactly(data: seq<byte>, earlyChange: bool)
    ensures var writes := Encoded(data, earlyChange);
      var n := |writes| - 1;
      && n >= 1 && (n == 1 <==> data == []) && (n - 1) % 3840 == (if n == 1 then 0 else Since(n - 1) + 1)
      && (forall i :: 0 <= i < n ==> Laid(writes, i, earlyChange))
      && writes[n] == Write(END, if n == 1 then 9 else writes[n - 1].width)
  {
    hide Run, Laid, WidthAt, Since, Singles;
    var st := Run(data, earlyChange);
    RunLaid(data, earlyChange);
    RunNonempty(data, earlyChange);
    if st.w != [] {
      PhraseLaid(data, earlyChange);
      Places(|st.writes|);
      LaidBefore(st.writes + [Write(st.dict[st.w], st.codeSize)], Write(END, st.codeSize), earlyChange);
    } else {
      RunEmpty(earlyChange);
      LaidBefore(st.writes, Write(END, st.codeSize), earlyChange);
    }
  }

  lemma LaidBefore(writes: seq<Write>, last: Write, earlyChange: bool)
    requires forall i :: 0 <= i < |writes| ==> Laid(writes, i, earlyChange)
    ensures forall i :: 0 <= i < |writes| ==> Laid(writes + [last], i, earlyChange)
  {
    hide Pow2, WidthAt;
    forall i | 0 <= i < |writes| ensures Laid(writes + [last], i, earlyChange) {
      assert Laid(writes, i, earlyChange);
    }
  }

  lemma {:induction false} RunNonempty(data: seq<byte>, earlyChange: bool)
    ensures Run(data, earlyChange).w == [] <==> data == []
    ensures |Run(data, earlyChange).writes| >= 1
  {
    hide Singles, Widened;
    if data != [] {
      RunNonempty(data[..|data| - 1], earlyChange);
    }
  }

  predicate Fits(write: Write) {
    9 <= write.width <= 12 && write.code < Pow2(write.width)
  }

  /** Every code fits the width it is written with. */
  lemma CodesFit(data: seq<byte>, earlyChange: bool)
    ensures forall i :: 0 <= i < |Encoded(data, earlyChange)| ==> Fits(Encoded(data, earlyChange)[i])
  {
    hide Run, Pow2, Encoded;
    Powers();
    WritesExactly(data, earlyChange);
    var writes := Encoded(data, earlyChange);
    forall i | 0 <= i < |writes| ensures Fits(writes[i]) {
      if i < |writes| - 1 { assert Laid(writes, i, earlyChange); }
      assert |writes| > 2 ==> Laid(writes, |writes| - 2, earlyChange);
    }
  }

  // ---------------------------------------------------------------- the standard's widths

  /** The width rule of the standard: with early change the first 10-bit code follows the creation of entry 511,
      the first 11-bit code that of 1023, and the first 12-bit code that of 2047; without it each comes one
      entry later, when a longer code is first possible. */
  function StandardWidth(nextCode: nat, earlyChange: bool): nat {
    var n := nextCode + if earlyChange then 1 else 0;
    if n <= 512 then 9 else if n <= 1024 then 10 else if n <= 2048 then 11 else 12
  }

  /** Without early change that is the least width, of 9 bits or more, that holds every code that may come; with it, the
      width one entry later. */
  lemma StandardWidthExactly(nextCode: nat)
    requires 258 <= nextCode <= TABLE_END
    ensures var width := StandardWidth(nextCode, false);
      9 <= width <= 12 && nextCode - 1 < Pow2(width) && (width > 9 ==> nextCode - 1 >= Pow2(width - 1))
    ensures StandardWidth(nextCode, true) == StandardWidth(nextCode + 1, false)
  {
    Powers();
  }

  /** Every code is written in the width in which the standard's decoder reads it. */
  ghost predicate StandardWidths(writes: seq<Write>, earlyChange: bool) {
    forall i :: 0 <= i < |writes| ==> writes[i].width == StandardWidth(258 + Since(i), earlyChange)
  }

  /** Codes, Clear and End included, that are always written with the standard's widths. */
  function StandardCodes(earlyChange: bool): nat {
    if earlyChange then 254 else 255
  }

  /** The encoder widens two entries before the standard does, so its widths are the standard's exactly when it writes
      at most 254 codes, Clear and End included, or 255 without early change. */
  lemma StandardWidthsExactly(data: seq<byte>, earlyChange: bool)
    ensures StandardWidths(Encoded(data, earlyChange), earlyChange) <==>
      |Encoded(data, earlyChange)| <= StandardCodes(earlyChange)
  {
    hide Encoded, Pow2;
    WritesExactly(data, earlyChange);
    var writes := Encoded(data, earlyChange);
    if |writes| <= StandardCodes(earlyChange) {
      forall i | 0 <= i < |writes| ensures writes[i].width == StandardWidth(258 + Since(i), earlyChange) {
        if i < |writes| - 1 { assert Laid(writes, i, earlyChange); }
        assert |writes| > 2 ==> Laid(writes, |writes| - 2, earlyChange);
      }
    } else {
      var i := StandardCodes(earlyChange) - 1;
      assert Laid(writes, i, earlyChange);
      assert writes[i].width != StandardWidth(258 + Since(i), earlyChange);
    }
  }

  /** Few bytes make few codes. */
  lemma {:induction false} RunShort(data: seq<byte>, earlyChange: bool)
    requires 0 < |data| <= 3839
    ensures |Run(data, earlyChange).writes| <= |data|
  {
    hide Singles, Widened, AllLaid;
    var front, k := data[..|data| - 1], data[|data| - 1];
    assert [] + [k] == [k];
    if front == [] {
      RunEmpty(earlyChange);
      FirstStep(k, earlyChange);
    } else {
      RunShort(front, earlyChange);
      RunBelow(front, earlyChange);
    }
  }

  lemma RunBelow(data: seq<byte>, earlyChange: bool)
    requires |Run(data, earlyChange).writes| < 3839
    ensures Run(data, earlyChange).nextCode < TABLE_END
  {
    hide Run, Laid, WidthAt;
    RunLaid(data, earlyChange);
  }

  /** Data of at most 252 bytes, without early change 253, is written with the standard's widths. */
  lemma ShortDataStandard(data: seq<byte>, earlyChange: bool)
    requires |data| <= if earlyChange then 252 else 253
    ensures StandardWidths(Encoded(data, earlyChange), earlyChange)
  {
    hide Run, StandardWidths;
    if data != [] {
      RunShort(data, earlyChange);
    } else {
      RunEmpty(earlyChange);
    }
    StandardWidthsExactly(data, earlyChange);
  }

  function Ascending(n: nat): (data: seq<byte>)
    requires n <= 256
    ensures |data| == n
  {
    seq(n, i requires 0 <= i < n => i as byte)
  }

  /** Phrases of the ascending input: single bytes, and neighbours both already read. */
  ghost predicate Neighbours(dict: Dictionary, n: nat) {
    forall s :: s in dict ==> |s| == 1 || (|s| == 2 && s[1] < n)
  }

  lemma {:induction false} AscendingRun(n: nat, earlyChange: bool)
    requires 1 <= n <= 256
    ensures var st := Run(Ascending(n), earlyChange);
      st.w == [n - 1] && |st.writes| == n && Neighbours(st.dict, n)
  {
    hide Run, Step, Ascending;
    AscendingLast(n);
    RunLast(Ascending(n), earlyChange);
    if n == 1 {
      RunEmpty(earlyChange);
      FirstStep(0, earlyChange);
    } else {
      AscendingRun(n - 1, earlyChange);
      RunBelow(Ascending(n - 1), earlyChange);
      NeighbourStep(Run(Ascending(n - 1), earlyChange), n - 1, earlyChange);
    }
  }

  lemma AscendingLast(n: nat)
    requires 1 <= n <= 256
    ensures Ascending(n)[..n - 1] == Ascending(n - 1) && Ascending(n)[n - 1] == n - 1
    ensures Ascending(0) == []
  {
  }

  lemma FirstStep(k: byte, earlyChange: bool)
    ensures Step(START, k, earlyChange) == START.(w := [k])
  {
    hide Singles;
    assert [] + [k] == [k];
    SinglesMatch();
  }

  lemma NeighbourStep(st: Encoder, n: nat, earlyChange: bool)
    requires 1 <= n < 256 && Ready(st) && st.w == [n - 1] && Neighbours(st.dict, n) && st.nextCode < TABLE_END
    ensures var next := Step(st, n, earlyChange);
      next.w == [n] && |next.writes| == |st.writes| + 1 && Neighbours(next.dict, n + 1)
  {
    hide Widened, Singles;
    assert st.w + [n] == [n - 1, n];
  }

  /** One byte more can be too much: the bytes 0, 1, ..., 252, and 253 without early change, are not written
      with the standard's widths. */
  lemma AscendingNotStandard(earlyChange: bool)
    ensures !StandardWidths(Encoded(Ascending(if earlyChange then 253 else 254), earlyChange), earlyChange)
  {
    hide Run, Ascending, StandardWidths;
    var data := Ascending(if earlyChange then 253 else 254);
    AscendingRun(|data|, earlyChange);
    StandardWidthsExactly(data, earlyChange);
  }

  // ---------------------------------------------------------------- packed and read back

  /** A code in `width` bits, the most significant first. */
  function CodeBits(code: nat, width: nat): (bits: seq<bool>)
    ensures |bits| == width
  {
    seq(width, j requires 0 <= j < width => Bit(code, width - 1 - j))
  }

  /** The bits of a list of writes, one after the other. */
  function Packed(writes: seq<Write>): seq<bool> {
    if writes == [] then [] else CodeBits(writes[0].code, writes[0].width) + Packed(writes[1..])
  }

  /** The number whose most significant bit is the first. */
  function Number(bits: seq<bool>): nat {
    if bits == [] then 0 else 2 * Number(bits[..|bits| - 1]) + if bits[|bits| - 1] then 1 else 0
  }

  /** A decoder's reading of packed codes: each in the width that the number of codes since the last Clear determines,
      up to the End code. */
  function ReadCodes(bits: seq<bool>, since: nat, earlyChange: bool): seq<nat>
    decreases |bits|
  {
    var width := WidthAt(258 + since, earlyChange);
    if |bits| < width then []
    else
      var code := Number(bits[..width]);
      if code == END then [END]
      else [code] + ReadCodes(bits[width..], if code == CLEAR then 0 else since + 1, earlyChange)
  }

  lemma {:induction false} NumberOfBits(code: nat, width: nat)
    requires code < Pow2(width)
    ensures Number(CodeBits(code, width)) == code
  {
    if width > 0 {
      var bits := CodeBits(code, width);
      assert bits[width - 1] == Bit(code, 0);
      forall j | 0 <= j < width - 1 ensures bits[j] == CodeBits(code / 2, width - 1)[j] {
        assert Bit(code, width - 1 - j) == Bit(code / 2, width - 2 - j);
      }
      assert bits[..width - 1] == CodeBits(code / 2, width - 1);
      NumberOfBits(code / 2, width - 1);
    }
  }

  /** One code read off the front, in its own width. */
  lemma OneRead(write: Write, rest: seq<bool>, since: nat, earlyChange: bool)
    requires write.width == WidthAt(258 + since, earlyChange) && write.code < Pow2(write.width)
    ensures ReadCodes(CodeBits(write.code, write.width) + rest, since, earlyChange) ==
      if write.code == END then [END]
      else [write.code] + ReadCodes(rest, if write.code == CLEAR then 0 else since + 1, earlyChange)
  {
    hide WidthAt, CodeBits, Number, Pow2;
    var bits := CodeBits(write.code, write.width) + rest;
    NumberOfBits(write.code, write.width);
    assert bits[..write.width] == CodeBits(write.code, write.width) && bits[write.width..] == rest;
  }

  lemma PackedFirst(writes: seq<Write>, i: nat, tail: seq<bool>)
    requires i < |writes|
    ensures Packed(writes[i..]) + tail == CodeBits(writes[i].code, writes[i].width) + (Packed(writes[i + 1..]) + tail)
  {
    hide CodeBits;
    assert writes[i..][1..] == writes[i + 1..];
    ConcatAssoc(CodeBits(writes[i].code, writes[i].width), Packed(writes[i + 1..]), tail);
  }

  lemma NextSince(i: nat)
    ensures Since(i + 1) == if i % 3840 == 0 then 0 else Since(i) + 1
  {
  }

  /** All codes but the last are read back. */
  lemma {:induction false} ReadsOn(writes: seq<Write>, i: nat, tail: seq<bool>, earlyChange: bool)
    requires i < |writes| && forall k :: 0 <= k < |writes| - 1 ==> Laid(writes, k, earlyChange)
    ensures ReadCodes(Packed(writes[i..]) + tail, Since(i), earlyChange) ==
      Codes(writes[i..|writes| - 1]) +
        ReadCodes(Packed(writes[|writes| - 1..]) + tail, Since(|writes| - 1), earlyChange)
    decreases |writes| - i
  {
    hide WidthAt, CodeBits, ReadCodes, Packed, Pow2, Since;
    var n := |writes| - 1;
    if i == n {
      assert Codes(writes[n..n]) == [];
    } else {
      assert Laid(writes, i, earlyChange);
      PackedFirst(writes, i, tail);
      OneRead(writes[i], Packed(writes[i + 1..]) + tail, Since(i), earlyChange);
      NextSince(i);
      ReadsOn(writes, i + 1, tail, earlyChange);
      assert Codes(writes[i..n]) == [writes[i].code] + Codes(writes[i + 1..n]);
    }
  }

  /** The End code comes when the last code has just filled a width: by the rule that holds for every other code it
      should be one bit wider. */
  predicate EndTooNarrow(writes: nat, earlyChange: bool) {
    writes >= 3 && (writes - 2) % 3840 in (if earlyChange then {252, 764, 1788} else {253, 765, 1789})
  }

  lemma EndWidths(n: nat, earlyChange: bool)
    requires n >= 2 && (n - 1) % 3840 == Since(n - 1) + 1
    ensures var own, rule := WidthAt(258 + Since(n - 1), earlyChange), WidthAt(258 + Since(n), earlyChange);
      (own == rule <==> !EndTooNarrow(n + 1, earlyChange)) && own <= rule <= own + 1
  {
  }

  lemma EndNarrow(width: nat, tail: seq<bool>, since: nat, earlyChange: bool)
    requires width >= 9 && WidthAt(258 + since, earlyChange) == width + 1
    ensures var codes := ReadCodes(CodeBits(END, width) + tail, since, earlyChange);
      codes == [] || codes[0] != END
  {
    hide CodeBits, WidthAt;
    var bits := CodeBits(END, width) + tail;
    if |bits| > width {
      Powers();
      Pow2Monotone(9, width);
      NumberOfBits(END, width);
      assert bits[..width + 1][..width] == CodeBits(END, width);
    }
  }

  /** Read back: the packed codes, with anything after them, are read as they were written by the rule that the encoder
      itself follows up to the End code, exactly when the End code is not too narrow; then they decode to the data. */
  lemma ReadBackExactly(data: seq<byte>, tail: seq<bool>, earlyChange: bool)
    ensures var writes := Encoded(data, earlyChange);
      var codes := ReadCodes(Packed(writes) + tail, 0, earlyChange);
      && (codes == Codes(writes) <==> !EndTooNarrow(|writes|, earlyChange))
      && (codes == Codes(writes) ==> var d := DecodeRun(codes); d.Decoder? && d.ended && d.out == data)
  {
    hide Encoded, ReadCodes, CodeBits, WidthAt, Pow2, DecodeRun;
    var writes := Encoded(data, earlyChange);
    var n := |writes| - 1;
    RoundTrip(data, earlyChange);
    WritesExactly(data, earlyChange);
    ReadsOn(writes, 0, tail, earlyChange);
    assert writes[0..] == writes && writes[n..] == [writes[n]] && writes[0..n] == writes[..n];
    PackedFirst(writes, n, tail);
    assert Packed(writes[n + 1..]) + tail == tail;
    assert Codes(writes) == Codes(writes[..n]) + [END];
    EndFits(earlyChange);
    if n == 1 {
      OneRead(writes[n], tail, Since(n), earlyChange);
    } else {
      assert Laid(writes, n - 1, earlyChange);
      EndWidths(n, earlyChange);
      if EndTooNarrow(n + 1, earlyChange) {
        EndNarrow(writes[n].width, tail, Since(n), earlyChange);
        assert Codes(writes)[n] == END;
      } else {
        OneRead(writes[n], tail, Since(n), earlyChange);
      }
    }
  }

  lemma EndFits(earlyChange: bool)
    ensures forall width: nat :: 9 <= width ==> END < Pow2(width)
    ensures WidthAt(258, earlyChange) == 9 && Since(1) == 0
  {
    Powers();
    forall width: nat | 9 <= width ensures END < Pow2(width) { Pow2Monotone(9, width); }
  }

  /** Two bytes, code by code. */
  lemma TwoBytesWritten()
    ensures Encoded([65, 66], true) == [Write(256, 9), Write(65, 9), Write(66, 9), Write(257, 9)]
  {
    hide Singles, Widened;
    var data: seq<byte> := [65, 66];
    assert data[..1] == [65] && data[..1][..0] == [] && data[..2] == data;
    RunEmpty(true);
    RunLast(data, true);
    RunLast([65], true);
    assert [65][..0] == [];
    FirstStep(65, true);
    SinglesMatch();
    assert [65] + [66] == [65, 66];
    WidenedStart();
  }

  lemma WidenedStart()
    ensures Widened(9, 259, true) == 9
  {
    Powers();
  }
}
