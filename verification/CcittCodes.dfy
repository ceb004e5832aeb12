/** The two-dimensional mode codes: `read_2d_mode` (src/filters/ccitt.rs) and its table `FAX_MAIN_TABLE`
    (src/filters/ccitt_tables.rs), against the code words of table 4 of ITU-T T.4. */
module CcittCodes {
  import opened Bits
  import opened CcittBits

  /** A mode code; the two runs of the horizontal mode follow in codes of their own. */
  datatype RawCode = Pass | Horizontal | Vertical(offset: int) | Extension | EndOfLine

  type ModeCode = m: RawCode | m.Vertical? ==> -3 <= m.offset <= 3 witness Pass

  /** The code words, first bit first; the last two are the seven bits by which the decoder tells them. */
  function Code(m: ModeCode): (bits: seq<bool>)
    ensures 1 <= |bits| <= 7
  {
    match m
    case Pass => [false, false, false, true]
    case Horizontal => [false, false, true]
    case Vertical(offset) =>
      if offset == 0 then [true]
      else if offset == 1 then [false, true, true]
      else if offset == -1 then [false, true, false]
      else if offset == 2 then [false, false, false, false, true, true]
      else if offset == -2 then [false, false, false, false, true, false]
      else if offset == 3 then [false, false, false, false, false, true, true]
      else [false, false, false, false, false, true, false]
    case Extension => [false, false, false, false, false, false, true]
    case EndOfLine => [false, false, false, false, false, false, false]
  }

  // ---------------------------------------------------------------- the table

  datatype Entry = Entry(state: nat, width: nat, param: nat)

  const V0 := Entry(3, 1, 0)
  const VL1 := Entry(5, 3, 1)
  const VR1 := Entry(4, 3, 1)
  const HORIZ := Entry(2, 3, 0)

  /** Every sixteen entries of the table differ in the first only. */
  const FIRST_OF_SIXTEEN: seq<Entry> := [
    Entry(12, 7, 0), Entry(5, 6, 2), Entry(5, 7, 3), Entry(4, 6, 2),
    Entry(6, 7, 0), Entry(5, 6, 2), Entry(4, 7, 3), Entry(4, 6, 2)]

  const OTHERS_OF_SIXTEEN: seq<Entry> :=
    [V0, VL1, V0, HORIZ, V0, VR1, V0, Entry(1, 4, 0), V0, VL1, V0, HORIZ, V0, VR1, V0]

  /** `FAX_MAIN_TABLE`, indexed by seven bits of which the first is the lowest. */
  function MainTable(index: nat): Entry
    requires index < 128
  {
    if index % 16 == 0 then FIRST_OF_SIXTEEN[index / 16] else OTHERS_OF_SIXTEEN[index % 16 - 1]
  }

  function ModeOf(e: Entry): Option<RawCode> {
    if e.state == 1 then Some(Pass)
    else if e.state == 2 then Some(Horizontal)
    else if e.state == 3 then Some(Vertical(0))
    else if e.state == 4 then Some(Vertical(e.param))
    else if e.state == 5 then Some(Vertical(0 - e.param as int))
    else if e.state == 6 then Some(Extension)
    else if e.state == 12 then Some(EndOfLine)
    else None
  }

  function Weight(bit: bool, w: nat): nat {
    if bit then w else 0
  }

  lemma FourBits(b0: bool, b1: bool, b2: bool, b3: bool, more: seq<bool>)
    ensures Value([b0, b1, b2, b3] + more) ==
      Weight(b0, 1) + Weight(b1, 2) + Weight(b2, 4) + Weight(b3, 8) + 16 * Value(more)
  {
    hide Value;
    ValueStep(b3, more);
    ValueStep(b2, [b3] + more);
    ValueStep(b1, [b2] + ([b3] + more));
    ValueStep(b0, [b1] + ([b2] + ([b3] + more)));
    assert [b0, b1, b2, b3] + more == [b0] + ([b1] + ([b2] + ([b3] + more)));
  }

  lemma ThreeBits(b0: bool, b1: bool, b2: bool)
    ensures Value([b0, b1, b2]) == Weight(b0, 1) + Weight(b1, 2) + Weight(b2, 4)
  {
    hide Value;
    ValueNone();
    ValueStep(b2, []);
    ValueStep(b1, [b2] + []);
    ValueStep(b0, [b1] + ([b2] + []));
    assert [b0, b1, b2] == [b0] + ([b1] + ([b2] + []));
  }

  lemma LowAndHigh(low: nat, high: nat)
    requires low < 16
    ensures (low + 16 * high) % 16 == low && (low + 16 * high) / 16 == high
  {
  }

  /** The value of seven bits, in its low four and high three. */
  lemma SevenBits(s: seq<bool>)
    requires |s| == 7
    ensures var v := Value(s);
      && v < 128
      && v % 16 == Weight(s[0], 1) + Weight(s[1], 2) + Weight(s[2], 4) + Weight(s[3], 8)
      && v / 16 == Weight(s[4], 1) + Weight(s[5], 2) + Weight(s[6], 4)
  {
    hide Value;
    assert s == [s[0], s[1], s[2], s[3]] + [s[4], s[5], s[6]];
    FourBits(s[0], s[1], s[2], s[3], [s[4], s[5], s[6]]);
    ThreeBits(s[4], s[5], s[6]);
    LowAndHigh(Weight(s[0], 1) + Weight(s[1], 2) + Weight(s[2], 4) + Weight(s[3], 8), Value([s[4], s[5], s[6]]));
  }

  /** The entry at an index names a mode code of its width. */
  predicate Names(index: nat, m: ModeCode)
    requires index < 128
  {
    ModeOf(MainTable(index)) == Some(m) && MainTable(index).width == |Code(m)|
  }

  /** Indexes that are not multiples of sixteen: codes of up to four bits. */
  lemma ShortCodes(b0: bool, b1: bool, b2: bool, b3: bool, index: nat) returns (m: ModeCode)
    requires index < 128 && index % 16 == Weight(b0, 1) + Weight(b1, 2) + Weight(b2, 4) + Weight(b3, 8) > 0
    ensures Names(index, m) && |Code(m)| <= 4 && Code(m) == [b0, b1, b2, b3][..|Code(m)|]
  {
    m := if b0 then Vertical(0)
         else if b1 then (if b2 then Vertical(1) else Vertical(-1))
         else if b2 then Horizontal
         else Pass;
  }

  /** Multiples of sixteen: codes of six and seven bits. */
  lemma LongCodes(b4: bool, b5: bool, b6: bool, index: nat) returns (m: ModeCode)
    requires index < 128 && index % 16 == 0 && index / 16 == Weight(b4, 1) + Weight(b5, 2) + Weight(b6, 4)
    ensures Names(index, m) && |Code(m)| <= 7 && Code(m) == [false, false, false, false, b4, b5, b6][..|Code(m)|]
  {
    m := if b4 then (if b5 then Vertical(2) else Vertical(-2))
         else if b5 then (if b6 then Vertical(3) else Vertical(-3))
         else if b6 then Extension
         else EndOfLine;
  }

  /** Seven bits start with one code word at least. */
  lemma SomeCode(s: seq<bool>) returns (m: ModeCode)
    requires |s| == 7
    ensures Value(s) < 128 && Names(Value(s), m) && Code(m) == s[..|Code(m)|]
  {
    hide Value, Names, Code;
    assert s == [s[0], s[1], s[2], s[3], s[4], s[5], s[6]];
    SevenBits(s);
    if s[0] || s[1] || s[2] || s[3] {
      m := ShortCodes(s[0], s[1], s[2], s[3], Value(s));
    } else {
      m := LongCodes(s[4], s[5], s[6], Value(s));
    }
  }

  lemma CodeNamed(s: seq<bool>, m: ModeCode)
    requires |s| == 7 && Code(m) == s[..|Code(m)|]
    ensures Value(s) < 128 && Names(Value(s), m)
  {
    hide Value, Code, Names;
    SevenBits(s);
    var n := |Code(m)|;
    forall i | 0 <= i < n ensures Code(m)[i] == s[i] { assert s[..n][i] == s[i]; }
    NamesBits(m, Value(s), s[0], s[1], s[2], s[3], s[4], s[5], s[6]);
  }

  lemma NamesBits(m: ModeCode, index: nat, b0: bool, b1: bool, b2: bool, b3: bool, b4: bool, b5: bool, b6: bool)
    requires index < 128
    requires index % 16 == Weight(b0, 1) + Weight(b1, 2) + Weight(b2, 4) + Weight(b3, 8)
    requires index / 16 == Weight(b4, 1) + Weight(b5, 2) + Weight(b6, 4)
    requires var x := Code(m);
      && x[0] == b0 && (|x| > 1 ==> x[1] == b1) && (|x| > 2 ==> x[2] == b2) && (|x| > 3 ==> x[3] == b3)
      && (|x| > 4 ==> x[4] == b4) && (|x| > 5 ==> x[5] == b5) && (|x| > 6 ==> x[6] == b6)
    ensures Names(index, m)
  {
  }

  lemma OneName(index: nat, a: ModeCode, b: ModeCode)
    requires index < 128 && Names(index, a) && Names(index, b)
    ensures a == b
  {
  }

  /** The table is right for every seven bits: it names a mode exactly when they start with its code word. */
  lemma TableExactly(s: seq<bool>, m: ModeCode)
    requires |s| == 7
    ensures Value(s) < 128 && (Names(Value(s), m) <==> Code(m) == s[..|Code(m)|])
  {
    hide Value, Names, Code;
    var some := SomeCode(s);
    if Names(Value(s), m) {
      OneName(Value(s), m, some);
    }
    if Code(m) == s[..|Code(m)|] {
      CodeNamed(s, m);
    }
  }

  // ---------------------------------------------------------------- reading

  lemma CodeNames(s: seq<bool>)
    requires |s| == 7
    ensures Value(s) < 128 && ModeOf(MainTable(Value(s))).Some?
    ensures var m := ModeOf(MainTable(Value(s))).value;
      (m.Vertical? ==> -3 <= m.offset <= 3) && Code(m) == s[..|Code(m)|] && Names(Value(s), m)
  {
    hide Value, Code;
    var m := SomeCode(s);
  }

  /** The one code that seven bits start with. */
  function CodeOf(s: seq<bool>): (m: ModeCode)
    requires |s| == 7
    ensures Code(m) == s[..|Code(m)|]
  {
    CodeNames(s);
    ModeOf(MainTable(Value(s))).value
  }

  /** `read_2d_mode`, up to the runs of a horizontal mode. After a code of fewer than seven bits the reader has
      claimed all seven, so it does not report the end of the data. */
  method ReadMode(reader: BitReader) returns (r: Option<ModeCode>)
    requires reader.Valid()
    modifies reader
    ensures reader.Valid()
    ensures r == if old(reader.IsAtEnd()) then None else Some(CodeOf(Stream(reader.data, old(reader.pos), 7)))
    ensures r.None? ==> At(reader) == old(At(reader))
    ensures r.Some? ==> Code(r.value) == Stream(reader.data, old(reader.pos), |Code(r.value)|)
    ensures r.Some? ==> At(reader) == Past(old(At(reader)), |Code(r.value)|, 7)
    ensures r.Some? && |Code(r.value)| < 7 ==> !reader.IsAtEnd()
  {
    hide Value, Stream, Code, Names;
    var bits := reader.PeekBits(7);
    if bits.None? {
      return None;
    }
    ghost var s := Stream(reader.data, reader.pos, 7);
    CodeNames(s);
    var entry := MainTable(bits.value);
    EntryOf(bits.value, CodeOf(s));
    reader.ConsumeBits(entry.width);
    StreamFront(reader.data, old(reader.pos), |Code(CodeOf(s))|);
    AtEndExactly(reader);
    r := ModeOf(entry);
  }

  lemma EntryOf(index: nat, m: ModeCode)
    requires index < 128 && Names(index, m)
    ensures ModeOf(MainTable(index)) == Some(m) && MainTable(index).width == |Code(m)|
  {
  }

  lemma StreamFront(data: seq<byte>, pos: nat, n: nat)
    requires n <= 7
    ensures Stream(data, pos, 7)[..n] == Stream(data, pos, n)
  {
    StreamSplit(data, pos, n, 7 - n);
  }

  /** Two codes read at one place of the stream are the same. */
  lemma ReadOneWay(data: seq<byte>, pos: nat, a: ModeCode, b: ModeCode)
    requires Code(a) == Stream(data, pos, |Code(a)|) && Code(b) == Stream(data, pos, |Code(b)|)
    ensures a == b
  {
    hide Value, Stream, Code, Names;
    var s := Stream(data, pos, 7);
    StreamFront(data, pos, |Code(a)|);
    StreamFront(data, pos, |Code(b)|);
    CodeNamed(s, a);
    CodeNamed(s, b);
    OneName(Value(s), a, b);
  }

  /** The bits of a list of codes. */
  function Written(ms: seq<ModeCode>): seq<bool> {
    if ms == [] then [] else Code(ms[0]) + Written(ms[1..])
  }

  /** `data` carries the codes `ms` from bit `pos` on. */
  ghost predicate Carries(data: seq<byte>, pos: nat, ms: seq<ModeCode>) {
    Holds(data, pos, Written(ms))
  }

  lemma CarriesFirst(data: seq<byte>, pos: nat, ms: seq<ModeCode>)
    requires Carries(data, pos, ms) && ms != []
    ensures Code(ms[0]) == Stream(data, pos, |Code(ms[0])|) && Carries(data, pos + |Code(ms[0])|, ms[1..])
    ensures |Written(ms)| == |Code(ms[0])| + |Written(ms[1..])| && pos < 8 * |data|
  {
    hide Code, Stream;
    var first, more := Code(ms[0]), Written(ms[1..]);
    StreamSplit(data, pos, |first|, |more|);
    assert (first + more)[..|first|] == first && (first + more)[|first|..] == more;
  }

  /** Round trip: codes written one after the other are read back, each from where the last one ends. */
  method ReadModes(reader: BitReader, ghost ms: seq<ModeCode>, n: nat) returns (read: seq<ModeCode>)
    requires reader.Valid() && Carries(reader.data, reader.pos, ms) && n == |ms|
    modifies reader
    ensures reader.Valid() && read == ms && reader.pos == old(reader.pos) + |Written(ms)|
  {
    hide Code, Stream, Written, Carries;
    read := [];
    assert ms[0..] == ms;
    for i := 0 to n
      invariant reader.Valid() && |read| == i && read == ms[..i]
      invariant Carries(reader.data, reader.pos, ms[i..])
      invariant reader.pos + |Written(ms[i..])| == old(reader.pos) + |Written(ms)|
    {
      ghost var pos := reader.pos;
      CarriesFirst(reader.data, pos, ms[i..]);
      assert ms[i..][1..] == ms[i + 1..] && ms[i..][0] == ms[i];
      var mode := ReadMode(reader);
      ReadOneWay(reader.data, pos, mode.value, ms[i]);
      read := read + [mode.value];
      assert ms[..i + 1] == ms[..i] + [ms[i]];
    }
    assert ms[n..] == [] && |Written(ms[n..])| == 0 by { NothingWritten(); }
    assert ms[..n] == ms;
  }

  lemma NothingWritten()
    ensures Written([]) == []
  {
  }
}
