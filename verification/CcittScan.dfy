/** Two-dimensional rows read from the data: `decode_row_mmr` and `decode_row_2d` (src/filters/ccitt.rs) on the bit
    reader, and what they make of the codes of ITU-T T.6. */
module CcittScan {
  import opened Bits
  import opened CcittBits
  import opened CcittRows
  import opened CcittRuns
  import Codes = CcittCodes

  // ---------------------------------------------------------------- the row loop

  /** Whether the row decodes, the intervals painted up to then, and where the reader is left. */
  datatype RowRead = RowRead(ok: bool, black: seq<Span>, after: Cursor)

  function Painting(span: Span, rest: RowRead): RowRead {
    RowRead(rest.ok, [span] + rest.black, rest.after)
  }

  function CodeAt(data: seq<byte>, c: Cursor): Codes.ModeCode {
    Codes.CodeOf(Stream(data, c.pos, 7))
  }

  /** Past the mode code at a cursor. */
  function PastCode(data: seq<byte>, c: Cursor): Cursor {
    Past(c, |Codes.Code(CodeAt(data, c))|, 7)
  }

  lemma ZerosEndLine(data: seq<byte>, c: Cursor)
    requires forall k :: c.pos <= k < c.pos + 7 ==> !StreamBit(data, k)
    ensures CodeAt(data, c) == Codes.EndOfLine
  {
    hide StreamBit, Codes.Names, Value;
    var s := Stream(data, c.pos, 7);
    assert s == [false, false, false, false, false, false, false];
    Codes.CodeNamed(s, Codes.EndOfLine);
    Codes.CodeNamed(s, Codes.CodeOf(s));
    Codes.OneName(Value(s), Codes.EndOfLine, Codes.CodeOf(s));
  }

  /** Past the end of the data there are only end-of-line codes, so any other code uses up data. */
  lemma CodeAdvances(data: seq<byte>, c: Cursor)
    ensures PastCode(data, c).pos > c.pos
    ensures CodeAt(data, c) != Codes.EndOfLine ==> Ahead(data, PastCode(data, c)) < Ahead(data, c)
  {
    hide CodeAt, Codes.Code;
    if c.pos >= 8 * |data| { ZerosEndLine(data, c); }
  }

  /** The reader only moves forward, and not beyond the end it has come to believe in. */
  predicate Forward(c: Cursor, after: Cursor) {
    c.pos <= after.pos && c.end <= after.end && (c.pos <= c.end ==> after.pos <= after.end)
  }

  lemma {:induction false} RunForward(data: seq<byte>, c: Cursor, white: bool, sofar: nat)
    ensures Forward(c, ReadRun(data, c, white, sofar).after)
    decreases Ahead(data, c)
  {
    hide LookUp, ReadRun;
    if c.pos == c.end {
      ReadRunAtEnd(data, c, white, sofar);
    } else {
      ReadRunStep(data, c, white, sofar);
      LookUpWidth(data, c.pos, white);
      var e := LookUp(data, c.pos, white);
      if e.leaf.M? {
        RunForward(data, Past(c, e.width, Window(white)), white, sofar + e.leaf.run);
      }
    }
  }

  lemma LookUpWidth(data: seq<byte>, pos: nat, white: bool)
    ensures LookUp(data, pos, white).width <= Window(white)
  {
    hide Front, Stream, TreeOf;
  }

  /** The two runs of a horizontal mode, of the current colour and of the other one. */
  datatype TwoRuns = TwoRuns(runs: Option<(nat, nat)>, after: Cursor)

  function ReadRuns(data: seq<byte>, c: Cursor, white: bool): (r: TwoRuns)
    ensures Forward(c, r.after)
  {
    RunForward(data, c, white, 0);
    var first := ReadRun(data, c, white, 0);
    if first.run.None? then TwoRuns(None, first.after)
    else
      RunForward(data, first.after, !white, 0);
      var second := ReadRun(data, first.after, !white, 0);
      TwoRuns(if second.run.None? then None else Some((first.run.value, second.run.value)), second.after)
  }

  /** The row loop from `a0` on, over the bits from a cursor on. */
  function RowFrom(data: seq<byte>, changes: seq<nat>, columns: nat, c: Cursor, a0: nat, white: bool): RowRead
    decreases Ahead(data, c)
  {
    if a0 >= columns then RowRead(true, [], c)
    else if c.pos == c.end then RowRead(false, [], c)
    else
      CodeAdvances(data, c);
      var next := PastCode(data, c);
      var n := NextChanges(changes, a0);
      match CodeAt(data, c)
      case Pass => RowFrom(data, changes, columns, next, n.b2, white)
      case Horizontal =>
        var r := ReadRuns(data, next, white);
        if r.runs.None? then RowRead(false, [], r.after)
        else
          var end := HorizontalEnd(columns, a0, r.runs.value.0, r.runs.value.1);
          Painting(HorizontalSpan(columns, a0, r.runs.value.0, r.runs.value.1, white),
            RowFrom(data, changes, columns, r.after, end, white))
      case Vertical(offset) =>
        if n.b1 + offset < 0 then RowRead(false, [], next)
        else
          var a1 := Min(n.b1 + offset, columns);
          var rest := RowFrom(data, changes, columns, next, a1, !white);
          if white then rest else Painting(Span(a0, a0 + SaturatingSub(a1, a0)), rest)
      case Extension => RowRead(false, [], next)
      case EndOfLine => RowRead(true, [], next)
  }

  lemma RowStops(data: seq<byte>, changes: seq<nat>, columns: nat, c: Cursor, a0: nat, white: bool)
    ensures a0 >= columns ==> RowFrom(data, changes, columns, c, a0, white) == RowRead(true, [], c)
    ensures a0 < columns && c.pos == c.end ==> RowFrom(data, changes, columns, c, a0, white) == RowRead(false, [], c)
  {
  }

  /** One round of the loop, code by code. */
  lemma AfterPass(data: seq<byte>, changes: seq<nat>, columns: nat, c: Cursor, a0: nat, white: bool)
    requires a0 < columns && c.pos != c.end && CodeAt(data, c) == Codes.Pass
    ensures RowFrom(data, changes, columns, c, a0, white) ==
      RowFrom(data, changes, columns, PastCode(data, c), NextChanges(changes, a0).b2, white)
    ensures Ahead(data, PastCode(data, c)) < Ahead(data, c)
  {
    hide CodeAt, PastCode, NextChanges;
    CodeAdvances(data, c);
  }

  lemma AfterHorizontal(data: seq<byte>, changes: seq<nat>, columns: nat, c: Cursor, a0: nat, white: bool)
    requires a0 < columns && c.pos != c.end && CodeAt(data, c) == Codes.Horizontal
    ensures var r := ReadRuns(data, PastCode(data, c), white);
      && Ahead(data, r.after) < Ahead(data, c)
      && (r.runs.None? ==> RowFrom(data, changes, columns, c, a0, white) == RowRead(false, [], r.after))
      && (r.runs.Some? ==>
          var (run1, run2) := r.runs.value;
          RowFrom(data, changes, columns, c, a0, white) == Painting(HorizontalSpan(columns, a0, run1, run2, white),
            RowFrom(data, changes, columns, r.after, HorizontalEnd(columns, a0, run1, run2), white)))
  {
    hide CodeAt, PastCode, NextChanges, ReadRuns, HorizontalEnd, HorizontalSpan;
    CodeAdvances(data, c);
  }

  lemma AfterVertical(data: seq<byte>, changes: seq<nat>, columns: nat, c: Cursor, a0: nat, white: bool)
    requires a0 < columns && c.pos != c.end && CodeAt(data, c).Vertical?
    ensures Ahead(data, PastCode(data, c)) < Ahead(data, c)
    ensures var a1 := NextChanges(changes, a0).b1 + CodeAt(data, c).offset;
      RowFrom(data, changes, columns, c, a0, white) ==
        if a1 < 0 then RowRead(false, [], PastCode(data, c))
        else
          var rest := RowFrom(data, changes, columns, PastCode(data, c), Min(a1, columns), !white);
          if white then rest else Painting(Span(a0, a0 + SaturatingSub(Min(a1, columns), a0)), rest)
  {
    hide CodeAt, PastCode, NextChanges;
    CodeAdvances(data, c);
  }

  lemma AfterOther(data: seq<byte>, changes: seq<nat>, columns: nat, c: Cursor, a0: nat, white: bool)
    requires a0 < columns && c.pos != c.end && (CodeAt(data, c).Extension? || CodeAt(data, c).EndOfLine?)
    ensures RowFrom(data, changes, columns, c, a0, white) ==
      RowRead(CodeAt(data, c).EndOfLine?, [], PastCode(data, c))
  {
    hide CodeAt, PastCode, NextChanges;
  }

  /** A row moves the reader forward, and a row that is not finished moves it on if it can. */
  lemma {:induction false} RowForward(data: seq<byte>, changes: seq<nat>, columns: nat, c: Cursor, a0: nat, white: bool)
    ensures var after := RowFrom(data, changes, columns, c, a0, white).after;
      Forward(c, after) && (a0 < columns && c.pos != c.end ==> c.pos < after.pos)
    decreases Ahead(data, c)
  {
    hide CodeAt, RowFrom, NextChanges, ReadRuns, HorizontalEnd, HorizontalSpan, Codes.Code;
    RowStops(data, changes, columns, c, a0, white);
    if a0 < columns && c.pos != c.end {
      CodeAdvances(data, c);
      var n, next := NextChanges(changes, a0), PastCode(data, c);
      match CodeAt(data, c)
      case Pass =>
        AfterPass(data, changes, columns, c, a0, white);
        RowForward(data, changes, columns, next, n.b2, white);
      case Horizontal =>
        AfterHorizontal(data, changes, columns, c, a0, white);
        var r := ReadRuns(data, next, white);
        if r.runs.Some? {
          RowForward(data, changes, columns, r.after,
            HorizontalEnd(columns, a0, r.runs.value.0, r.runs.value.1), white);
        }
      case Vertical(offset) =>
        AfterVertical(data, changes, columns, c, a0, white);
        if n.b1 + offset >= 0 {
          RowForward(data, changes, columns, next, Min(n.b1 + offset, columns), !white);
        }
      case _ => AfterOther(data, changes, columns, c, a0, white);
    }
  }

  /** The row read is what is painted so far, and what is still to come. */
  ghost predicate Progress(all: RowRead, done: seq<Span>, rest: RowRead) {
    all == RowRead(rest.ok, done + rest.black, rest.after)
  }

  lemma ProgressStart(all: RowRead)
    ensures Progress(all, [], all)
  {
    assert [] + all.black == all.black;
  }

  lemma ProgressStep(all: RowRead, done: seq<Span>, span: Span, rest: RowRead)
    requires Progress(all, done, Painting(span, rest))
    ensures Progress(all, done + [span], rest)
  {
    ConcatAssoc(done, [span], rest.black);
  }

  lemma ProgressStop(all: RowRead, done: seq<Span>, ok: bool, after: Cursor)
    requires Progress(all, done, RowRead(ok, [], after))
    ensures all == RowRead(ok, done, after)
  {
  }

  method DecodeRuns(reader: BitReader, white: bool) returns (runs: Option<(nat, nat)>)
    requires reader.Valid()
    modifies reader
    ensures reader.Valid()
    ensures TwoRuns(runs, At(reader)) == ReadRuns(reader.data, old(At(reader)), white)
  {
    hide ReadRun;
    var run1 := DecodeRun(reader, white);
    if run1.None? {
      return None;
    }
    var run2 := DecodeRun(reader, !white);
    return if run2.None? then None else Some((run1.value, run2.value));
  }

  /** `decode_row_mmr` and `decode_row_2d` */
  method DecodeRow(reader: BitReader, columns: nat, reference: seq<byte>, row: array<byte>) returns (ok: bool)
    requires reader.Valid()
    modifies reader, row
    ensures reader.Valid()
    ensures var all := RowFrom(reader.data, CollectedChanges(reference, columns), columns, old(At(reader)), 0, true);
      ok == all.ok && At(reader) == all.after && SpansPainted(old(row[..]), row[..], all.black)
  {
    hide RowFrom, SpansPainted, CollectedChanges, NextChanges, Blackened, Progress, HorizontalSpan, HorizontalEnd,
      ReadRuns, Codes.Code, Codes.CodeOf, Stream, Past;
    ghost var data, before := reader.data, row[..];
    NothingPainted(before);
    var changes := CollectChanges(reference, columns);
    var a0: nat := 0;
    var isWhite := true;
    ghost var all := RowFrom(data, changes, columns, At(reader), 0, true);
    ghost var done: seq<Span> := [];
    ProgressStart(all);
    while a0 < columns
      invariant reader.Valid()
      invariant Progress(all, done, RowFrom(data, changes, columns, At(reader), a0, isWhite))
      invariant SpansPainted(before, row[..], done)
      decreases Ahead(data, At(reader))
    {
      ghost var c := At(reader);
      ghost var painted := row[..];
      AtEndExactly(reader);
      RowStops(data, changes, columns, c, a0, isWhite);
      var b1, b2 := NextB1B2(changes, a0);
      var mode := Codes.ReadMode(reader);
      if mode.None? {
        ProgressStop(all, done, false, c);
        return false;
      }
      match mode.value {
        case Pass =>
          AfterPass(data, changes, columns, c, a0, isWhite);
          a0 := b2;
        case Horizontal =>
          AfterHorizontal(data, changes, columns, c, a0, isWhite);
          var runs := DecodeRuns(reader, isWhite);
          if runs.None? {
            ProgressStop(all, done, false, At(reader));
            return false;
          }
          var (run1, run2) := runs.value;
          ghost var span := HorizontalSpan(columns, a0, run1, run2, isWhite);
          a0 := PaintHorizontal(row, columns, a0, isWhite, run1, run2);
          ProgressStep(all, done, span, RowFrom(data, changes, columns, At(reader), a0, isWhite));
          SpanAdded(before, painted, row[..], done, span);
          done := done + [span];
        case Vertical(offset) =>
          AfterVertical(data, changes, columns, c, a0, isWhite);
          if b1 + offset < 0 {
            ProgressStop(all, done, false, At(reader));
            return false;
          }
          var a1 := Min(b1 + offset, columns);
          var run := SaturatingSub(a1, a0);
          if !isWhite {
            SetBits(row, a0, run);
            ghost var span := Span(a0, a0 + run);
            ProgressStep(all, done, span, RowFrom(data, changes, columns, At(reader), a1, !isWhite));
            SpanAdded(before, painted, row[..], done, span);
            done := done + [span];
          }
          a0 := a1;
          isWhite := !isWhite;
        case Extension =>
          AfterOther(data, changes, columns, c, a0, isWhite);
          ProgressStop(all, done, false, At(reader));
          return false;
        case EndOfLine =>
          AfterOther(data, changes, columns, c, a0, isWhite);
          ProgressStop(all, done, true, At(reader));
          return true;
      }
    }
    RowStops(data, changes, columns, At(reader), a0, isWhite);
    ProgressStop(all, done, true, At(reader));
    return true;
  }

  // ---------------------------------------------------------------- coded rows

  /** A mode that the two-dimensional code has a code word for. */
  predicate Writable(m: Mode) {
    m.Pass? || m.Horizontal? || (m.Vertical? && -3 <= m.offset <= 3)
  }

  ghost predicate AllWritable(ms: seq<Mode>) {
    forall m :: m in ms ==> Writable(m)
  }

  function CodeFor(m: Mode): Codes.ModeCode
    requires Writable(m)
  {
    match m
    case Pass => Codes.Pass
    case Horizontal(_, _) => Codes.Horizontal
    case Vertical(offset) => Codes.Vertical(offset)
  }

  function NextWhite(m: Mode, white: bool): bool {
    if m.Vertical? then !white else white
  }

  /** The bits of a mode in the current colour: its code word, and those of the runs of a horizontal mode. */
  function ModeBits(m: Mode, white: bool): seq<bool>
    requires Writable(m)
  {
    Codes.Code(CodeFor(m)) + if m.Horizontal? then RunBits(white, m.run1) + RunBits(!white, m.run2) else []
  }

  ghost function RowBits(ms: seq<Mode>, white: bool): seq<bool>
    requires AllWritable(ms)
  {
    if ms == [] then [] else ModeBits(ms[0], white) + RowBits(ms[1..], NextWhite(ms[0], white))
  }

  /** Where reading a mode, or a list of modes, takes the reader: over their bits, having looked at the window of
      each code word. */
  function AfterMode(c: Cursor, m: Mode, white: bool): (after: Cursor)
    requires Writable(m)
    ensures after.pos == c.pos + |ModeBits(m, white)| && after.end >= c.end
  {
    var next := Past(c, |Codes.Code(CodeFor(m))|, 7);
    if m.Horizontal? then AfterRun(AfterRun(next, white, m.run1), !white, m.run2) else next
  }

  ghost function AfterModes(c: Cursor, ms: seq<Mode>, white: bool): (after: Cursor)
    requires AllWritable(ms)
    ensures after.pos == c.pos + |RowBits(ms, white)| && after.end >= c.end
    decreases |ms|
  {
    if ms == [] then c else AfterModes(AfterMode(c, ms[0], white), ms[1..], NextWhite(ms[0], white))
  }

  /** Reading one coded mode, whatever follows. */
  lemma ModeReads(data: seq<byte>, c: Cursor, m: Mode, white: bool)
    requires Writable(m) && c.end >= 8 * |data| && Holds(data, c.pos, ModeBits(m, white))
    ensures c.pos != c.end && CodeAt(data, c) == CodeFor(m) && AfterMode(c, m, white).pos > c.pos
    ensures !m.Horizontal? ==> AfterMode(c, m, white) == PastCode(data, c)
    ensures m.Horizontal? ==>
      ReadRuns(data, PastCode(data, c), white) == TwoRuns(Some((m.run1, m.run2)), AfterMode(c, m, white))
  {
    hide Stream, Codes.Code, Codes.CodeOf, Holds, RunBits, ReadRun, AfterRun, CodeFor;
    var code := Codes.Code(CodeFor(m));
    var runs := if m.Horizontal? then RunBits(white, m.run1) + RunBits(!white, m.run2) else [];
    HoldsBoth(data, c.pos, code, runs);
    CodeReads(data, c, CodeFor(m));
    if m.Horizontal? {
      var next := Past(c, |code|, 7);
      HoldsBoth(data, next.pos, RunBits(white, m.run1), RunBits(!white, m.run2));
      AfterRunPos(next, white, m.run1);
      RunReads(data, next, white, m.run1, 0);
      RunReads(data, AfterRun(next, white, m.run1), !white, m.run2, 0);
    }
  }

  lemma AfterRunPos(c: Cursor, white: bool, run: nat)
    ensures AfterRun(c, white, run).pos == c.pos + |RunBits(white, run)| && AfterRun(c, white, run).end >= c.end
  {
  }

  lemma CodeReads(data: seq<byte>, c: Cursor, m: Codes.ModeCode)
    requires c.end >= 8 * |data| && Holds(data, c.pos, Codes.Code(m))
    ensures c.pos != c.end && CodeAt(data, c) == m
  {
    hide Stream, Codes.Code, Codes.CodeOf, Codes.Names, Value;
    var s := Stream(data, c.pos, 7);
    Codes.StreamFront(data, c.pos, |Codes.Code(m)|);
    Codes.StreamFront(data, c.pos, |Codes.Code(CodeAt(data, c))|);
    Codes.ReadOneWay(data, c.pos, m, CodeAt(data, c));
  }

  /** What the loop makes of coded modes that stand in the data, whatever follows: if they finish the row, just what
      they say, and it reads on exactly as far as they are needed; if not, it fails or reads beyond them. */
  lemma {:induction false} RowReads(data: seq<byte>, changes: seq<nat>, columns: nat, c: Cursor, ms: seq<Mode>,
        a0: nat, white: bool)
    requires AllWritable(ms) && c.end >= 8 * |data| && Holds(data, c.pos, RowBits(ms, white))
    ensures var s, t := RowSpans(ms, changes, columns, a0, white), RowFrom(data, changes, columns, c, a0, white);
      var end := AfterModes(c, ms, white);
      && (s.ok && s.rest == [] ==> t == RowRead(true, s.black, end))
      && (s.ok && s.rest != [] ==> t.ok && t.after.pos < end.pos)
      && (!s.ok ==> !t.ok || t.after.pos > end.pos)
    decreases |ms|
  {
    hide RowSpans, RowFrom, NextChanges, Holds, CodeAt, HorizontalSpan, HorizontalEnd, ReadRuns, Codes.Code,
      AfterMode, ModeBits;
    RowStops(data, changes, columns, c, a0, white);
    RowSpansStop(ms, changes, columns, a0, white);
    RowForward(data, changes, columns, c, a0, white);
    if a0 < columns && ms != [] {
      assert ms[0] in ms && forall m :: m in ms[1..] ==> m in ms;
      var m, more, n := ms[0], ms[1..], NextChanges(changes, a0);
      HoldsBoth(data, c.pos, ModeBits(m, white), RowBits(more, NextWhite(m, white)));
      ModeReads(data, c, m, white);
      var after := AfterMode(c, m, white);
      assert ms[0..] == ms;
      match m
      case Pass =>
        PassStep(ms, 0, changes, columns, a0, white);
        AfterPass(data, changes, columns, c, a0, white);
        RowReads(data, changes, columns, after, more, n.b2, white);
      case Horizontal(run1, run2) =>
        HorizontalStep(ms, 0, changes, columns, a0, white);
        AfterHorizontal(data, changes, columns, c, a0, white);
        RowReads(data, changes, columns, after, more, HorizontalEnd(columns, a0, run1, run2), white);
      case Vertical(offset) =>
        VerticalStep(ms, 0, changes, columns, a0, white);
        AfterVertical(data, changes, columns, c, a0, white);
        if n.b1 + offset >= 0 {
          RowReads(data, changes, columns, after, more, Min(n.b1 + offset, columns), !white);
        }
    } else if ms != [] {
      assert ms[0] in ms && forall m :: m in ms[1..] ==> m in ms;
      FirstBits(ms, white);
    }
  }

  lemma FirstBits(ms: seq<Mode>, white: bool)
    requires AllWritable(ms) && ms != []
    ensures |RowBits(ms, white)| > 0
  {
    assert ms[0] in ms;
  }

  lemma ModeLeavesBits(c: Cursor, m: Mode, white: bool)
    requires Writable(m)
    ensures AfterMode(c, m, white).pos == AfterMode(c, m, white).end ==> m.Vertical? && m.offset in {-3, 3}
  {
    hide AfterRun, RunBits;
    var next := Past(c, |Codes.Code(CodeFor(m))|, 7);
    if m.Horizontal? {
      RunLeavesBits(AfterRun(next, white, m.run1), !white, m.run2);
    } else {
      ShortCode(CodeFor(m));
    }
  }

  lemma ShortCode(m: Codes.ModeCode)
    ensures |Codes.Code(m)| == 7 ==> m.Extension? || m.EndOfLine? || (m.Vertical? && m.offset in {-3, 3})
  {
  }

  /** Modes leave the reader with bits it has looked at, unless the last code word has seven bits. */
  lemma {:induction false} ModesLeaveBits(c: Cursor, ms: seq<Mode>, white: bool)
    requires AllWritable(ms) && ms != []
    ensures AfterModes(c, ms, white).pos == AfterModes(c, ms, white).end ==>
      ms[|ms| - 1].Vertical? && ms[|ms| - 1].offset in {-3, 3}
    decreases |ms|
  {
    hide AfterMode, RowBits, ModeBits;
    var m, more := ms[0], ms[1..];
    assert m in ms && forall x :: x in more ==> x in ms;
    if more == [] {
      ModeLeavesBits(c, m, white);
      assert AfterModes(AfterMode(c, m, white), [], NextWhite(m, white)) == AfterMode(c, m, white);
    } else {
      assert more[|more| - 1] == ms[|ms| - 1];
      ModesLeaveBits(AfterMode(c, m, white), more, NextWhite(m, white));
    }
  }
}
