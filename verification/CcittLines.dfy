/** One-dimensional rows of the CCITT decoder: `decode_row_1d` (src/filters/ccitt.rs) on the bit reader, and the rows
    coded by section 4.1 of ITU-T T.4 that it gives back. */
module CcittLines {
  import opened Bits
  import opened CcittBits
  import opened CcittRows
  import opened CcittCoding
  import opened CcittRuns
  import opened CcittPage

  /** The colour that alternating runs give to pixel `p`, the first run being white if `white`. */
  predicate BlackAt(runs: seq<nat>, white: bool, p: nat) {
    runs != [] && if p < runs[0] then !white else BlackAt(runs[1..], !white, p - runs[0])
  }

  /** `after` is `before` with the black runs painted as far as pixel `end`. */
  ghost predicate RunsPainted(before: seq<byte>, after: seq<byte>, runs: seq<nat>, end: nat) {
    |after| == |before| &&
    forall p: nat :: Pixel(after, p) == (Pixel(before, p) || (p < end && p / 8 < |before| && BlackAt(runs, true, p)))
  }

  /** From pixel `a0` on, the colours are those of the runs still to come. */
  ghost predicate ColoursFrom(runs: seq<nat>, rest: seq<nat>, white: bool, a0: nat) {
    forall p: nat :: p >= a0 ==> BlackAt(runs, true, p) == BlackAt(rest, white, p - a0)
  }

  lemma RunsPaintedNone(row: seq<byte>, runs: seq<nat>)
    ensures RunsPainted(row, row, runs, 0) && ColoursFrom(runs, runs, true, 0)
  {
    hide BlackAt, Pixel;
  }

  /** Painting the next run, or leaving it white. */
  lemma PaintNext(before: seq<byte>, row: seq<byte>, next: seq<byte>, runs: seq<nat>, rest: seq<nat>, white: bool,
        a0: nat, end: nat)
    requires RunsPainted(before, row, runs, a0) && ColoursFrom(runs, rest, white, a0)
    requires rest != [] && a0 <= end <= a0 + rest[0]
    requires if white then next == row else Blackened(row, next, a0, end)
    ensures RunsPainted(before, next, runs, end)
    ensures ColoursFrom(runs, rest[1..], !white, a0 + rest[0])
  {
    hide BlackAt, Pixel;
    RunAt(rest, white);
    forall p: nat | a0 <= p ensures BlackAt(runs, true, p) == BlackAt(rest, white, p - a0) {}
  }

  lemma RunAt(runs: seq<nat>, white: bool)
    requires runs != []
    ensures forall p: nat {:trigger BlackAt(runs, white, p)} ::
              BlackAt(runs, white, p) == (if p < runs[0] then !white else BlackAt(runs[1..], !white, p - runs[0]))
  {
  }

  /** After the last run, or after a lone empty white run, nothing is black. */
  lemma PaintEnd(before: seq<byte>, row: seq<byte>, runs: seq<nat>, rest: seq<nat>, white: bool, a0: nat, columns: nat)
    requires RunsPainted(before, row, runs, a0) && ColoursFrom(runs, rest, white, a0) && a0 <= columns
    requires rest == [] || rest == [0]
    ensures RunsPainted(before, row, runs, columns)
  {
    hide Pixel;
    forall p: nat | a0 <= p ensures !BlackAt(runs, true, p) {
      assert !BlackAt(rest, white, p - a0);
    }
  }

  // ---------------------------------------------------------------- the row loop

  /** Whether the row decodes, the runs read, and where the reader is left. */
  datatype LineRead = LineRead(ok: bool, runs: seq<nat>, after: Cursor)

  /** A run uses up data. */
  lemma {:induction false} RunAdvances(data: seq<byte>, c: Cursor, white: bool, sofar: nat)
    requires ReadRun(data, c, white, sofar).run.Some?
    ensures Ahead(data, ReadRun(data, c, white, sofar).after) < Ahead(data, c)
    decreases Ahead(data, c)
  {
    hide LookUp, ReadRun;
    if c.pos == c.end {
      ReadRunAtEnd(data, c, white, sofar);
    } else {
      ReadRunStep(data, c, white, sofar);
      var e := LookUp(data, c.pos, white);
      if e.leaf.M? {
        RunAdvances(data, Past(c, e.width, Window(white)), white, sofar + e.leaf.run);
      } else {
        TerminatingAdvances(data, c.pos, white);
      }
    }
  }

  lemma TerminatingAdvances(data: seq<byte>, pos: nat, white: bool)
    requires LookUp(data, pos, white).leaf.T?
    ensures pos < 8 * |data| && LookUp(data, pos, white).width > 0
  {
    hide TreeOf, Stream, Repeat;
    if pos >= 8 * |data| {
      StreamPastEnd(data, pos, Window(white));
      ZerosFront(white);
    }
    RootIsNode(white);
  }

  /** The row loop from `a0` on. With end-of-line codes in use, a row whose first run is empty ends with it. */
  function ReadLine(data: seq<byte>, columns: nat, c: Cursor, a0: nat, white: bool, endOfLine: bool): LineRead
    decreases Ahead(data, c)
  {
    if a0 >= columns then LineRead(true, [], c)
    else
      var r := ReadRun(data, c, white, 0);
      if r.run.None? then LineRead(false, [], r.after)
      else if r.run.value == 0 && a0 == 0 && endOfLine then LineRead(true, [0], r.after)
      else
        RunAdvances(data, c, white, 0);
        var a1 := a0 + Min(r.run.value, SaturatingSub(columns, a0));
        var rest := ReadLine(data, columns, r.after, a1, !white, endOfLine);
        LineRead(rest.ok, [r.run.value] + rest.runs, rest.after)
  }

  lemma ReadLineStep(data: seq<byte>, columns: nat, c: Cursor, a0: nat, white: bool, endOfLine: bool)
    requires a0 < columns
    ensures var r, l := ReadRun(data, c, white, 0), ReadLine(data, columns, c, a0, white, endOfLine);
      && (r.run.None? ==> l == LineRead(false, [], r.after))
      && (r.run.Some? && r.run.value == 0 && a0 == 0 && endOfLine ==> l == LineRead(true, [0], r.after))
      && (r.run.Some? && !(r.run.value == 0 && a0 == 0 && endOfLine) ==>
          var a1 := a0 + Min(r.run.value, SaturatingSub(columns, a0));
          var rest := ReadLine(data, columns, r.after, a1, !white, endOfLine);
          && Ahead(data, r.after) < Ahead(data, c)
          && l == LineRead(rest.ok, [r.run.value] + rest.runs, rest.after))
  {
    hide ReadRun;
    if ReadRun(data, c, white, 0).run.Some? { RunAdvances(data, c, white, 0); }
  }

  lemma ReadLineStops(data: seq<byte>, columns: nat, c: Cursor, a0: nat, white: bool, endOfLine: bool)
    requires a0 >= columns
    ensures ReadLine(data, columns, c, a0, white, endOfLine) == LineRead(true, [], c)
  {
  }

  /** The row read is the runs read so far and those still to come. */
  ghost predicate Midway(all: LineRead, done: seq<nat>, rest: LineRead) {
    all == LineRead(rest.ok, done + rest.runs, rest.after)
  }

  lemma MidwayStep(all: LineRead, done: seq<nat>, run: nat, rest: LineRead)
    requires Midway(all, done, LineRead(rest.ok, [run] + rest.runs, rest.after))
    ensures Midway(all, done + [run], rest)
  {
    ConcatAssoc(done, [run], rest.runs);
  }

  lemma MidwayStart(all: LineRead)
    ensures Midway(all, [], all)
  {
    assert [] + all.runs == all.runs;
  }

  /** `decode_row_1d` */
  method DecodeRow1d(reader: BitReader, columns: nat, endOfLine: bool, row: array<byte>) returns (ok: bool)
    requires reader.Valid()
    modifies reader, row
    ensures reader.Valid()
    ensures var all := ReadLine(reader.data, columns, old(At(reader)), 0, true, endOfLine);
      ok == all.ok && At(reader) == all.after && RunsPainted(old(row[..]), row[..], all.runs, columns)
  {
    hide Pixel, BlackAt, RunsPainted, ColoursFrom, Blackened, ReadRun, ReadLine, Value, Stream;
    ghost var data, before := reader.data, row[..];
    var a0: nat := 0;
    var isWhite := true;
    ghost var all := ReadLine(data, columns, At(reader), 0, true, endOfLine);
    ghost var done: seq<nat> := [];
    MidwayStart(all);
    RunsPaintedNone(before, all.runs);
    while a0 < columns
      invariant reader.Valid() && a0 <= columns
      invariant Midway(all, done, ReadLine(data, columns, At(reader), a0, isWhite, endOfLine))
      invariant a0 < columns ==>
        ColoursFrom(all.runs, ReadLine(data, columns, At(reader), a0, isWhite, endOfLine).runs, isWhite, a0)
      invariant RunsPainted(before, row[..], all.runs, a0)
      decreases Ahead(data, At(reader))
    {
      ghost var rest := ReadLine(data, columns, At(reader), a0, isWhite, endOfLine);
      ReadLineStep(data, columns, At(reader), a0, isWhite, endOfLine);
      var run := DecodeRun(reader, isWhite);
      if run.None? {
        PaintEnd(before, row[..], all.runs, rest.runs, isWhite, a0, columns);
        return false;
      }
      if run.value == 0 && a0 == 0 && endOfLine {
        PaintEnd(before, row[..], all.runs, rest.runs, isWhite, a0, columns);
        return true;
      }
      var clipped: nat := Min(run.value, SaturatingSub(columns, a0));
      ghost var painted := row[..];
      if !isWhite {
        SetBits(row, a0, clipped);
      }
      PaintNext(before, painted, row[..], all.runs, rest.runs, isWhite, a0, a0 + clipped);
      a0 := a0 + clipped;
      isWhite := !isWhite;
      ghost var more := ReadLine(data, columns, At(reader), a0, isWhite, endOfLine);
      assert rest.runs[1..] == more.runs;
      MidwayStep(all, done, run.value, more);
      done := done + [run.value];
    }
    ReadLineStops(data, columns, At(reader), a0, isWhite, endOfLine);
    return true;
  }

  // ---------------------------------------------------------------- coded rows

  /** The runs of a row from `a0` on, of alternating colours; the first one is empty if it has no pixel. */
  function LineRuns(row: Row, columns: nat, a0: nat, white: bool): seq<nat>
    decreases SaturatingSub(columns, a0), Pixel(row, a0) == white
  {
    if a0 >= columns then []
    else
      var end := Stretch(row, columns, a0, !white);
      [end - a0] + LineRuns(row, columns, end, !white)
  }

  function LineBits(white: bool, runs: seq<nat>): seq<bool>
    decreases |runs|
  {
    if runs == [] then [] else RunBits(white, runs[0]) + LineBits(!white, runs[1..])
  }

  function AfterLine(c: Cursor, white: bool, runs: seq<nat>): Cursor
    decreases |runs|
  {
    if runs == [] then c else AfterLine(AfterRun(c, white, runs[0]), !white, runs[1..])
  }

  lemma {:induction false} LineReads(data: seq<byte>, c: Cursor, row: Row, columns: nat, a0: nat, white: bool,
        endOfLine: bool)
    requires c.end >= 8 * |data| && Holds(data, c.pos, LineBits(white, LineRuns(row, columns, a0, white)))
    requires a0 == 0 && columns > 0 && endOfLine ==> Pixel(row, 0) == !white
    ensures var runs := LineRuns(row, columns, a0, white);
      ReadLine(data, columns, c, a0, white, endOfLine) == LineRead(true, runs, AfterLine(c, white, runs))
    decreases SaturatingSub(columns, a0), Pixel(row, a0) == white
  {
    hide Pixel, Holds, RunBits, AfterRun, ReadRun, ReadLine;
    if a0 >= columns {
      ReadLineStops(data, columns, c, a0, white, endOfLine);
    } else {
      var end := Stretch(row, columns, a0, !white);
      var more := LineRuns(row, columns, end, !white);
      HoldsBoth(data, c.pos, RunBits(white, end - a0), LineBits(!white, more));
      RunReads(data, c, white, end - a0, 0);
      RunEnds(c, white, end - a0);
      ReadLineStep(data, columns, c, a0, white, endOfLine);
      LineReads(data, AfterRun(c, white, end - a0), row, columns, end, !white, endOfLine);
    }
  }

  lemma RunEnds(c: Cursor, white: bool, run: nat)
    ensures AfterRun(c, white, run).pos == c.pos + |RunBits(white, run)| && AfterRun(c, white, run).end >= c.end
  {
  }

  /** The runs have the colours of the row. */
  lemma {:induction false} LineColours(row: Row, columns: nat, a0: nat, white: bool, p: nat)
    requires a0 <= p < columns
    ensures BlackAt(LineRuns(row, columns, a0, white), white, p - a0) == Pixel(row, p)
    decreases SaturatingSub(columns, a0), Pixel(row, a0) == white
  {
    hide Pixel;
    var end := Stretch(row, columns, a0, !white);
    if p >= end {
      LineColours(row, columns, end, !white, p);
    }
  }

  /** A row coded one-dimensionally, with anything after its codes, comes back byte for byte exactly when end-of-line
      codes are not in use or its first pixel is white. Otherwise it comes back white, and its codes are left unread
      but for the empty white run at their front. */
  lemma LineExactly(data: seq<byte>, c: Cursor, row: Row, columns: nat, endOfLine: bool, decoded: Row)
    requires WholeRow(row, columns) && columns > 0
    requires c.end >= 8 * |data| && Holds(data, c.pos, LineBits(true, LineRuns(row, columns, 0, true)))
    requires RunsPainted(White(columns), decoded, ReadLine(data, columns, c, 0, true, endOfLine).runs, columns)
    ensures decoded == row <==> !endOfLine || !Pixel(row, 0)
    ensures var l := ReadLine(data, columns, c, 0, true, endOfLine);
      l.ok && l.after == if decoded == row then AfterLine(c, true, LineRuns(row, columns, 0, true))
                         else AfterRun(c, true, 0)
  {
    hide Pixel, Holds, BlackAt, RunBits, ReadLine, AfterRun, AfterLine, White, ReadRun;
    var runs := LineRuns(row, columns, 0, true);
    forall p: nat ensures !Pixel(White(columns), p) { WhitePixel(columns, p); }
    if endOfLine && Pixel(row, 0) {
      var more := LineRuns(row, columns, 0, false);
      assert runs == [0] + more;
      HoldsBoth(data, c.pos, RunBits(true, 0), LineBits(false, more));
      RunReads(data, c, true, 0, 0);
      ReadLineStep(data, columns, c, 0, true, endOfLine);
      LoneEmptyRun(0);
      assert !Pixel(decoded, 0);
    } else {
      LineReads(data, c, row, columns, 0, true, endOfLine);
      forall p: nat ensures Pixel(decoded, p) == Pixel(row, p) {
        if p < columns { LineColours(row, columns, 0, true, p); }
      }
      EqualRows(decoded, row);
    }
  }

  lemma LoneEmptyRun(p: nat)
    ensures !BlackAt([0], true, p)
  {
  }
}
