/** Group 4 pages from the data to the bytes: `Group4Decoder::decode` with `append_row`, `row_width` and `invert_bits`
    (src/filters/ccitt.rs), every row decoded against the row before it. */
module CcittPage {
  import opened Bits
  import opened CcittBits
  import opened CcittRows
  import opened CcittCoding
  import opened CcittModes
  import opened CcittAhead
  import opened CcittRuns
  import opened CcittScan

  type Row = seq<byte>

  function White(columns: nat): (row: Row)
    ensures |row| == CeilDiv8(columns)
  {
    Repeat(0 as byte, CeilDiv8(columns))
  }

  /** The row before row `k`; the first row is decoded against a white one. */
  function Reference(rows: seq<Row>, k: nat, columns: nat): Row
    requires k <= |rows|
  {
    if k == 0 then White(columns) else rows[k - 1]
  }

  function RowAt(data: seq<byte>, reference: Row, columns: nat, c: Cursor): RowRead {
    RowFrom(data, CollectedChanges(reference, columns), columns, c, 0, true)
  }

  // ---------------------------------------------------------------- the page loop

  /** `is_at_end`, of a cursor. */
  predicate AtEnd(c: Cursor) {
    c.pos == c.end
  }

  /** `rows` are the first rows decoded, failed ones with what was painted of them; `cursors[k]` is where the reader
      stands before row `k`, and after the last one. */
  ghost predicate Decoded(data: seq<byte>, rows: seq<Row>, cursors: seq<Cursor>, columns: nat) {
    && |cursors| == |rows| + 1 && cursors[0] == Cursor(0, 8 * |data|)
    && forall k :: 0 <= k < |rows| ==> RowDecoded(data, rows, cursors, columns, k)
  }

  ghost predicate RowDecoded(data: seq<byte>, rows: seq<Row>, cursors: seq<Cursor>, columns: nat, k: nat)
    requires k < |rows| < |cursors|
  {
    var s := RowAt(data, Reference(rows, k, columns), columns, cursors[k]);
    SpansPainted(White(columns), rows[k], s.black) && cursors[k + 1] == s.after
  }

  /** How many of the first `k` rows do not decode. */
  function Damaged(data: seq<byte>, rows: seq<Row>, cursors: seq<Cursor>, columns: nat, k: nat): (n: nat)
    requires k <= |rows| + 1 == |cursors|
    ensures n <= k
  {
    if k == 0 then 0
    else
      Damaged(data, rows, cursors, columns, k - 1)
      + if RowAt(data, Reference(rows, k - 1, columns), columns, cursors[k - 1]).ok then 0 else 1
  }

  lemma RowFits(k: nat, n: nat, width: nat)
    requires k < n
    ensures (k + 1) * width == k * width + width <= n * width
  {
    assert n * width == (k + 1) * width + (n - k - 1) * width;
  }

  function Inverted(s: seq<byte>): (r: seq<byte>)
    ensures |r| == |s|
  {
    seq(|s|, i requires 0 <= i < |s| => 255 - s[i] as int)
  }

  lemma {:induction false} ComplementBit(x: nat, n: nat, k: nat)
    requires x < Pow2(n) && k < n
    ensures Bit(Pow2(n) - 1 - x, k) == !Bit(x, k)
  {
    if k > 0 {
      assert (Pow2(n) - 1 - x) / 2 == Pow2(n - 1) - 1 - x / 2;
      ComplementBit(x / 2, n - 1, k - 1);
    }
  }

  /** Every pixel of `a` is the opposite of that of `b`. */
  ghost predicate Opposite(a: seq<byte>, b: seq<byte>) {
    |a| == |b| && forall p: nat :: p < 8 * |b| ==> Pixel(a, p) == !Pixel(b, p)
  }

  lemma InvertedIsOpposite(s: seq<byte>)
    ensures Opposite(Inverted(s), s)
  {
    hide Bit, Pow2;
    Pow2Eight();
    forall p: nat | p < 8 * |s| ensures Pixel(Inverted(s), p) == !Pixel(s, p) {
      ComplementBit(s[p / 8], 8, 7 - p % 8);
    }
  }

  /** `invert_bits`: every pixel changes its colour. */
  method InvertBits(s: seq<byte>) returns (r: seq<byte>)
    ensures r == Inverted(s)
    ensures |r| == |s| && forall p: nat :: p < 8 * |s| ==> Pixel(r, p) == !Pixel(s, p)
  {
    hide Pixel;
    r := s;
    for i := 0 to |s|
      invariant |r| == |s| && (forall k :: 0 <= k < i ==> r[k] == 255 - s[k] as int)
      invariant forall k :: i <= k < |s| ==> r[k] == s[k]
    {
      r := r[i := 255 - r[i] as int];
    }
    InvertedIsOpposite(s);
    assert r == Inverted(s);
  }

  /** The bytes returned for some rows. */
  function Shown(rows: seq<Row>, blackIs1: bool): seq<byte> {
    if blackIs1 then Concat(rows) else Inverted(Concat(rows))
  }

  /** The bytes are those of the rows, `width` to a row and in order, a set bit standing for black if `blackIs1`
      and for white if not. */
  ghost predicate Displays(bytes: seq<byte>, rows: seq<Row>, width: nat, blackIs1: bool) {
    |bytes| == |rows| * width && forall k :: 0 <= k < |rows| ==> RowDisplayed(bytes, rows[k], k * width, blackIs1)
  }

  ghost predicate RowDisplayed(bytes: seq<byte>, row: Row, at: nat, blackIs1: bool) {
    at + |row| <= |bytes| &&
    forall p: nat :: p < 8 * |row| ==> Pixel(bytes[at..at + |row|], p) == (Pixel(row, p) == blackIs1)
  }

  ghost predicate SameWidth(rows: seq<Row>, width: nat) {
    forall k :: 0 <= k < |rows| ==> |rows[k]| == width
  }

  lemma {:induction false} ConcatSlices(rows: seq<Row>, width: nat, k: nat)
    requires SameWidth(rows, width) && k < |rows|
    ensures |Concat(rows)| == |rows| * width
    ensures (k + 1) * width <= |rows| * width && Concat(rows)[k * width..k * width + width] == rows[k]
    decreases |rows|
  {
    var n := |rows| - 1;
    var front := rows[..n];
    assert (n + 1) * width == n * width + width;
    RowFits(k, |rows|, width);
    if n == 0 {
      assert Concat(front) == [];
    } else {
      ConcatSlices(front, width, if k < n then k else 0);
    }
    assert Concat(rows) == Concat(front) + rows[n] && |Concat(front)| == n * width;
    if k < n {
      RowFits(k, n, width);
      assert Concat(rows)[k * width..k * width + width] == Concat(front)[k * width..k * width + width];
    }
  }

  /** What is returned displays the rows. */
  lemma ShownDisplays(rows: seq<Row>, width: nat, blackIs1: bool)
    requires SameWidth(rows, width)
    ensures Displays(Shown(rows, blackIs1), rows, width, blackIs1)
  {
    hide Pixel, Concat, Inverted;
    var bytes, plain := Shown(rows, blackIs1), Concat(rows);
    if rows == [] {
      NothingShown(blackIs1);
    } else {
      ConcatSlices(rows, width, 0);
    }
    forall k | 0 <= k < |rows| ensures RowDisplayed(bytes, rows[k], k * width, blackIs1) {
      ConcatSlices(rows, width, k);
      RowFits(k, |rows|, width);
      if !blackIs1 {
        InvertedSlice(plain, k * width, width);
        InvertedIsOpposite(rows[k]);
      }
    }
  }

  lemma NothingShown(blackIs1: bool)
    ensures Shown([], blackIs1) == []
  {
  }

  lemma InvertedSlice(s: seq<byte>, at: nat, n: nat)
    requires at + n <= |s|
    ensures Inverted(s)[at..at + n] == Inverted(s[at..at + n])
  {
  }

  lemma MoreRows(data: seq<byte>, rows: seq<Row>, row: Row, cursors: seq<Cursor>, c: Cursor, columns: nat, k: nat)
    requires |cursors| == |rows| + 1 && k <= |rows| + 1
    ensures Damaged(data, rows + [row], cursors + [c], columns, k) == Damaged(data, rows, cursors, columns, k)
    ensures k <= |rows| ==> Reference(rows + [row], k, columns) == Reference(rows, k, columns)
  {
    hide RowAt;
    if k > 0 {
      MoreRows(data, rows, row, cursors, c, columns, k - 1);
    }
  }

  lemma RowAdded(data: seq<byte>, rows: seq<Row>, row: Row, cursors: seq<Cursor>, c: Cursor, columns: nat)
    requires Decoded(data, rows, cursors, columns)
    requires var s := RowAt(data, Reference(rows, |rows|, columns), columns, cursors[|rows|]);
      SpansPainted(White(columns), row, s.black) && c == s.after
    ensures Decoded(data, rows + [row], cursors + [c], columns)
  {
    hide RowAt, SpansPainted, White;
    var more, after := rows + [row], cursors + [c];
    forall k | 0 <= k < |more| ensures RowDecoded(data, more, after, columns, k) {
      MoreRows(data, rows, row, cursors, c, columns, k);
      assert k < |rows| ==> RowDecoded(data, rows, cursors, columns, k);
    }
  }

  lemma PaintedLength(before: Row, after: Row, spans: seq<Span>)
    requires SpansPainted(before, after, spans)
    ensures |after| == |before|
  {
  }

  /** Before row `k` neither the end nor the row count is reached. */
  predicate NotDone(cursors: seq<Cursor>, k: nat, maxRows: nat)
    requires k < |cursors|
  {
    !AtEnd(cursors[k]) && k != maxRows
  }

  ghost predicate GoesOn(cursors: seq<Cursor>, n: nat, maxRows: nat)
    requires n <= |cursors|
  {
    forall k :: 0 < k < n ==> NotDone(cursors, k, maxRows)
  }

  lemma GoesOnMeans(cursors: seq<Cursor>, n: nat, maxRows: nat)
    requires n <= |cursors| && GoesOn(cursors, n, maxRows)
    ensures (forall k :: 0 < k < n ==> !AtEnd(cursors[k])) && !(0 < maxRows < n)
  {
    hide AtEnd;
    forall k | 0 < k < n ensures !AtEnd(cursors[k]) { assert NotDone(cursors, k, maxRows); }
    assert 0 < maxRows < n ==> !NotDone(cursors, maxRows, maxRows);
  }

  lemma GoesOnMore(cursors: seq<Cursor>, c: Cursor, n: nat, maxRows: nat)
    requires |cursors| == n + 1 && GoesOn(cursors, n, maxRows)
    requires n > 0 ==> !AtEnd(cursors[n]) && n != maxRows
    ensures GoesOn(cursors, n + 1, maxRows) && GoesOn(cursors + [c], n + 1, maxRows)
  {
    assert n > 0 ==> NotDone(cursors, n, maxRows);
    forall k | 0 < k < n + 1 ensures NotDone(cursors, k, maxRows) && NotDone(cursors + [c], k, maxRows) {
      assert k < n ==> NotDone(cursors, k, maxRows);
    }
  }

  /** The loop goes on after each row but the last, and stops at the row count or where the reader reports the end. */
  ghost predicate Complete(data: seq<byte>, rows: seq<Row>, cursors: seq<Cursor>, columns: nat, maxRows: nat) {
    && Decoded(data, rows, cursors, columns) && GoesOn(cursors, |rows|, maxRows)
    && |rows| > 0 && (AtEnd(cursors[|rows|]) || |rows| == maxRows)
  }

  /** The loop's variables agree with the rows decoded so far. */
  ghost predicate Progressed(data: seq<byte>, rows: seq<Row>, cursors: seq<Cursor>, columns: nat, output: seq<byte>,
      reference: Row, damage: nat, tolerated: nat) {
    && Decoded(data, rows, cursors, columns)
    && output == Concat(rows) && |output| == |rows| * CeilDiv8(columns)
    && reference == Reference(rows, |rows|, columns)
    && damage + Damaged(data, rows, cursors, columns, |rows|) == tolerated
  }

  lemma NoRows(data: seq<byte>, columns: nat, tolerated: nat, maxRows: nat)
    ensures Progressed(data, [], [Cursor(0, 8 * |data|)], columns, [], White(columns), tolerated, tolerated)
    ensures GoesOn([Cursor(0, 8 * |data|)], 1, maxRows) && GoesOn([Cursor(0, 8 * |data|)], 0, maxRows)
  {
  }

  lemma OneMoreRow(data: seq<byte>, rows: seq<Row>, cursors: seq<Cursor>, columns: nat, output: seq<byte>,
        reference: Row, damage: nat, tolerated: nat, row: Row)
    requires Progressed(data, rows, cursors, columns, output, reference, damage, tolerated)
    requires var s := RowAt(data, reference, columns, cursors[|rows|]);
      SpansPainted(White(columns), row, s.black) && (damage > 0 || s.ok)
    ensures var s := RowAt(data, reference, columns, cursors[|rows|]);
      Progressed(data, rows + [row], cursors + [s.after], columns, output + row, row,
        if s.ok then damage else damage - 1, tolerated)
  {
    hide RowAt, SpansPainted, Decoded, White, Concat;
    DecodedLengths(data, rows, cursors, columns);
    var s := RowAt(data, reference, columns, cursors[|rows|]);
    PaintedLength(White(columns), row, s.black);
    RowAdded(data, rows, row, cursors, s.after, columns);
    ConcatSnoc(rows, row);
    MoreRows(data, rows, row, cursors, s.after, columns, |rows|);
    MoreRows(data, rows, row, cursors, s.after, columns, |rows| + 1);
    RowFits(|rows|, |rows| + 1, CeilDiv8(columns));
  }

  lemma DecodedLengths(data: seq<byte>, rows: seq<Row>, cursors: seq<Cursor>, columns: nat)
    requires Decoded(data, rows, cursors, columns)
    ensures |cursors| == |rows| + 1 && cursors[0] == Cursor(0, 8 * |data|)
  {
  }

  lemma ProgressMeans(data: seq<byte>, rows: seq<Row>, cursors: seq<Cursor>, columns: nat, output: seq<byte>,
        reference: Row, damage: nat, tolerated: nat)
    requires Progressed(data, rows, cursors, columns, output, reference, damage, tolerated)
    ensures |cursors| == |rows| + 1 && Decoded(data, rows, cursors, columns)
    ensures output == Concat(rows) && |output| == |rows| * CeilDiv8(columns)
    ensures Damaged(data, rows, cursors, columns, |rows|) + damage == tolerated
    ensures !RowAt(data, reference, columns, cursors[|rows|]).ok ==>
      Damaged(data, rows, cursors, columns, |rows| + 1) + damage == tolerated + 1
  {
    hide RowAt, Decoded, White, Concat;
    DecodedLengths(data, rows, cursors, columns);
  }

  /** A row uses up data, or, past the data, bits that the reader has claimed. */
  lemma RowUsesUp(data: seq<byte>, reference: Row, columns: nat, c: Cursor)
    requires c.pos <= c.end && (columns > 0 || AtEnd(c))
    ensures AtEnd(c) ==> AtEnd(RowAt(data, reference, columns, c).after)
    ensures var after := RowAt(data, reference, columns, c).after;
      || AtEnd(after) || Ahead(data, after) < Ahead(data, c)
      || (Ahead(data, after) == Ahead(data, c) && after.end - after.pos < c.end - c.pos)
  {
    hide RowFrom, CollectedChanges, CodeAt;
    var changes := CollectedChanges(reference, columns);
    RowStops(data, changes, columns, c, 0, true);
    RowForward(data, changes, columns, c, 0, true);
    if columns > 0 && !AtEnd(c) && c.pos >= 8 * |data| {
      ZerosEndLine(data, c);
      EndLineRow(data, reference, columns, c);
    }
  }

  /** An end-of-line code in place of a row leaves the row white. */
  lemma EndLineRow(data: seq<byte>, reference: Row, columns: nat, c: Cursor)
    requires columns > 0 && !AtEnd(c) && CodeAt(data, c).EndOfLine?
    ensures RowAt(data, reference, columns, c) == RowRead(true, [], Past(c, 7, 7))
  {
    hide CodeAt, RowFrom, CollectedChanges;
    AfterOther(data, CollectedChanges(reference, columns), columns, c, 0, true);
  }

  /** One row, on a fresh white buffer. */
  method DecodePageRow(reader: BitReader, columns: nat, reference: Row) returns (ok: bool, row: Row)
    requires reader.Valid()
    modifies reader
    ensures reader.Valid()
    ensures var s := RowAt(reader.data, reference, columns, old(At(reader)));
      ok == s.ok && At(reader) == s.after && SpansPainted(White(columns), row, s.black)
  {
    hide SpansPainted, CollectedChanges, RowFrom;
    var buffer := new byte[CeilDiv8(columns)](_ => 0);
    assert buffer[..] == White(columns);
    ok := DecodeRow(reader, columns, reference, buffer);
    row := buffer[..];
  }

  /** `Group4Decoder::decode`. A row is attempted even on empty data; without columns and a row count the source loops
      for ever on any other. */
  method DecodePage(data: seq<byte>, columns: nat, maxRows: nat, tolerated: nat, blackIs1: bool, limit: Option<nat>)
    returns (r: Option<seq<byte>>, ghost rows: seq<Row>, ghost cursors: seq<Cursor>)
    requires columns > 0 || maxRows > 0 || data == []
    ensures Decoded(data, rows, cursors, columns)
    ensures r.Some? ==>
      && Complete(data, rows, cursors, columns, maxRows)
      && Damaged(data, rows, cursors, columns, |rows|) <= tolerated
      && r.value == Shown(rows, blackIs1) && Displays(r.value, rows, CeilDiv8(columns), blackIs1)
    ensures r.Some? && limit.Some? ==> |r.value| <= limit.value
    ensures r.None? ==>
      && GoesOn(cursors, |rows| + 1, maxRows)
      && (Damaged(data, rows, cursors, columns, |rows| + 1) > tolerated
          || (limit.Some? && (|rows| + 1) * CeilDiv8(columns) > limit.value))
  {
    hide RowAt, SpansPainted, White, Decoded, Damaged, Concat, Reference, CeilDiv8, Progressed, Shown, Value,
      Stream, Ahead, Displays, SameWidth, Pixel, GoesOn;
    var reader := new BitReader(data);
    rows, cursors := [], [Cursor(0, 8 * |data|)];
    NoRows(data, columns, tolerated, maxRows);
    ProgressMeans(data, [], cursors, columns, [], White(columns), tolerated, tolerated);
    var width := CeilDiv8(columns);
    if limit.Some? && width > limit.value {
      return None, rows, cursors;
    }
    var output: seq<byte> := [];
    var reference: seq<byte> := White(columns);
    var damage: nat := tolerated;
    var decodedRows: nat := 0;
    while maxRows == 0 || decodedRows < maxRows
      invariant reader.Valid() && reader.data == data
      invariant decodedRows == |rows| && |cursors| == |rows| + 1 && cursors[|rows|] == At(reader)
      invariant Progressed(data, rows, cursors, columns, output, reference, damage, tolerated)
      invariant GoesOn(cursors, |rows|, maxRows)
      invariant |rows| > 0 ==> !AtEnd(At(reader)) && (columns > 0 || maxRows > 0)
      invariant |rows| == 0 ==> At(reader) == Cursor(0, 8 * |data|)
      invariant maxRows == 0 || |rows| <= maxRows
      invariant limit.Some? ==> |rows| * width <= limit.value
      decreases if maxRows == 0 then Ahead(data, At(reader)) else maxRows - decodedRows, reader.End() - reader.pos
    {
      ProgressMeans(data, rows, cursors, columns, output, reference, damage, tolerated);
      RowFits(|rows|, |rows| + 1, width);
      AtEndExactly(reader);
      ghost var c := At(reader);
      if maxRows == 0 { RowUsesUp(data, reference, columns, c); }
      var ok, row := DecodePageRow(reader, columns, reference);
      PaintedLength(White(columns), row, RowAt(data, reference, columns, c).black);
      GoesOnMore(cursors, At(reader), |rows|, maxRows);
      if !ok && damage == 0 {
        return None, rows, cursors;
      }
      OneMoreRow(data, rows, cursors, columns, output, reference, damage, tolerated, row);
      if !ok {
        damage := damage - 1;
      }
      if limit.Some? && |output| + |row| > limit.value {
        return None, rows, cursors;
      }
      output := output + row;
      reference := row;
      rows, cursors := rows + [row], cursors + [At(reader)];
      decodedRows := decodedRows + 1;
      AtEndExactly(reader);
      if reader.IsAtEnd() {
        break;
      }
    }
    ProgressMeans(data, rows, cursors, columns, output, reference, damage, tolerated);
    output := ShowRows(output, blackIs1, data, rows, cursors, columns);
    return Some(output), rows, cursors;
  }

  /** The end of `decode`: the colours are exchanged if a set bit stands for white. */
  method ShowRows(output: seq<byte>, blackIs1: bool, ghost data: seq<byte>, ghost rows: seq<Row>,
      ghost cursors: seq<Cursor>, ghost columns: nat)
    returns (r: seq<byte>)
    requires Decoded(data, rows, cursors, columns) && output == Concat(rows)
    ensures r == Shown(rows, blackIs1) && |r| == |rows| * CeilDiv8(columns)
    ensures Displays(r, rows, CeilDiv8(columns), blackIs1)
  {
    hide Decoded, Displays, Concat, Pixel, CeilDiv8;
    RowsShown(data, rows, cursors, columns, blackIs1);
    r := output;
    if !blackIs1 {
      r := InvertBits(r);
    }
  }

  lemma RowsShown(data: seq<byte>, rows: seq<Row>, cursors: seq<Cursor>, columns: nat, blackIs1: bool)
    requires Decoded(data, rows, cursors, columns)
    ensures Shown(rows, blackIs1) == if blackIs1 then Concat(rows) else Inverted(Concat(rows))
    ensures Displays(Shown(rows, blackIs1), rows, CeilDiv8(columns), blackIs1)
    ensures |Shown(rows, blackIs1)| == |rows| * CeilDiv8(columns)
  {
    hide Decoded, Displays, SameWidth, Concat, Inverted;
    DecodedWidths(data, rows, cursors, columns);
    ShownDisplays(rows, CeilDiv8(columns), blackIs1);
    ShownBytes(Shown(rows, blackIs1), rows, CeilDiv8(columns), blackIs1);
  }

  lemma ShownBytes(bytes: seq<byte>, rows: seq<Row>, width: nat, blackIs1: bool)
    requires Displays(bytes, rows, width, blackIs1)
    ensures |bytes| == |rows| * width
  {
    hide RowDisplayed;
  }

  lemma DecodedWidths(data: seq<byte>, rows: seq<Row>, cursors: seq<Cursor>, columns: nat)
    requires Decoded(data, rows, cursors, columns)
    ensures SameWidth(rows, CeilDiv8(columns))
  {
    hide RowAt, SpansPainted, White;
    forall k | 0 <= k < |rows| ensures |rows[k]| == CeilDiv8(columns) {
      assert RowDecoded(data, rows, cursors, columns, k);
      PaintedLength(White(columns), rows[k], RowAt(data, Reference(rows, k, columns), columns, cursors[k]).black);
    }
  }

  // ---------------------------------------------------------------- coded pages

  /** A row of the page: as many bytes as its columns need, and nothing black beyond them. */
  ghost predicate WholeRow(row: Row, columns: nat) {
    |row| == CeilDiv8(columns) && forall p: nat :: p >= columns ==> !Pixel(row, p)
  }

  ghost predicate WholePage(page: seq<Row>, columns: nat) {
    forall k :: 0 <= k < |page| ==> WholeRow(page[k], columns)
  }

  /** Row `k` with the row before it. */
  ghost function PairAt(page: seq<Row>, columns: nat, k: nat): Pair
    requires k < |page| && WholePage(page, columns)
  {
    RowsWhole(page, columns, k);
    RawPair(Reference(page, k, columns), page[k], columns)
  }

  lemma RowsWhole(page: seq<Row>, columns: nat, k: nat)
    requires k < |page| && WholePage(page, columns)
    ensures columns <= 8 * |Reference(page, k, columns)| && WholeRow(page[k], columns)
  {
    assert k > 0 ==> WholeRow(page[k - 1], columns);
  }

  lemma {:induction false} CodedWritable(c: Pair, a0: nat, start: bool, white: bool)
    requires Standing(c, a0, start, white)
    ensures AllWritable(Coded(c, a0, start, white))
    decreases c.columns - a0, start
  {
    hide B1, B2, A1, A2, NextStand, Pixel;
    if a0 < c.columns {
      CodedStep(c, a0, start, white);
      CodedWritable(c, NextStand(c, a0, start, white), false, NextColour(c, a0, start, white));
    }
  }

  /** The coding of a row: mode codes, and run codes in the horizontal mode. */
  ghost function CodedBits(c: Pair): seq<bool> {
    CodedWritable(c, 0, true, true);
    RowBits(CodedRow(c), true)
  }

  /** Where reading the codes of a row takes the reader. */
  ghost function AfterRow(c: Pair, from: Cursor): (after: Cursor)
    ensures after.pos == from.pos + |CodedBits(c)| && after.end >= from.end
  {
    CodedWritable(c, 0, true, true);
    AfterModes(from, CodedRow(c), true)
  }

  /** The T.6 coding of a page from row `k` on. */
  ghost function PageBits(page: seq<Row>, columns: nat, k: nat): seq<bool>
    requires k <= |page| && WholePage(page, columns)
    decreases |page| - k
  {
    if k == |page| then [] else CodedBits(PairAt(page, columns, k)) + PageBits(page, columns, k + 1)
  }

  /** Where reading the codes of the first `k` rows takes the reader. */
  ghost function AfterRows(data: seq<byte>, page: seq<Row>, columns: nat, k: nat): (after: Cursor)
    requires k <= |page| && WholePage(page, columns)
    ensures after.end >= 8 * |data|
  {
    if k == 0 then Cursor(0, 8 * |data|)
    else AfterRow(PairAt(page, columns, k - 1), AfterRows(data, page, columns, k - 1))
  }

  /** The data starts with the page's codes; anything may follow them. */
  ghost predicate StartsWith(data: seq<byte>, page: seq<Row>, columns: nat)
    requires WholePage(page, columns)
  {
    Holds(data, 0, PageBits(page, columns, 0))
  }

  lemma {:induction false} RowInPlace(data: seq<byte>, page: seq<Row>, columns: nat, k: nat)
    requires k <= |page| && WholePage(page, columns) && StartsWith(data, page, columns)
    ensures Holds(data, AfterRows(data, page, columns, k).pos, PageBits(page, columns, k))
    ensures AfterRows(data, page, columns, k).pos + |PageBits(page, columns, k)| == |PageBits(page, columns, 0)|
  {
    hide Holds, WholePage, CodedBits, AfterRow, Stream;
    if k > 0 {
      RowInPlace(data, page, columns, k - 1);
      var bits := CodedBits(PairAt(page, columns, k - 1));
      HoldsBoth(data, AfterRows(data, page, columns, k - 1).pos, bits, PageBits(page, columns, k));
    }
  }

  /** The decoder gives row `k` back. */
  ghost predicate RowKept(page: seq<Row>, columns: nat, k: nat)
    requires k < |page| && WholePage(page, columns)
  {
    Followed(PairAt(page, columns, k), 0, true, true) || LuckyWhite(PairAt(page, columns, k))
  }

  lemma {:induction false} EqualBits(a: nat, b: nat, n: nat)
    requires a < Pow2(n) && b < Pow2(n) && forall i: nat :: i < n ==> Bit(a, i) == Bit(b, i)
    ensures a == b
  {
    if n > 0 {
      assert Bit(a, 0) == Bit(b, 0);
      forall i: nat | i < n - 1 ensures Bit(a / 2, i) == Bit(b / 2, i) {
        assert Bit(a, i + 1) == Bit(b, i + 1);
      }
      EqualBits(a / 2, b / 2, n - 1);
    }
  }

  /** The pixels of a row determine its bytes. */
  lemma EqualRows(a: Row, b: Row)
    requires |a| == |b| && forall p: nat :: Pixel(a, p) == Pixel(b, p)
    ensures a == b
  {
    hide Bit;
    Pow2Eight();
    forall i | 0 <= i < |a| ensures a[i] == b[i] {
      forall j: nat | j < 8 ensures Bit(a[i], j) == Bit(b[i], j) {
        var p := 8 * i + 7 - j;
        assert p / 8 == i && p % 8 == 7 - j;
        assert Pixel(a, p) == Pixel(b, p);
      }
      EqualBits(a[i], b[i], 8);
    }
  }

  lemma WhitePixel(columns: nat, p: nat)
    ensures !Pixel(White(columns), p)
  {
    hide Bit;
    BitZero(7 - p % 8);
  }

  /** A row decoded from data that holds its codes, whatever follows: it takes just its codes and gives the row's
      bytes exactly when it comes back from its modes alone. */
  lemma RowInData(data: seq<byte>, c: Pair, from: Cursor, row: Row)
    requires WholeRow(c.row, c.columns) && from.end >= 8 * |data| && Holds(data, from.pos, CodedBits(c))
    requires SpansPainted(White(c.columns), row, RowAt(data, c.reference, c.columns, from).black)
    ensures var s := RowAt(data, c.reference, c.columns, from);
      && ((s.ok && row == c.row && s.after.pos == AfterRow(c, from).pos) <==> ComesBack(c))
      && (ComesBack(c) ==> s.after == AfterRow(c, from))
  {
    hide Pixel, InSpans, RowSpans, RowFrom, CollectedChanges, Coded, Holds, RowBits, AfterModes, AllWritable;
    CodedWritable(c, 0, true, true);
    var s, alone := RowAt(data, c.reference, c.columns, from), From(c, CodedRow(c), 0, true);
    RowReads(data, CollectedChanges(c.reference, c.columns), c.columns, from, CodedRow(c), 0, true);
    forall p: nat ensures Pixel(row, p) == (p / 8 < |c.row| && InSpans(s.black, p)) {
      WhitePixel(c.columns, p);
    }
    PaintedLength(White(c.columns), row, s.black);
    if ComesBack(c) {
      forall p: nat ensures Pixel(row, p) == Pixel(c.row, p) {
        if Black(c, p) { Within(c, p); }
      }
      EqualRows(row, c.row);
    }
    if s.ok && row == c.row && s.after.pos == AfterRow(c, from).pos {
      assert alone.ok && alone.rest == [];
      SpansWithin(c, CodedRow(c));
      forall p: nat ensures InSpans(alone.black, p) == (p >= 0 && Black(c, p)) {
        assert InSpans(alone.black, p) ==> p < c.columns;
        assert p < c.columns ==> p / 8 < |c.row|;
      }
    }
  }

  lemma Within(c: Pair, p: nat)
    requires Black(c, p) && WholeRow(c.row, c.columns)
    ensures p / 8 < |c.row|
  {
  }

  lemma SpansWithin(c: Pair, modes: seq<Mode>)
    ensures forall p: nat :: InSpans(From(c, modes, 0, true).black, p) ==> p < c.columns
  {
    hide InSpans, RowSpans, CollectedChanges;
    forall p: nat | InSpans(From(c, modes, 0, true).black, p) ensures p < c.columns {
      SpansInside(modes, CollectedChanges(c.reference, c.columns), c.columns, 0, true, p);
    }
  }

  /** Row `i` was decoded from its own codes to its own bytes. */
  ghost predicate RowOwn(data: seq<byte>, rows: seq<Row>, cursors: seq<Cursor>, page: seq<Row>, columns: nat, i: nat)
    requires i < |rows| < |cursors| && i < |page| && WholePage(page, columns)
  {
    && RowAt(data, Reference(rows, i, columns), columns, cursors[i]).ok && rows[i] == page[i]
    && cursors[i + 1].pos == AfterRows(data, page, columns, i + 1).pos
  }

  ghost predicate InStep(data: seq<byte>, rows: seq<Row>, cursors: seq<Cursor>, page: seq<Row>, columns: nat, k: nat)
    requires k <= |rows| < |cursors| && k <= |page| && WholePage(page, columns)
  {
    forall i :: 0 <= i < k ==> RowOwn(data, rows, cursors, page, columns, i)
  }

  ghost predicate AllKept(page: seq<Row>, columns: nat, k: nat)
    requires k <= |page| && WholePage(page, columns)
  {
    forall i :: 0 <= i < k ==> RowKept(page, columns, i)
  }

  /** One row of the page, the rows before it in step. */
  lemma NextInStep(data: seq<byte>, rows: seq<Row>, cursors: seq<Cursor>, page: seq<Row>, columns: nat, k: nat)
    requires WholePage(page, columns) && StartsWith(data, page, columns)
    requires Decoded(data, rows, cursors, columns) && k < |rows| && k < |page|
    requires cursors[k] == AfterRows(data, page, columns, k) && (k > 0 ==> rows[k - 1] == page[k - 1])
    ensures RowOwn(data, rows, cursors, page, columns, k) <==> RowKept(page, columns, k)
    ensures RowKept(page, columns, k) ==> cursors[k + 1] == AfterRows(data, page, columns, k + 1)
  {
    hide RowAt, SpansPainted, Followed, Coded, Pixel, White, Holds, CodedBits, AfterRow;
    assert RowDecoded(data, rows, cursors, columns, k);
    assert WholeRow(page[k], columns);
    var c := PairAt(page, columns, k);
    assert Reference(rows, k, columns) == Reference(page, k, columns);
    RowInPlace(data, page, columns, k);
    HoldsBoth(data, cursors[k].pos, CodedBits(c), PageBits(page, columns, k + 1));
    RowInData(data, c, cursors[k], rows[k]);
    RowExactly(c);
  }

  /** The last of the first `k` rows against those before it. */
  lemma OneStep(data: seq<byte>, rows: seq<Row>, cursors: seq<Cursor>, page: seq<Row>, columns: nat, k: nat)
    requires 0 < k <= |rows| < |cursors| && k <= |page| && WholePage(page, columns)
    ensures InStep(data, rows, cursors, page, columns, k) <==>
      InStep(data, rows, cursors, page, columns, k - 1) && RowOwn(data, rows, cursors, page, columns, k - 1)
    ensures AllKept(page, columns, k) <==> AllKept(page, columns, k - 1) && RowKept(page, columns, k - 1)
    ensures InStep(data, rows, cursors, page, columns, k) ==> rows[k - 1] == page[k - 1]
  {
    hide WholePage, RowAt, AfterRows, Reference, RowKept;
    assert InStep(data, rows, cursors, page, columns, k) ==> RowOwn(data, rows, cursors, page, columns, k - 1);
  }

  lemma {:induction false} StepsExactly(data: seq<byte>, rows: seq<Row>, cursors: seq<Cursor>, page: seq<Row>,
        columns: nat, k: nat)
    requires WholePage(page, columns) && StartsWith(data, page, columns)
    requires Decoded(data, rows, cursors, columns) && k <= |rows| && k <= |page|
    ensures InStep(data, rows, cursors, page, columns, k) <==> AllKept(page, columns, k)
    ensures AllKept(page, columns, k) ==>
      cursors[k] == AfterRows(data, page, columns, k) && Damaged(data, rows, cursors, columns, k) == 0
  {
    hide WholePage, StartsWith, Decoded, RowKept, RowAt, AfterRow, InStep, AllKept, AfterRows, Reference, Damaged;
    DecodedLengths(data, rows, cursors, columns);
    DamagedStep(data, rows, cursors, columns, k);
    if k == 0 {
      NoSteps(data, rows, cursors, page, columns);
    } else {
      StepsExactly(data, rows, cursors, page, columns, k - 1);
      OneStep(data, rows, cursors, page, columns, k);
      if AllKept(page, columns, k - 1) {
        if k > 1 { OneStep(data, rows, cursors, page, columns, k - 1); }
        NextInStep(data, rows, cursors, page, columns, k - 1);
      }
    }
  }

  lemma NoSteps(data: seq<byte>, rows: seq<Row>, cursors: seq<Cursor>, page: seq<Row>, columns: nat)
    requires |rows| < |cursors| && WholePage(page, columns)
    ensures InStep(data, rows, cursors, page, columns, 0) && AllKept(page, columns, 0)
    ensures AfterRows(data, page, columns, 0) == Cursor(0, 8 * |data|)
  {
    hide WholePage;
  }

  lemma DamagedStep(data: seq<byte>, rows: seq<Row>, cursors: seq<Cursor>, columns: nat, k: nat)
    requires k <= |rows| + 1 == |cursors|
    ensures k == 0 ==> Damaged(data, rows, cursors, columns, k) == 0
    ensures k > 0 && RowAt(data, Reference(rows, k - 1, columns), columns, cursors[k - 1]).ok ==>
      Damaged(data, rows, cursors, columns, k) == Damaged(data, rows, cursors, columns, k - 1)
  {
    hide RowAt, Reference;
  }

  lemma KeptPrefix(page: seq<Row>, columns: nat, k: nat)
    requires WholePage(page, columns) && k <= |page| && AllKept(page, columns, |page|)
    ensures AllKept(page, columns, k)
  {
    hide WholePage, RowKept;
  }

  lemma SameRows(data: seq<byte>, rows: seq<Row>, cursors: seq<Cursor>, page: seq<Row>, columns: nat)
    requires |page| <= |rows| < |cursors| && WholePage(page, columns)
    requires InStep(data, rows, cursors, page, columns, |page|)
    ensures rows[..|page|] == page
  {
    hide WholePage, RowAt, AfterRows, Reference;
    forall i | 0 <= i < |page| ensures rows[i] == page[i] {
      assert RowOwn(data, rows, cursors, page, columns, i);
    }
  }

  lemma CompleteMeans(data: seq<byte>, rows: seq<Row>, cursors: seq<Cursor>, columns: nat, maxRows: nat)
    requires Complete(data, rows, cursors, columns, maxRows)
    ensures Decoded(data, rows, cursors, columns) && |cursors| == |rows| + 1 && |rows| > 0
    ensures (forall k :: 0 < k < |rows| ==> !AtEnd(cursors[k])) && !(0 < maxRows < |rows|)
    ensures AtEnd(cursors[|rows|]) || |rows| == maxRows
  {
    hide Decoded, GoesOn, AtEnd;
    DecodedLengths(data, rows, cursors, columns);
    GoesOnMeans(cursors, |rows|, maxRows);
  }

  /** Page theorem: data that starts with a page coded row by row by T.6 is decoded row by row, each from its own codes
      to its own bytes, exactly when the decoder keeps every row. The page then comes first and undamaged, and it is
      all there is exactly when the row count is given or the reader reports the end right after its codes. */
  lemma PageExactly(data: seq<byte>, rows: seq<Row>, cursors: seq<Cursor>, page: seq<Row>, columns: nat, maxRows: nat)
    requires WholePage(page, columns) && page != [] && columns > 0 && (maxRows == 0 || maxRows == |page|)
    requires StartsWith(data, page, columns)
    requires Complete(data, rows, cursors, columns, maxRows) && |rows| < |cursors|
    ensures (|rows| >= |page| && InStep(data, rows, cursors, page, columns, |page|)) <==> AllKept(page, columns, |page|)
    ensures AllKept(page, columns, |page|) ==>
      && rows[..|page|] == page && cursors[|page|] == AfterRows(data, page, columns, |page|)
      && Damaged(data, rows, cursors, columns, |page|) == 0
      && (|rows| == |page| <==> maxRows == |page| || AtEnd(AfterRows(data, page, columns, |page|)))
  {
    hide WholePage, StartsWith, Decoded, RowKept, Damaged, Complete, InStep, AllKept, AfterRows;
    CompleteMeans(data, rows, cursors, columns, maxRows);
    var k := Min(|rows|, |page|);
    StepsExactly(data, rows, cursors, page, columns, k);
    if AllKept(page, columns, |page|) {
      KeptPrefix(page, columns, k);
      if |rows| < |page| {
        NotAtEnd(data, page, columns, k);
      }
      SameRows(data, rows, cursors, page, columns);
    }
  }

  /** With rows to come, the reader has data before it. */
  lemma NotAtEnd(data: seq<byte>, page: seq<Row>, columns: nat, k: nat)
    requires WholePage(page, columns) && StartsWith(data, page, columns) && columns > 0 && k < |page|
    ensures !AtEnd(AfterRows(data, page, columns, k))
  {
    hide WholePage, AfterRow, Stream, Coded;
    RowInPlace(data, page, columns, k);
    var c := PairAt(page, columns, k);
    CodedWritable(c, 0, true, true);
    CodedSome(c);
    FirstBits(CodedRow(c), true);
  }

  lemma CodedSome(c: Pair)
    requires c.columns > 0
    ensures CodedRow(c) != []
  {
    hide NextMode, NextStand;
    CodedStep(c, 0, true, true);
  }

  /** With the rows before it in step, a row that is kept decodes. */
  lemma KeptDecodes(data: seq<byte>, rows: seq<Row>, cursors: seq<Cursor>, page: seq<Row>, columns: nat, k: nat)
    requires WholePage(page, columns) && StartsWith(data, page, columns)
    requires |cursors| == |rows| + 1 && k <= |rows| && k < |page|
    requires cursors[k] == AfterRows(data, page, columns, k) && (k > 0 ==> rows[k - 1] == page[k - 1])
    requires RowKept(page, columns, k)
    ensures RowAt(data, Reference(rows, k, columns), columns, cursors[k]).ok
  {
    hide RowSpans, RowFrom, CollectedChanges, Followed, Coded, Pixel, White, WholePage, InSpans, Holds, AfterRow,
      RowBits, AfterModes, AllWritable;
    var c := PairAt(page, columns, k);
    RowExactly(c);
    CodedWritable(c, 0, true, true);
    RowInPlace(data, page, columns, k);
    HoldsBoth(data, cursors[k].pos, CodedBits(c), PageBits(page, columns, k + 1));
    RowReads(data, CollectedChanges(c.reference, columns), columns, cursors[k], CodedRow(c), 0, true);
  }

  /** Before a page whose rows are all kept is through, nothing is damaged, and the next row decodes. */
  lemma KeptSoFar(data: seq<byte>, rows: seq<Row>, cursors: seq<Cursor>, page: seq<Row>, columns: nat)
    requires WholePage(page, columns) && StartsWith(data, page, columns) && AllKept(page, columns, |page|)
    requires Decoded(data, rows, cursors, columns) && |cursors| == |rows| + 1 && |rows| < |page|
    ensures Damaged(data, rows, cursors, columns, |rows| + 1) == 0
  {
    hide WholePage, StartsWith, Decoded, RowKept, RowAt, AfterRows, InStep, AllKept, AtEnd;
    var k := |rows|;
    StepsExactly(data, rows, cursors, page, columns, k);
    KeptPrefix(page, columns, k);
    if k > 0 { OneStep(data, rows, cursors, page, columns, k); }
    OneKept(page, columns, k);
    KeptDecodes(data, rows, cursors, page, columns, k);
  }

  lemma OneKept(page: seq<Row>, columns: nat, k: nat)
    requires WholePage(page, columns) && k < |page| && AllKept(page, columns, |page|)
    ensures RowKept(page, columns, k)
  {
    hide WholePage, RowKept;
  }

  lemma {:induction false} PageLength(page: seq<Row>, columns: nat)
    requires WholePage(page, columns)
    ensures |Concat(page)| == |page| * CeilDiv8(columns)
  {
    hide CeilDiv8, Pixel;
    if page != [] {
      var n := |page| - 1;
      assert WholeRow(page[n], columns);
      assert forall k :: 0 <= k < n ==> WholeRow(page[k], columns);
      PageLength(page[..n], columns);
      RowFits(n, n + 1, CeilDiv8(columns));
    }
  }
}
