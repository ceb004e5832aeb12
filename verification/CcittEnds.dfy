/** Group 4 pages as a whole: which pages coded by ITU-T T.6 come back from `Group4Decoder::decode`
    (src/filters/ccitt.rs), with and without a row count. */
module CcittEnds {
  import opened Bits
  import opened CcittBits
  import opened CcittRows
  import opened CcittCoding
  import opened CcittModes
  import opened CcittAhead
  import opened CcittRuns
  import opened CcittScan
  import opened CcittPage

  /** The page's codes end with the data, and none of them was looked up with bits beyond it. */
  ghost predicate EndsWithData(data: seq<byte>, page: seq<Row>, columns: nat)
    requires WholePage(page, columns)
  {
    AfterRows(data, page, columns, |page|) == Cursor(8 * |data|, 8 * |data|)
  }

  /** The reader reports the end after the page exactly when the page's codes end with the data and no lookup has
      reached beyond it; then the last code word is one of the two of seven bits. */
  lemma EndExactly(data: seq<byte>, page: seq<Row>, columns: nat)
    requires WholePage(page, columns) && StartsWith(data, page, columns) && page != [] && columns > 0
    ensures AtEnd(AfterRows(data, page, columns, |page|)) <==> EndsWithData(data, page, columns)
    ensures EndsWithData(data, page, columns) ==>
      var modes := CodedRow(PairAt(page, columns, |page| - 1));
      modes != [] && modes[|modes| - 1].Vertical? && modes[|modes| - 1].offset in {-3, 3}
  {
    hide WholePage, Coded, Stream, CodedBits, RowBits, AfterModes, AllWritable;
    RowInPlace(data, page, columns, |page|);
    var c := PairAt(page, columns, |page| - 1);
    CodedWritable(c, 0, true, true);
    CodedSome(c);
    ModesLeaveBits(AfterRows(data, page, columns, |page| - 1), CodedRow(c), true);
  }

  predicate Fits(rows: seq<Row>, limit: Option<nat>) {
    limit.Some? ==> |Concat(rows)| <= limit.value
  }

  /** Bytes shown for whole rows display them. */
  lemma PageDisplays(page: seq<Row>, columns: nat, blackIs1: bool)
    requires WholePage(page, columns)
    ensures Displays(Shown(page, blackIs1), page, CeilDiv8(columns), blackIs1)
  {
    hide Shown, Displays, Pixel;
    forall k | 0 <= k < |page| ensures |page[k]| == CeilDiv8(columns) { assert WholeRow(page[k], columns); }
    ShownDisplays(page, CeilDiv8(columns), blackIs1);
  }

  lemma ShownLength(rows: seq<Row>, blackIs1: bool)
    ensures |Shown(rows, blackIs1)| == |Concat(rows)|
  {
  }

  /** End to end: a page coded by T.6 whose rows are all kept, with anything after its codes, comes back byte for byte,
      or inverted, exactly when it fits the limit and either the row count is given or its codes end with the data. */
  method DecodeCodedPage(
      ghost page: seq<Row>, data: seq<byte>, columns: nat, maxRows: nat, tolerated: nat, blackIs1: bool,
      limit: Option<nat>)
    returns (r: Option<seq<byte>>)
    requires WholePage(page, columns) && page != [] && columns > 0 && (maxRows == 0 || maxRows == |page|)
    requires StartsWith(data, page, columns) && AllKept(page, columns, |page|)
    ensures r == Some(Shown(page, blackIs1)) <==>
      Fits(page, limit) && (maxRows == |page| || EndsWithData(data, page, columns))
    ensures maxRows == |page| ==> (r == None <==> !Fits(page, limit))
    ensures r == Some(Shown(page, blackIs1)) ==> Displays(r.value, page, CeilDiv8(columns), blackIs1)
  {
    hide WholePage, StartsWith, Decoded, RowKept, Damaged, Complete, InStep, AllKept, EndsWithData, Concat, CeilDiv8,
      Shown, AfterRows, AtEnd, Displays, GoesOn;
    ghost var rows, cursors;
    PageDisplays(page, columns, blackIs1);
    r, rows, cursors := DecodePage(data, columns, maxRows, tolerated, blackIs1, limit);
    DecodedLengths(data, rows, cursors, columns);
    PageLength(page, columns);
    ShownLength(page, blackIs1);
    EndExactly(data, page, columns);
    if r.None? {
      GoesOnMeans(cursors, |rows| + 1, maxRows);
      if |rows| < |page| {
        KeptSoFar(data, rows, cursors, page, columns);
        RowFits(|rows|, |page|, CeilDiv8(columns));
      } else {
        StepsExactly(data, rows, cursors, page, columns, |page|);
      }
    } else {
      ShownBytes(r.value, rows, CeilDiv8(columns), blackIs1);
      PageExactly(data, rows, cursors, page, columns, maxRows);
      if |rows| > |page| {
        RowFits(|page|, |rows|, CeilDiv8(columns));
        SomeWidth(columns);
      } else {
        assert rows == rows[..|page|];
      }
    }
  }

  lemma SomeWidth(columns: nat)
    requires columns > 0
    ensures CeilDiv8(columns) > 0
  {
  }

  // ---------------------------------------------------------------- padded pages without a row count

  ghost predicate ZeroFrom(data: seq<byte>, pos: nat) {
    forall k :: k >= pos ==> !StreamBit(data, k)
  }

  /** How many rows the loop appends where only zeros are left: it reads them as end-of-line codes of seven bits, until
      it has used up all that it has looked at. */
  function ExtraRows(c: Cursor): nat
    requires c.pos <= c.end
  {
    (c.end - c.pos + 6) / 7
  }

  ghost function Padded(data: seq<byte>, page: seq<Row>, columns: nat): seq<Row>
    requires WholePage(page, columns) && StartsWith(data, page, columns)
  {
    EndsAhead(data, page, columns);
    page + Repeat(White(columns), ExtraRows(AfterRows(data, page, columns, |page|)))
  }

  lemma EndsAhead(data: seq<byte>, page: seq<Row>, columns: nat)
    requires WholePage(page, columns) && StartsWith(data, page, columns)
    ensures AfterRows(data, page, columns, |page|).pos <= AfterRows(data, page, columns, |page|).end
    ensures AfterRows(data, page, columns, |page|).pos == |PageBits(page, columns, 0)|
  {
    hide WholePage, Stream, AfterRows;
    RowInPlace(data, page, columns, |page|);
  }

  lemma NothingIsWhite(columns: nat, row: Row)
    requires SpansPainted(White(columns), row, [])
    ensures row == White(columns)
  {
    hide Pixel, InSpans;
    forall p: nat ensures Pixel(row, p) == Pixel(White(columns), p) { NoSpans(p); }
    EqualRows(row, White(columns));
  }

  /** Where the reader stands after `n` more rows of zeros. */
  function Beyond(c: Cursor, n: nat): Cursor {
    Cursor(c.pos + 7 * n, Max(c.end, c.pos + 7 * n))
  }

  /** A row of zeros is white, and the next. */
  lemma ZeroRow(data: seq<byte>, reference: Row, columns: nat, c: Cursor, n: nat)
    requires columns > 0 && ZeroFrom(data, c.pos) && !AtEnd(Beyond(c, n))
    ensures RowAt(data, reference, columns, Beyond(c, n)) == RowRead(true, [], Beyond(c, n + 1))
  {
    hide StreamBit, RowAt, CodeAt;
    ZerosEndLine(data, Beyond(c, n));
    EndLineRow(data, reference, columns, Beyond(c, n));
  }

  /** After the page the rows are white, one for every seven bits. */
  lemma {:induction false} PaddingSteps(data: seq<byte>, rows: seq<Row>, cursors: seq<Cursor>, n: nat, columns: nat,
        k: nat)
    requires Decoded(data, rows, cursors, columns) && |cursors| == |rows| + 1 && n <= k <= |rows| && columns > 0
    requires ZeroFrom(data, cursors[n].pos) && cursors[n].pos <= cursors[n].end
    requires forall i :: n <= i < k ==> !AtEnd(cursors[i])
    ensures cursors[k] == Beyond(cursors[n], k - n) && rows[..k] == rows[..n] + Repeat(White(columns), k - n)
    ensures Damaged(data, rows, cursors, columns, k) == Damaged(data, rows, cursors, columns, n)
    decreases k
  {
    hide Decoded, RowAt, ZeroFrom, White, AtEnd, SpansPainted, Beyond;
    if k == n {
      BeyondNone(cursors[n]);
    } else {
      PaddingSteps(data, rows, cursors, n, columns, k - 1);
      var c := cursors[k - 1];
      ZeroRow(data, Reference(rows, k - 1, columns), columns, cursors[n], k - 1 - n);
      DecodedAt(data, rows, cursors, columns, k - 1);
      NothingIsWhite(columns, rows[k - 1]);
      assert rows[..k] == rows[..k - 1] + [rows[k - 1]];
      assert Repeat(White(columns), k - n) == Repeat(White(columns), k - 1 - n) + [White(columns)];
    }
  }

  lemma BeyondNone(c: Cursor)
    requires c.pos <= c.end
    ensures Beyond(c, 0) == c
  {
  }

  lemma DecodedAt(data: seq<byte>, rows: seq<Row>, cursors: seq<Cursor>, columns: nat, k: nat)
    requires Decoded(data, rows, cursors, columns) && k < |rows| < |cursors|
    ensures var s := RowAt(data, Reference(rows, k, columns), columns, cursors[k]);
      SpansPainted(White(columns), rows[k], s.black) && cursors[k + 1] == s.after
  {
    hide RowAt, SpansPainted, White;
    assert RowDecoded(data, rows, cursors, columns, k);
  }

  /** The end comes just when the extra rows are there. */
  lemma ExtraExactly(c: Cursor, n: nat)
    requires c.pos <= c.end
    ensures AtEnd(Beyond(c, n)) <==> n >= ExtraRows(c)
  {
  }

  /** Without a row count, a page whose rows are all kept and whose codes are followed by zeros only comes back with
      white rows below it: one for every seven bits, or part of seven, that the reader still has then. */
  method DecodePaddedPage(
      ghost page: seq<Row>, data: seq<byte>, columns: nat, tolerated: nat, blackIs1: bool, limit: Option<nat>)
    returns (r: Option<seq<byte>>)
    requires WholePage(page, columns) && page != [] && columns > 0
    requires StartsWith(data, page, columns) && AllKept(page, columns, |page|)
    requires ZeroFrom(data, |PageBits(page, columns, 0)|)
    ensures var all := Padded(data, page, columns);
      && r == (if Fits(all, limit) then Some(Shown(all, blackIs1)) else None)
      && (r.Some? ==> Displays(r.value, all, CeilDiv8(columns), blackIs1))
  {
    hide WholePage, StartsWith, Decoded, RowKept, Damaged, Complete, InStep, AllKept, Concat, CeilDiv8, Shown,
      AfterRows, AtEnd, ZeroFrom, Beyond, White, ExtraRows, RowAt, PageBits, Displays, GoesOn;
    ghost var rows, cursors;
    r, rows, cursors := DecodePage(data, columns, 0, tolerated, blackIs1, limit);
    DecodedLengths(data, rows, cursors, columns);
    EndsAhead(data, page, columns);
    ghost var all, n, end := Padded(data, page, columns), |page|, AfterRows(data, page, columns, |page|);
    PaddedLength(data, page, columns);
    PageDisplays(all, columns, blackIs1);
    ShownLength(all, blackIs1);
    if r.None? && |rows| < n {
      KeptSoFar(data, rows, cursors, page, columns);
      RowFits(|rows|, |all|, CeilDiv8(columns));
    } else {
      if r.Some? {
        PageExactly(data, rows, cursors, page, columns, 0);
        CompleteMeans(data, rows, cursors, columns, 0);
      } else {
        GoesOnMeans(cursors, |rows| + 1, 0);
        StepsExactly(data, rows, cursors, page, columns, n);
        SameRows(data, rows, cursors, page, columns);
      }
      PaddingSteps(data, rows, cursors, n, columns, |rows|);
      ExtraExactly(end, |rows| - n);
      assert rows[..|rows|] == rows;
      if r.Some? {
        if |rows| > n {
          PaddingSteps(data, rows, cursors, n, columns, |rows| - 1);
          ExtraExactly(end, |rows| - 1 - n);
        }
      } else {
        ZeroRow(data, Reference(rows, |rows|, columns), columns, end, |rows| - n);
        NotDamaged(data, rows, cursors, columns);
        RowFits(|rows|, |all|, CeilDiv8(columns));
      }
    }
  }

  lemma NotDamaged(data: seq<byte>, rows: seq<Row>, cursors: seq<Cursor>, columns: nat)
    requires |cursors| == |rows| + 1 && RowAt(data, Reference(rows, |rows|, columns), columns, cursors[|rows|]).ok
    ensures Damaged(data, rows, cursors, columns, |rows| + 1) == Damaged(data, rows, cursors, columns, |rows|)
  {
    hide RowAt;
  }

  lemma PaddedLength(data: seq<byte>, page: seq<Row>, columns: nat)
    requires WholePage(page, columns) && StartsWith(data, page, columns)
    ensures WholePage(Padded(data, page, columns), columns)
    ensures |Concat(Padded(data, page, columns))| == |Padded(data, page, columns)| * CeilDiv8(columns)
  {
    hide StartsWith, PageBits, AfterRows, Pixel, White, ExtraRows, Concat;
    var all := Padded(data, page, columns);
    forall k | 0 <= k < |all| ensures WholeRow(all[k], columns) {
      if k >= |page| { WhiteWhole(columns); }
    }
    PageLength(all, columns);
  }

  lemma WhiteWhole(columns: nat)
    ensures WholeRow(White(columns), columns)
  {
    hide Pixel;
    forall p: nat ensures !Pixel(White(columns), p) { WhitePixel(columns, p); }
  }

  lemma WhiteElements(columns: nat)
    requires columns > 0
    ensures var c: Pair := RawPair(White(columns), White(columns), columns);
      Followed(c, 0, true, true) && CodedRow(c) == [Vertical(0)]
  {
    hide Pixel;
    var c: Pair := RawPair(White(columns), White(columns), columns);
    forall p: nat ensures !Pixel(c.row, p) { WhitePixel(columns, p); }
    StretchIs(c.row, columns, 0, false, columns);
    CodedStep(c, 0, true, true);
    CodedNothing(c, false, false);
  }

  /** Such pages exist: white pages of any size are kept, at one V0 code a row. */
  lemma WhitePage(columns: nat, page: seq<Row>)
    requires columns > 0 && forall k :: 0 <= k < |page| ==> page[k] == White(columns)
    ensures WholePage(page, columns) && AllKept(page, columns, |page|)
    ensures forall k :: 0 <= k < |page| ==> CodedRow(PairAt(page, columns, k)) == [Vertical(0)]
  {
    hide Followed, Coded, Pixel;
    WhiteElements(columns);
    forall k | 0 <= k < |page| ensures WholeRow(page[k], columns) {
      forall p: nat ensures !Pixel(page[k], p) { WhitePixel(columns, p); }
    }
    forall k | 0 <= k < |page|
      ensures RowKept(page, columns, k) && CodedRow(PairAt(page, columns, k)) == [Vertical(0)]
    {
      assert Reference(page, k, columns) == White(columns);
    }
  }
}
