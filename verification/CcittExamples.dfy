/** Rows coded by ITU-T T.6 that the decoder of src/filters/ccitt.rs does not give back, and pages without a row
    count: one that it gives back with a row too many, and one that it gives back. */
module CcittExamples {
  import opened Bits
  import opened CcittBits
  import opened CcittRows
  import opened CcittCoding
  import opened CcittModes
  import opened CcittAhead
  import opened CcittScan
  import opened CcittPage
  import opened CcittEnds
  import Codes = CcittCodes

  lemma HighBit(b: nat, i: nat)
    requires i >= 4
    ensures Bit(b, i) == Bit(b / 16, i - 4)
  {
    assert Bit(b, i) == Bit(b / 2, i - 1) == Bit(b / 2 / 2, i - 2) == Bit(b / 2 / 2 / 2, i - 3) ==
      Bit(b / 2 / 2 / 2 / 2, i - 4);
  }

  /** The pixels of one byte. */
  lemma PixelBits(b: byte, p: nat)
    requires p < 8
    ensures Pixel([b], p) == if p < 4 then Bit(b / 16, 3 - p) else Bit(b, 7 - p)
  {
    hide Bit;
    if p < 4 { HighBit(b, 7 - p); }
  }

  // ---------------------------------------------------------------- a change to the wrong colour

  /** 0111 0000 against 0011 0000. */
  const WRONG_COLOUR: Pair := RawPair([48], [112], 8)

  lemma WrongColourPixels(p: nat)
    requires p < 8
    ensures Pixel(WRONG_COLOUR.reference, p) == (p in {2, 3}) && Pixel(WRONG_COLOUR.row, p) == (p in {1, 2, 3})
  {
    PixelBits(48, p);
    PixelBits(112, p);
    assert p < 4 ==> Bit(3, 3 - p) == (p in {2, 3}) && Bit(7, 3 - p) == (p in {1, 2, 3});
    assert p >= 4 ==> !Bit(48, 7 - p) && !Bit(112, 7 - p);
  }

  lemma WrongColourStretches()
    ensures var reference, row := WRONG_COLOUR.reference, WRONG_COLOUR.row;
      && !Pixel(reference, 0) && !Pixel(reference, 1) && Pixel(reference, 2)
      && !Pixel(row, 0) && Pixel(row, 1) && !Pixel(row, 4)
      && Stretch(reference, 8, 0, false) == 2 && Stretch(reference, 8, 2, true) == 4 &&
        Stretch(reference, 8, 1, false) == 2
      && Stretch(reference, 8, 4, false) == 8 && Stretch(reference, 8, 4, true) == 4 &&
        Stretch(reference, 8, 8, true) == 8
      && Stretch(row, 8, 0, false) == 1 && Stretch(row, 8, 1, true) == 4 && Stretch(row, 8, 4, false) == 8
  {
    hide Pixel;
    var reference, row := WRONG_COLOUR.reference, WRONG_COLOUR.row;
    forall p: nat | p < 8 ensures Pixel(reference, p) == (p in {2, 3}) && Pixel(row, p) == (p in {1, 2, 3}) {
      WrongColourPixels(p);
    }
    StretchIs(reference, 8, 0, false, 2);
    StretchIs(reference, 8, 2, true, 4);
    StretchIs(reference, 8, 1, false, 2);
    StretchIs(reference, 8, 4, false, 8);
    StretchIs(reference, 8, 4, true, 4);
    StretchIs(reference, 8, 8, true, 8);
    StretchIs(row, 8, 0, false, 1);
    StretchIs(row, 8, 1, true, 4);
    StretchIs(row, 8, 4, false, 8);
  }

  lemma WrongColourModes()
    ensures CodedRow(WRONG_COLOUR) == [Vertical(-1), Vertical(0), Vertical(0)]
  {
    hide Pixel, Stretch;
    var c := WRONG_COLOUR;
    WrongColourStretches();
    CodedStep(c, 0, true, true);
    CodedStep(c, 1, false, false);
    CodedStep(c, 4, false, true);
    CodedNothing(c, false, false);
  }

  /** T.6 codes 0111 0000 against 0011 0000 as VL1, V0, V0, with no pass mode. The decoder takes the change to black
      at pixel 2 for the change to white: it paints one pixel and does not finish the row. */
  lemma WrongColourLost()
    ensures CodedRow(WRONG_COLOUR) == [Vertical(-1), Vertical(0), Vertical(0)]
    ensures From(WRONG_COLOUR, CodedRow(WRONG_COLOUR), 0, true) == Spans(false, [Span(1, 2)], [])
    ensures !Finds(WRONG_COLOUR.reference, 8, 1, false, false)
  {
    hide Pixel, Stretch, From, Coded;
    var c := WRONG_COLOUR;
    WrongColourStretches();
    WrongColourModes();
    assert [Vertical(-1), Vertical(0), Vertical(0)] == [Vertical(-1)] + ([Vertical(0)] + ([Vertical(0)] + []));
    FromVertical(c, -1, [Vertical(0)] + ([Vertical(0)] + []), 0, true);
    FromVertical(c, 0, [Vertical(0)] + [], 1, false);
    FromVertical(c, 0, [], 2, true);
    FromEnd(c, [], 4, false);
  }

  // ---------------------------------------------------------------- a pass mode in black

  /** 0111 1111 against 0110 0110. */
  const BLACK_PASS: Pair := RawPair([102], [127], 8)

  lemma BlackPassPixels(p: nat)
    requires p < 8
    ensures Pixel(BLACK_PASS.reference, p) == (p in {1, 2, 5, 6}) && Pixel(BLACK_PASS.row, p) == (p > 0)
  {
    PixelBits(102, p);
    PixelBits(127, p);
    assert p < 4 ==> Bit(6, 3 - p) == (p in {1, 2}) && Bit(7, 3 - p) == (p > 0);
    assert p >= 4 ==> Bit(102, 7 - p) == (p in {5, 6}) && Bit(127, 7 - p);
  }

  lemma BlackPassStretches()
    ensures var reference, row := BLACK_PASS.reference, BLACK_PASS.row;
      && !Pixel(reference, 0) && Pixel(reference, 1) && !Pixel(reference, 3) && Pixel(reference, 5)
      && !Pixel(row, 0) && Pixel(row, 1) && Pixel(row, 5)
      && Stretch(reference, 8, 0, false) == 1 && Stretch(reference, 8, 1, true) == 3 &&
        Stretch(reference, 8, 1, false) == 1
      && Stretch(reference, 8, 3, false) == 5 && Stretch(reference, 8, 5, true) == 7 &&
        Stretch(reference, 8, 5, false) == 5
      && Stretch(reference, 8, 7, false) == 8
      && Stretch(row, 8, 0, false) == 1 && Stretch(row, 8, 1, true) == 8 && Stretch(row, 8, 5, true) == 8
  {
    hide Pixel;
    var reference, row := BLACK_PASS.reference, BLACK_PASS.row;
    forall p: nat | p < 8 ensures Pixel(reference, p) == (p in {1, 2, 5, 6}) && Pixel(row, p) == (p > 0) {
      BlackPassPixels(p);
    }
    StretchIs(reference, 8, 0, false, 1);
    StretchIs(reference, 8, 1, true, 3);
    StretchIs(reference, 8, 1, false, 1);
    StretchIs(reference, 8, 3, false, 5);
    StretchIs(reference, 8, 5, true, 7);
    StretchIs(reference, 8, 5, false, 5);
    StretchIs(reference, 8, 7, false, 8);
    StretchIs(row, 8, 0, false, 1);
    StretchIs(row, 8, 1, true, 8);
    StretchIs(row, 8, 5, true, 8);
  }

  lemma BlackPassModes()
    ensures CodedRow(BLACK_PASS) == [Vertical(0), Pass, Vertical(1)]
  {
    hide Pixel, Stretch;
    var c := BLACK_PASS;
    BlackPassStretches();
    CodedStep(c, 0, true, true);
    CodedStep(c, 1, false, false);
    CodedStep(c, 5, false, false);
    CodedNothing(c, false, true);
  }

  /** T.6 codes 0111 1111 against 0110 0110 as V0, pass, VR1. The decoder finds every b1 and b2, but the pass moves
      on without painting: the row ends, and four of its seven black pixels are lost. */
  lemma BlackPassLost()
    ensures CodedRow(BLACK_PASS) == [Vertical(0), Pass, Vertical(1)]
    ensures From(BLACK_PASS, CodedRow(BLACK_PASS), 0, true) == Spans(true, [Span(5, 8)], [])
    ensures Finds(BLACK_PASS.reference, 8, 0, true, true) && Finds(BLACK_PASS.reference, 8, 1, false, false)
    ensures Finds(BLACK_PASS.reference, 8, 5, false, false)
  {
    hide Pixel, Stretch, From, Coded;
    var c := BLACK_PASS;
    BlackPassStretches();
    BlackPassModes();
    BlackPassPixels(3);
    BlackPassPixels(7);
    assert [Vertical(0), Pass, Vertical(1)] == [Vertical(0)] + ([Pass] + ([Vertical(1)] + []));
    FromVertical(c, 0, [Pass] + ([Vertical(1)] + []), 0, true);
    FromPass(c, [Vertical(1)] + [], 1, false);
    FromVertical(c, 1, [], 5, false);
    FromEnd(c, [], 8, true);
  }

  // ---------------------------------------------------------------- pages without a row count

  lemma WhiteByte()
    ensures White(8) == [0]
  {
    assert CeilDiv8(8) == 1;
  }

  /** The bits of a vertical mode, and where they take the reader. */
  lemma VerticalBits(offset: int, more: seq<Mode>, white: bool, c: Cursor)
    requires -3 <= offset <= 3 && AllWritable(more)
    ensures var code := Codes.Code(Codes.Vertical(offset));
      && AllWritable([Vertical(offset)] + more)
      && RowBits([Vertical(offset)] + more, white) == code + RowBits(more, !white)
      && AfterModes(c, [Vertical(offset)] + more, white) == AfterModes(Past(c, |code|, 7), more, !white)
  {
    hide Codes.Code;
    var all := [Vertical(offset)] + more;
    assert all[0] == Vertical(offset) && all[1..] == more;
    forall m | m in all ensures Writable(m) {}
    assert Codes.Code(Codes.Vertical(offset)) + [] == Codes.Code(Codes.Vertical(offset));
  }

  lemma NoBitsMore(white: bool, c: Cursor)
    ensures AllWritable([]) && RowBits([], white) == [] && AfterModes(c, [], white) == c
  {
  }

  lemma FirstBitOf128()
    ensures forall k :: StreamBit([128], k) <==> k == 0
  {
    forall k: nat ensures StreamBit([128], k) <==> k == 0 {
      if k < 8 {
        assert Bit(128, 7 - k) == (k == 0) by {
          if k < 4 {
            HighBit(128, 7 - k);
            assert Bit(8, 3 - k) == (k == 0);
          }
        }
      }
    }
  }

  /** Row `k` of a page, coded with the modes given. */
  lemma OneRowOf(data: seq<byte>, page: seq<Row>, columns: nat, k: nat, ms: seq<Mode>)
    requires WholePage(page, columns) && k < |page| && CodedRow(PairAt(page, columns, k)) == ms
    ensures AllWritable(ms)
    ensures PageBits(page, columns, k) == RowBits(ms, true) + PageBits(page, columns, k + 1)
    ensures AfterRows(data, page, columns, k + 1) == AfterModes(AfterRows(data, page, columns, k), ms, true)
  {
    hide WholePage, Coded, RowBits, AfterModes, AllWritable;
    CodedWritable(PairAt(page, columns, k), 0, true, true);
  }

  lemma NoRowOf(data: seq<byte>, page: seq<Row>, columns: nat)
    requires WholePage(page, columns)
    ensures PageBits(page, columns, |page|) == [] && AfterRows(data, page, columns, 0) == Cursor(0, 8 * |data|)
  {
    hide WholePage;
  }

  const ONE_ROW: seq<Row> := [[0]]

  lemma OneRowCoded()
    ensures WholePage(ONE_ROW, 8) && AllKept(ONE_ROW, 8, 1) && PageBits(ONE_ROW, 8, 0) == [true]
    ensures AfterRows([128], ONE_ROW, 8, 1) == Cursor(1, 8)
  {
    hide Followed, Coded, Pixel, RowBits, AfterModes, AllWritable, WholePage, PageBits, AfterRows, PairAt;
    WhiteByte();
    WhitePage(8, ONE_ROW);
    OneRowOf([128], ONE_ROW, 8, 0, [Vertical(0)]);
    NoRowOf([128], ONE_ROW, 8);
    OneVertical(0, Cursor(0, 8));
  }

  /** Without a row count, the eight white pixels coded in the byte 1000 0000 come back with a second row of eight. */
  method RowAppended() returns (r: Option<seq<byte>>)
    ensures r == Some([255, 255]) && ONE_ROW == [[0]]
  {
    hide StreamBit, AllKept, WholePage, PageBits, AfterRows, Shown;
    OneRowCoded();
    FirstBitOf128();
    assert StartsWith([128], ONE_ROW, 8);
    r := DecodePaddedPage(ONE_ROW, [128], 8, 0, false, None);
    WhiteByte();
    assert Padded([128], ONE_ROW, 8) == [[0], [0]];
    TwoBytes();
  }

  lemma TwoBytes()
    ensures Shown([[0], [0]], false) == [255, 255]
  {
    assert [] + [[0]] == [[0]] && [[0]] + [[0]] == [[0], [0]];
    ConcatSnoc([], [0]);
    ConcatSnoc([[0]], [0]);
    assert Concat([[0], [0]]) == [0, 0] && Inverted([0, 0]) == [255, 255];
  }

  /** A white row, one that ends in three black pixels, and a white one. */
  const THREE_ROWS: seq<Row> := [[0], [7], [0]]

  lemma SevenPixels(p: nat)
    ensures Pixel([7], p) == (5 <= p < 8) && !Pixel([0], p)
  {
    if p < 8 {
      PixelBits(7, p);
      PixelBits(0, p);
      assert p < 4 ==> !Bit(0, 3 - p);
      assert p >= 4 ==> Bit(7, 7 - p) == (p >= 5) && !Bit(0, 7 - p);
    }
  }

  lemma ThreeRowsWhole()
    ensures WholePage(THREE_ROWS, 8)
  {
    hide Pixel;
    forall k | 0 <= k < 3 ensures WholeRow(THREE_ROWS[k], 8) {
      forall p: nat | p >= 8 ensures !Pixel(THREE_ROWS[k], p) { SevenPixels(p); }
    }
  }

  lemma DownAndUp()
    ensures var down: Pair, up: Pair := RawPair([0], [7], 8), RawPair([7], [0], 8);
      && Followed(down, 0, true, true) && CodedRow(down) == [Vertical(-3), Vertical(0)]
      && Followed(up, 0, true, true) && CodedRow(up) == [Vertical(3)]
  {
    hide Pixel, Stretch;
    var down: Pair, up: Pair := RawPair([0], [7], 8), RawPair([7], [0], 8);
    forall p: nat ensures Pixel([7], p) == (5 <= p < 8) && !Pixel([0], p) { SevenPixels(p); }
    StretchIs([0], 8, 0, false, 8);
    StretchIs([0], 8, 5, false, 8);
    StretchIs([0], 8, 8, true, 8);
    StretchIs([7], 8, 0, false, 5);
    StretchIs([7], 8, 5, true, 8);
    CodedStep(down, 0, true, true);
    CodedStep(down, 5, false, false);
    CodedNothing(down, false, true);
    CodedStep(up, 0, true, true);
    CodedNothing(up, false, false);
  }

  lemma ThreeKept()
    ensures WholePage(THREE_ROWS, 8) && AllKept(THREE_ROWS, 8, 3)
    ensures CodedRow(PairAt(THREE_ROWS, 8, 0)) == [Vertical(0)]
    ensures CodedRow(PairAt(THREE_ROWS, 8, 1)) == [Vertical(-3), Vertical(0)]
    ensures CodedRow(PairAt(THREE_ROWS, 8, 2)) == [Vertical(3)]
  {
    hide Followed, Coded, Pixel, WholePage, PairAt;
    WhiteByte();
    ThreeRowsWhole();
    WhiteElements(8);
    DownAndUp();
    ThreePairs();
    forall k | 0 <= k < 3 ensures RowKept(THREE_ROWS, 8, k) {}
  }

  lemma ThreeRowsCoded(data: seq<byte>)
    requires |data| == 2
    ensures WholePage(THREE_ROWS, 8) && AllKept(THREE_ROWS, 8, 3)
    ensures PageBits(THREE_ROWS, 8, 0) == [true] + ([false, false, false, false, false, true, false] + [true]
      + ([false, false, false, false, false, true, true] + []))
    ensures AfterRows(data, THREE_ROWS, 8, 3) == Cursor(16, 16)
  {
    hide CodedRow, RowBits, AfterModes, AllWritable, AllKept, WholePage, PageBits, AfterRows, PairAt;
    ThreeKept();
    OneRowOf(data, THREE_ROWS, 8, 0, [Vertical(0)]);
    OneRowOf(data, THREE_ROWS, 8, 1, [Vertical(-3), Vertical(0)]);
    OneRowOf(data, THREE_ROWS, 8, 2, [Vertical(3)]);
    NoRowOf(data, THREE_ROWS, 8);
    OneVertical(0, Cursor(0, 16));
    TwoVerticals(Cursor(1, 16));
    OneVertical(3, Cursor(9, 16));
  }

  lemma OneVertical(offset: int, c: Cursor)
    requires offset in {0, 3}
    ensures AllWritable([Vertical(offset)])
    ensures RowBits([Vertical(offset)], true) == Codes.Code(Codes.Vertical(offset))
    ensures AfterModes(c, [Vertical(offset)], true) == Past(c, |Codes.Code(Codes.Vertical(offset))|, 7)
  {
    hide RowBits, AfterModes, AllWritable;
    NoBitsMore(false, Past(c, |Codes.Code(Codes.Vertical(offset))|, 7));
    VerticalBits(offset, [], true, c);
    assert [Vertical(offset)] + [] == [Vertical(offset)];
  }

  lemma TwoVerticals(c: Cursor)
    ensures AllWritable([Vertical(-3), Vertical(0)])
    ensures RowBits([Vertical(-3), Vertical(0)], true) == [false, false, false, false, false, true, false] + [true]
    ensures AfterModes(c, [Vertical(-3), Vertical(0)], true) == Past(Past(c, 7, 7), 1, 7)
  {
    hide RowBits, AfterModes, AllWritable;
    NoBitsMore(true, Past(Past(c, 7, 7), 1, 7));
    VerticalBits(0, [], false, Past(c, 7, 7));
    assert [Vertical(0)] + [] == [Vertical(0)] && [Vertical(-3)] + [Vertical(0)] == [Vertical(-3), Vertical(0)];
    VerticalBits(-3, [Vertical(0)], true, c);
  }

  lemma ThreePairs()
    requires WholePage(THREE_ROWS, 8)
    ensures PairAt(THREE_ROWS, 8, 0) == RawPair([0], [0], 8) && PairAt(THREE_ROWS, 8, 1) == RawPair([0], [7], 8)
    ensures PairAt(THREE_ROWS, 8, 2) == RawPair([7], [0], 8)
  {
    hide WholePage;
    WhiteByte();
  }

  /** 1000 0010 1000 0011 */
  lemma SixteenBits()
    ensures Stream([130, 131], 0, 16) ==
      [true] + ([false, false, false, false, false, true, false] + [true]
        + ([false, false, false, false, false, true, true] + []))
  {
    hide Bit;
    forall i | 0 <= i < 16 ensures StreamBit([130, 131], i) == (i in {0, 6, 8, 14, 15}) {
      BitsOf130(i % 8);
    }
  }

  lemma BitsOf130(p: nat)
    requires p < 8
    ensures Bit(130, 7 - p) == (p in {0, 6}) && Bit(131, 7 - p) == (p in {0, 6, 7})
  {
    if p < 4 {
      HighBit(130, 7 - p);
      HighBit(131, 7 - p);
      assert Bit(8, 3 - p) == (p == 0);
    } else {
      assert Bit(130, 3) == Bit(65, 2) && Bit(131, 3) == Bit(65, 2);
      assert p < 7 ==> Bit(130, 7 - p) == (p == 6) && Bit(131, 7 - p) == (p == 6);
    }
  }

  /** Three rows whose codes fill two bytes, the last code word having seven bits, come back without a row count. */
  method RowsAlone() returns (r: Option<seq<byte>>)
    ensures r == Some(Concat(THREE_ROWS))
  {
    hide Stream, AllKept, WholePage, PageBits, AfterRows, Concat;
    ThreeRowsCoded([130, 131]);
    SixteenBits();
    assert StartsWith([130, 131], THREE_ROWS, 8);
    r := DecodeCodedPage(THREE_ROWS, [130, 131], 8, 0, 0, true, None);
  }
}
