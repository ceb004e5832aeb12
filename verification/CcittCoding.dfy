/** The two-dimensional coding procedure of section 2.2 of ITU-T T.6, with its own changing elements b1 and b2,
    and the elements that the decoder of src/filters/ccitt.rs finds instead. */
module CcittCoding {
  import opened Bits
  import opened CcittRows

  /** A row to code against a reference row, both `columns` wide; a set bit is black. */
  datatype RawPair = RawPair(reference: seq<byte>, row: seq<byte>, columns: nat)

  type Pair = c: RawPair | c.columns <= 8 * |c.reference| witness RawPair([], [], 0)

  // ---------------------------------------------------------------- stretches of one colour

  /** End of the stretch of pixels of one colour that starts at `p`: the first pixel of the other colour. */
  function Stretch(row: seq<byte>, columns: nat, p: nat, black: bool): (end: nat)
    requires p <= columns
    ensures p <= end <= columns
    ensures forall q :: p <= q < end ==> Pixel(row, q) == black
    ensures end < columns ==> Pixel(row, end) != black
    decreases columns - p
  {
    if p < columns && Pixel(row, p) == black then Stretch(row, columns, p + 1, black) else p
  }

  lemma StretchIs(row: seq<byte>, columns: nat, p: nat, black: bool, end: nat)
    requires p <= end <= columns && (forall q :: p <= q < end ==> Pixel(row, q) == black)
    requires end < columns ==> Pixel(row, end) != black
    ensures Stretch(row, columns, p, black) == end
  {
    hide Pixel;
    var e := Stretch(row, columns, p, black);
    assert e < columns ==> Pixel(row, e) != black;
  }

  /** The next change of colour beyond `p`, whatever the colour. */
  function NextChange(row: seq<byte>, columns: nat, p: nat): (q: nat)
    requires p <= columns
    ensures p <= q <= columns && (p < columns ==> p < q)
  {
    if p < columns then Stretch(row, columns, p, Pixel(row, p)) else p
  }

  // ---------------------------------------------------------------- b1 and b2 of the standard

  /** b1: the first changing element to the right of a0 of the colour opposite to a0's. At the start of the row
      a0 is an imaginary white pixel before the first. */
  function B1(reference: seq<byte>, columns: nat, a0: nat, start: bool, white: bool): (b1: nat)
    requires a0 <= columns && (start ==> a0 == 0 && white)
    ensures a0 <= b1 <= columns
  {
    if start then Stretch(reference, columns, 0, false)
    else Stretch(reference, columns, Stretch(reference, columns, a0, white), !white)
  }

  /** b2: the next changing element to the right of b1. */
  function B2(reference: seq<byte>, columns: nat, a0: nat, start: bool, white: bool): (b2: nat)
    requires a0 <= columns && (start ==> a0 == 0 && white)
    ensures B1(reference, columns, a0, start, white) <= b2 <= columns
  {
    Stretch(reference, columns, B1(reference, columns, a0, start, white), white)
  }

  /** A changing element of the standard: a pixel whose colour differs from the one before it, the pixel before
      the first being white. */
  predicate Changing(row: seq<byte>, p: nat) {
    Pixel(row, p) != (p > 0 && Pixel(row, p - 1))
  }

  /** Whether `p` may be b1: beyond a0, and changing to the colour that is not a0's. */
  predicate MayBeB1(reference: seq<byte>, columns: nat, a0: nat, start: bool, white: bool, p: nat) {
    (start || p > a0) && p < columns && Changing(reference, p) && Pixel(reference, p) == white
  }

  lemma StandardB1(reference: seq<byte>, columns: nat, a0: nat, start: bool, white: bool)
    requires a0 < columns && (start ==> a0 == 0 && white)
    ensures var b1 := B1(reference, columns, a0, start, white);
      && (b1 == columns || MayBeB1(reference, columns, a0, start, white, b1))
      && forall p: nat :: p < b1 ==> !MayBeB1(reference, columns, a0, start, white, p)
  {
    hide Pixel;
    var b1 := B1(reference, columns, a0, start, white);
    var inner := if start then 0 else Stretch(reference, columns, a0, white);
    assert b1 < columns && b1 > inner ==> Pixel(reference, b1 - 1) == !white;
    forall p: nat | p < b1 ensures !MayBeB1(reference, columns, a0, start, white, p) {
      if a0 < p < inner {
        assert Pixel(reference, p) == Pixel(reference, p - 1) == white;
      }
    }
  }

  /** `B1` and `B2` are the elements the standard defines. */
  lemma StandardElements(reference: seq<byte>, columns: nat, a0: nat, start: bool, white: bool)
    requires a0 < columns && (start ==> a0 == 0 && white)
    ensures var b1, b2 := B1(reference, columns, a0, start, white), B2(reference, columns, a0, start, white);
      && (b1 == columns || MayBeB1(reference, columns, a0, start, white, b1))
      && (forall p: nat :: p < b1 ==> !MayBeB1(reference, columns, a0, start, white, p))
      && (b2 == columns || (b2 > b1 && Changing(reference, b2)))
      && (forall p: nat :: b1 < p < b2 ==> !Changing(reference, p))
  {
    hide Pixel, MayBeB1;
    StandardB1(reference, columns, a0, start, white);
    var b1, b2 := B1(reference, columns, a0, start, white), B2(reference, columns, a0, start, white);
    assert b1 < columns ==> Pixel(reference, b1) == white;
    assert b2 < columns ==> b2 > b1 && Pixel(reference, b2 - 1) == white;
    forall p: nat | b1 < p < b2 ensures !Changing(reference, p) {
      assert Pixel(reference, p) == Pixel(reference, p - 1) == white;
    }
  }

  // ---------------------------------------------------------------- what the decoder finds

  lemma DecoderElements(reference: seq<byte>, columns: nat, a0: nat)
    requires a0 < columns <= 8 * |reference|
    ensures var b1 := NextChange(reference, columns, a0);
      NextChanges(CollectedChanges(reference, columns), a0) == B1B2(b1, NextChange(reference, columns, b1))
  {
    hide CollectedChanges, NextChanges, Pixel;
    var c := CollectedChanges(reference, columns);
    CollectedExactly(reference, columns);
    NextExactly(reference, columns, a0);
    var n := NextChanges(c, a0);
    assert Visible(reference, columns) == columns;
    NextInList(reference, columns, c, a0, n.b1);
    if n.b1 < columns {
      NextInList(reference, columns, c, n.b1, n.b2);
    }
  }

  lemma NextInList(reference: seq<byte>, columns: nat, c: seq<nat>, a0: nat, b: nat)
    requires a0 < columns && b in c && a0 < b <= columns && (forall p :: p in c && p > a0 ==> p >= b)
    requires forall p :: p in c <==> p == columns || (0 < p < columns && ChangeAt(reference, p))
    ensures b == NextChange(reference, columns, a0)
  {
    hide Pixel;
    var black := Pixel(reference, a0);
    SameColour(reference, columns, c, a0, b, b - 1);
    forall q | a0 <= q < b ensures Pixel(reference, q) == black {
      SameColour(reference, columns, c, a0, b, q);
    }
    assert b < columns ==> ChangeAt(reference, b);
    StretchIs(reference, columns, a0, black, b);
  }

  lemma {:induction false} SameColour(reference: seq<byte>, columns: nat, c: seq<nat>, a0: nat, b: nat, q: nat)
    requires a0 <= q < b <= columns && (forall p :: p in c && p > a0 ==> p >= b)
    requires forall p :: p in c <==> p == columns || (0 < p < columns && ChangeAt(reference, p))
    ensures Pixel(reference, q) == Pixel(reference, a0)
    decreases q
  {
    hide Pixel;
    if q > a0 {
      SameColour(reference, columns, c, a0, b, q - 1);
      assert q !in c;
      assert !ChangeAt(reference, q);
    }
  }

  /** The decoder looks for any change beyond a0, so it misses a change at pixel 0 and does not mind the colour. */
  predicate Finds(reference: seq<byte>, columns: nat, a0: nat, start: bool, white: bool)
    requires a0 <= columns
  {
    if start then !Pixel(reference, 0)
    else
      var b1 := NextChange(reference, columns, a0);
      b1 == columns || Pixel(reference, b1) == white
  }

  lemma MaySkip(reference: seq<byte>, columns: nat, a0: nat, white: bool)
    requires a0 < columns
    ensures var b1, first := B1(reference, columns, a0, false, white), NextChange(reference, columns, a0);
      && first <= b1
      && (first == b1 <==> Finds(reference, columns, a0, false, white))
      && (first < b1 ==> b1 == NextChange(reference, columns, first))
      && (b1 < columns ==> B2(reference, columns, a0, false, white) == NextChange(reference, columns, b1))
  {
    hide Pixel;
  }

  /** `next_b1_b2` finds b1 and b2 exactly when its b1 is the end of the row or has the colour opposite to a0's,
      and at the start of the row exactly when the reference row starts white. */
  lemma FindsExactly(reference: seq<byte>, columns: nat, a0: nat, start: bool, white: bool)
    requires a0 < columns <= 8 * |reference| && (start ==> a0 == 0 && white)
    ensures NextChanges(CollectedChanges(reference, columns), a0) ==
      B1B2(B1(reference, columns, a0, start, white), B2(reference, columns, a0, start, white))
      <==> Finds(reference, columns, a0, start, white)
  {
    hide Pixel, CollectedChanges, NextChanges;
    DecoderElements(reference, columns, a0);
    MaySkip(reference, columns, a0, white);
  }

  // ---------------------------------------------------------------- the coder

  /** The coder stands at the start of the row, or at a pixel of the current colour, or at the end. */
  predicate Standing(c: Pair, a0: nat, start: bool, white: bool) {
    a0 <= c.columns && (start ==> a0 == 0 && white) && (!start && a0 < c.columns ==> Pixel(c.row, a0) == !white)
  }

  /** a1 and a2: where the current stretch of the row ends, and the one after it. */
  function A1(c: Pair, a0: nat, white: bool): (a1: nat)
    requires a0 <= c.columns
    ensures a0 <= a1 <= c.columns
  {
    Stretch(c.row, c.columns, a0, !white)
  }

  function A2(c: Pair, a0: nat, white: bool): (a2: nat)
    requires a0 <= c.columns
    ensures A1(c, a0, white) <= a2 <= c.columns
  {
    Stretch(c.row, c.columns, A1(c, a0, white), white)
  }

  /** What the coder writes next: pass if b2 lies before a1, vertical if a1 is within three pixels of b1,
      else horizontal. */
  function NextMode(c: Pair, a0: nat, start: bool, white: bool): Mode
    requires Standing(c, a0, start, white)
  {
    var b1, b2 := B1(c.reference, c.columns, a0, start, white), B2(c.reference, c.columns, a0, start, white);
    var a1, a2 := A1(c, a0, white), A2(c, a0, white);
    if b2 < a1 then Pass
    else if -3 <= a1 - b1 <= 3 then Vertical(a1 - b1)
    else Horizontal(a1 - a0, a2 - a1)
  }

  /** Where a mode takes the coder. */
  function NextStand(c: Pair, a0: nat, start: bool, white: bool): (next: nat)
    requires Standing(c, a0, start, white) && a0 < c.columns
    ensures a0 <= next <= c.columns && (!start ==> a0 < next)
    ensures Standing(c, next, false, NextColour(c, a0, start, white))
  {
    match NextMode(c, a0, start, white)
    case Pass =>
      assert B1(c.reference, c.columns, a0, start, white) < c.columns;
      B2(c.reference, c.columns, a0, start, white)
    case Vertical(_) => A1(c, a0, white)
    case _ => A2(c, a0, white)
  }

  function NextColour(c: Pair, a0: nat, start: bool, white: bool): bool
    requires Standing(c, a0, start, white)
  {
    if NextMode(c, a0, start, white).Vertical? then !white else white
  }

  /** The modes of the row from a0 on. */
  function Coded(c: Pair, a0: nat, start: bool, white: bool): seq<Mode>
    requires Standing(c, a0, start, white)
    decreases c.columns - a0, start
  {
    if a0 == c.columns then []
    else
      [NextMode(c, a0, start, white)]
      + Coded(c, NextStand(c, a0, start, white), false, NextColour(c, a0, start, white))
  }

  function CodedRow(c: Pair): seq<Mode> {
    Coded(c, 0, true, true)
  }

  /** The decoder can follow the coder: it meets pass modes in white only, and finds b1 and b2 wherever they matter.
      At the start of a row that is white to its end, any b1 will do for a vertical mode. */
  predicate Followed(c: Pair, a0: nat, start: bool, white: bool)
    requires Standing(c, a0, start, white)
    decreases c.columns - a0, start
  {
    a0 == c.columns || (
      && (match NextMode(c, a0, start, white)
          case Pass => white && Finds(c.reference, c.columns, a0, start, white)
          case Vertical(_) => Finds(c.reference, c.columns, a0, start, white) ||
            (start && A1(c, a0, white) == c.columns)
          case _ => true)
      && Followed(c, NextStand(c, a0, start, white), false, NextColour(c, a0, start, white)))
  }

  // ---------------------------------------------------------------- the decoder on the coder's modes

  /** What the decoder makes of modes when it stands at pixel `d`. */
  function From(c: Pair, modes: seq<Mode>, d: nat, white: bool): Spans {
    RowSpans(modes, CollectedChanges(c.reference, c.columns), c.columns, d, white)
  }

  /** The two changes the decoder finds from `d`. */
  function First(c: Pair, d: nat): (q: nat)
    requires d <= c.columns
    ensures d <= q <= c.columns && (d < c.columns ==> d < q)
  {
    NextChange(c.reference, c.columns, d)
  }

  lemma FromPass(c: Pair, modes: seq<Mode>, d: nat, white: bool)
    requires d < c.columns
    ensures From(c, [Pass] + modes, d, white) == From(c, modes, First(c, First(c, d)), white)
  {
    hide RowSpans, CollectedChanges, NextChanges;
    var all := [Pass] + modes;
    assert all[0..] == all && all[1..] == modes;
    PassStep(all, 0, CollectedChanges(c.reference, c.columns), c.columns, d, white);
    DecoderElements(c.reference, c.columns, d);
  }

  lemma FromVertical(c: Pair, offset: int, modes: seq<Mode>, d: nat, white: bool)
    requires d < c.columns
    ensures var a1 := First(c, d) + offset;
      From(c, [Vertical(offset)] + modes, d, white) ==
        if a1 < 0 then Spans(false, [], modes)
        else
          var next := Min(a1, c.columns);
          var rest := From(c, modes, next, !white);
          if white then rest else Before(Span(d, d + SaturatingSub(next, d)), rest)
  {
    hide RowSpans, CollectedChanges, NextChanges;
    var all := [Vertical(offset)] + modes;
    assert all[0..] == all && all[1..] == modes;
    VerticalStep(all, 0, CollectedChanges(c.reference, c.columns), c.columns, d, white);
    DecoderElements(c.reference, c.columns, d);
  }

  lemma FromHorizontal(c: Pair, run1: nat, run2: nat, modes: seq<Mode>, d: nat, white: bool)
    requires d < c.columns
    ensures From(c, [Horizontal(run1, run2)] + modes, d, white) ==
      Before(HorizontalSpan(c.columns, d, run1, run2, white),
        From(c, modes, HorizontalEnd(c.columns, d, run1, run2), white))
  {
    hide RowSpans, CollectedChanges;
    var all := [Horizontal(run1, run2)] + modes;
    assert all[0..] == all && all[1..] == modes;
    HorizontalStep(all, 0, CollectedChanges(c.reference, c.columns), c.columns, d, white);
  }

  lemma FromEnd(c: Pair, modes: seq<Mode>, d: nat, white: bool)
    ensures d >= c.columns ==> From(c, modes, d, white) == Spans(true, [], modes)
    ensures d < c.columns && modes == [] ==> From(c, modes, d, white) == Spans(false, [], [])
  {
    hide RowSpans, CollectedChanges;
    RowSpansStop(modes, CollectedChanges(c.reference, c.columns), c.columns, d, white);
  }
}
