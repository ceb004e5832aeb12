/** Two-dimensional rows: what the decoder of src/filters/ccitt.rs makes of rows coded by ITU-T T.6. */
module CcittModes {
  import opened Bits
  import opened CcittRows
  import opened CcittCoding

  predicate Black(c: Pair, p: nat) {
    p < c.columns && Pixel(c.row, p)
  }

  // ---------------------------------------------------------------- rows the decoder can follow

  /** Exactly the black pixels from `from` on. */
  ghost predicate Paints(spans: seq<Span>, c: Pair, from: nat) {
    forall p: nat :: InSpans(spans, p) == (p >= from && Black(c, p))
  }

  lemma PaintsLess(spans: seq<Span>, c: Pair, from: nat, next: nat)
    requires Paints(spans, c, next) && from <= next && forall p: nat :: from <= p < next ==> !Black(c, p)
    ensures Paints(spans, c, from)
  {
    hide InSpans, Black;
  }

  lemma PaintsMore(span: Span, spans: seq<Span>, c: Pair, from: nat, next: nat)
    requires Paints(spans, c, next) && from <= span.start && span.end <= next && from <= next
    requires forall p: nat :: from <= p < next ==> Black(c, p) == (span.start <= p < span.end)
    ensures Paints([span] + spans, c, from)
  {
    hide InSpans, Black;
    forall p: nat ensures InSpans([span] + spans, p) == (p >= from && Black(c, p)) {
      InSpansCons(span, spans, p);
    }
  }

  /** Colours up to a1 and from there to a2. */
  lemma Colours(c: Pair, a0: nat, white: bool)
    requires a0 <= c.columns
    ensures forall p: nat :: a0 <= p < A1(c, a0, white) ==> Black(c, p) == !white
    ensures forall p: nat :: A1(c, a0, white) <= p < A2(c, a0, white) ==> Black(c, p) == white
  {
    hide Pixel;
  }

  lemma FoundElements(c: Pair, a0: nat, start: bool, white: bool)
    requires Standing(c, a0, start, white) && a0 < c.columns && Finds(c.reference, c.columns, a0, start, white)
    ensures First(c, a0) == B1(c.reference, c.columns, a0, start, white)
    ensures First(c, First(c, a0)) == B2(c.reference, c.columns, a0, start, white)
  {
    hide NextChanges, CollectedChanges, Finds, B1, B2;
    FindsExactly(c.reference, c.columns, a0, start, white);
    DecoderElements(c.reference, c.columns, a0);
  }

  /** A vertical mode the decoder can follow takes it to a1. */
  lemma VerticalFollowed(c: Pair, a0: nat, start: bool, white: bool)
    requires Standing(c, a0, start, white) && a0 < c.columns && NextMode(c, a0, start, white).Vertical?
    requires Finds(c.reference, c.columns, a0, start, white) || (start && A1(c, a0, white) == c.columns)
    ensures First(c, a0) + NextMode(c, a0, start, white).offset >= 0
    ensures Min(First(c, a0) + NextMode(c, a0, start, white).offset, c.columns) == A1(c, a0, white)
  {
    hide B2;
    if Finds(c.reference, c.columns, a0, start, white) {
      FoundElements(c, a0, start, white);
    } else {
      assert Pixel(c.reference, 0);
      assert B1(c.reference, c.columns, a0, start, white) == 0;
    }
  }

  lemma CodedStep(c: Pair, a0: nat, start: bool, white: bool)
    requires Standing(c, a0, start, white) && a0 < c.columns
    ensures Coded(c, a0, start, white) ==
      [NextMode(c, a0, start, white)] + Coded(c, NextStand(c, a0, start, white), false, NextColour(c, a0, start, white))
    ensures Followed(c, a0, start, white) ==>
      Followed(c, NextStand(c, a0, start, white), false, NextColour(c, a0, start, white))
  {
    hide NextMode, NextStand, Finds, A1;
  }

  lemma CodedNothing(c: Pair, start: bool, white: bool)
    requires Standing(c, c.columns, start, white)
    ensures Coded(c, c.columns, start, white) == [] && Followed(c, c.columns, start, white)
  {
  }

  lemma {:induction false} FollowedDecodes(c: Pair, a0: nat, start: bool, white: bool)
    requires Standing(c, a0, start, white) && Followed(c, a0, start, white)
    ensures var s := From(c, Coded(c, a0, start, white), a0, white);
      s.ok && s.rest == [] && Paints(s.black, c, a0)
    decreases c.columns - a0, start
  {
    hide From, Coded, Followed, Black, B1, B2, InSpans;
    FromEnd(c, [], c.columns, white);
    if a0 == c.columns {
      CodedNothing(c, start, white);
      NothingPaints(c);
    } else {
      CodedStep(c, a0, start, white);
      Colours(c, a0, white);
      var next, colour := NextStand(c, a0, start, white), NextColour(c, a0, start, white);
      var more := Coded(c, next, false, colour);
      FollowedDecodes(c, next, false, colour);
      FollowedStep(c, a0, start, white);
      match NextMode(c, a0, start, white)
      case Pass =>
        FromPass(c, more, a0, white);
        FoundElements(c, a0, start, white);
        PaintsLess(From(c, more, next, colour).black, c, a0, next);
      case Vertical(offset) =>
        VerticalFollowed(c, a0, start, white);
        FromVertical(c, offset, more, a0, white);
        if white {
          PaintsLess(From(c, more, next, colour).black, c, a0, next);
        } else {
          PaintsMore(Span(a0, next), From(c, more, next, colour).black, c, a0, next);
        }
      case Horizontal(run1, run2) =>
        FromHorizontal(c, run1, run2, more, a0, white);
        PaintsMore(HorizontalSpan(c.columns, a0, run1, run2, white), From(c, more, next, colour).black, c, a0, next);
    }
  }

  lemma FollowedStep(c: Pair, a0: nat, start: bool, white: bool)
    requires Standing(c, a0, start, white) && a0 < c.columns && Followed(c, a0, start, white)
    ensures NextMode(c, a0, start, white).Pass? ==> white && Finds(c.reference, c.columns, a0, start, white)
    ensures NextMode(c, a0, start, white).Vertical? ==>
      Finds(c.reference, c.columns, a0, start, white) || (start && A1(c, a0, white) == c.columns)
    ensures NextMode(c, a0, start, white).Pass? || NextMode(c, a0, start, white).Vertical? ||
      NextMode(c, a0, start, white).Horizontal?
  {
    hide Finds, A1, NextStand, NextColour;
  }

  lemma NothingPaints(c: Pair)
    ensures Paints([], c, c.columns)
  {
    hide InSpans;
    forall p: nat ensures !InSpans([], p) { NoSpans(p); }
  }
}
