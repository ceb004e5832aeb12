/** Which rows coded by ITU-T T.6 the decoder of src/filters/ccitt.rs gives back: the converse half.
    A decoder that misses an element falls behind the coder, and what it then paints cannot be the row. */
module CcittExact {
  import opened Bits
  import opened CcittRows
  import opened CcittCoding
  import opened CcittModes

  ghost predicate Inside(spans: seq<Span>, c: Pair) {
    forall p: nat :: InSpans(spans, p) ==> Black(c, p)
  }

  ghost predicate Covers(spans: seq<Span>, c: Pair, from: nat) {
    forall p: nat :: p >= from && Black(c, p) ==> InSpans(spans, p)
  }

  ghost predicate Avoids(spans: seq<Span>, to: nat) {
    forall p: nat :: p < to ==> !InSpans(spans, p)
  }

  /** The rest of the row comes out right: black pixels only, all of them from `need` on, and no mode left over. */
  ghost predicate Good(s: Spans, c: Pair, need: nat) {
    s.ok && s.rest == [] && Inside(s.black, c) && Covers(s.black, c, need)
  }

  /** The coder stands at `a0`, the decoder at `d`, not beyond it. In white the pixels from `a0` on are still to be
      painted; in black those of the run that starts at `need`, where the coder stands unless it has passed since. */
  predicate Behind(c: Pair, a0: nat, d: nat, white: bool, need: nat) {
    && Standing(c, a0, false, white) && d <= a0 && need <= a0
    && (white ==> need == a0)
    && (!white ==>
      && a0 < c.columns && Black(c, need) && (need == 0 || !Black(c, need - 1))
      && (need == a0 || First(c, need) <= a0))
  }

  lemma FirstMonotone(c: Pair, x: nat, y: nat)
    requires x <= y <= c.columns
    ensures First(c, x) <= First(c, y)
  {
    hide Pixel;
    if x < y < First(c, x) {
      StretchIs(c.reference, c.columns, y, Pixel(c.reference, x), First(c, x));
    }
  }

  /** The decoder's two changes against b1 and b2. */
  lemma Lag(c: Pair, a0: nat, d: nat, white: bool)
    requires d <= a0 < c.columns
    ensures var b1, b2 := B1(c.reference, c.columns, a0, false, white), B2(c.reference, c.columns, a0, false, white);
      && First(c, d) <= First(c, a0) <= b1
      && (First(c, a0) == b1 <==> Finds(c.reference, c.columns, a0, false, white))
      && (b1 < c.columns ==> First(c, b1) == b2)
      && (First(c, a0) < b1 ==> First(c, First(c, a0)) == b1)
      && First(c, First(c, d)) <= b2
      && (b1 < c.columns && First(c, d) <= a0 ==> First(c, First(c, d)) <= b1)
  {
    hide B1, B2, Finds, Pixel;
    MaySkip(c.reference, c.columns, a0, white);
    FirstMonotone(c, d, a0);
    var b1 := B1(c.reference, c.columns, a0, false, white);
    FirstMonotone(c, First(c, d), b1);
    if First(c, d) <= a0 {
      FirstMonotone(c, First(c, d), a0);
    }
  }

  // ---------------------------------------------------------------- pass

  lemma PassBehind(c: Pair, a0: nat, d: nat, white: bool, need: nat)
    requires Behind(c, a0, d, white, need) && a0 < c.columns && NextMode(c, a0, false, white).Pass?
    ensures var next := NextStand(c, a0, false, white);
      Behind(c, next, First(c, First(c, d)), white, if white then next else need)
  {
    hide Pixel, First;
    Lag(c, a0, d, white);
    Lag(c, a0, a0, white);
    FirstMonotone(c, need, a0);
  }

  /** What follows from the state after a pass mode. */
  lemma PassForced(c: Pair, a0: nat, d: nat, white: bool, need: nat)
    requires Behind(c, a0, d, white, need) && a0 < c.columns && NextMode(c, a0, false, white).Pass?
    requires var next, later := NextStand(c, a0, false, white), First(c, First(c, d));
      && (!white ==> need == next)
      && (later < next ==> next < First(c, later))
      && (later == next ==> Followed(c, next, false, white))
    ensures white && (d < a0 ==> a0 < First(c, d)) && (d == a0 ==> Followed(c, a0, false, white))
  {
    hide Pixel, First, Finds, B1, B2;
    Lag(c, a0, d, white);
    var b1 := B1(c.reference, c.columns, a0, false, white);
    var next, later := NextStand(c, a0, false, white), First(c, First(c, d));
    assert b1 < next by { PassAdvances(c, a0, white); }
    if later <= b1 {
      FirstMonotone(c, later, b1);
    }
  }

  lemma PassAdvances(c: Pair, a0: nat, white: bool)
    requires Standing(c, a0, false, white) && a0 < c.columns && NextMode(c, a0, false, white).Pass?
    ensures B1(c.reference, c.columns, a0, false, white) < NextStand(c, a0, false, white) < c.columns
    ensures NextStand(c, a0, false, white) == B2(c.reference, c.columns, a0, false, white)
  {
    hide Pixel;
  }

  // ---------------------------------------------------------------- vertical

  lemma SpanFirst(span: Span, spans: seq<Span>, c: Pair, need: nat, from: nat)
    requires Inside([span] + spans, c) && Covers([span] + spans, c, need) && need <= from && span.end <= from
    ensures Inside(spans, c) && Covers(spans, c, from)
    ensures forall p: nat :: span.start <= p < span.end ==> Black(c, p)
    ensures Avoids(spans, from) ==> forall p: nat :: need <= p < from && Black(c, p) ==> span.start <= p < span.end
    ensures Avoids(spans, from) ==> Avoids([span] + spans, Min(span.start, from))
  {
    hide InSpans, Black;
    forall p: nat ensures InSpans([span] + spans, p) == (span.start <= p < span.end || InSpans(spans, p)) {
      InSpansCons(span, spans, p);
    }
  }

  /** Where a vertical mode takes the decoder. */
  function VerticalTo(c: Pair, a0: nat, d: nat, white: bool): int
    requires Standing(c, a0, false, white) && d <= a0 < c.columns && NextMode(c, a0, false, white).Vertical?
  {
    First(c, d) + NextMode(c, a0, false, white).offset
  }

  lemma VerticalLag(c: Pair, a0: nat, d: nat, white: bool)
    requires Standing(c, a0, false, white) && d <= a0 < c.columns && NextMode(c, a0, false, white).Vertical?
    ensures var next := NextStand(c, a0, false, white);
      && next == A1(c, a0, white) && a0 < next
      && VerticalTo(c, a0, d, white) <= next
      && (VerticalTo(c, a0, d, white) == next <==> First(c, d) == B1(c.reference, c.columns, a0, false, white))
  {
    hide Pixel, First, Finds;
    Lag(c, a0, d, white);
  }

  lemma VerticalFinds(c: Pair, a0: nat, d: nat, white: bool)
    requires Standing(c, a0, false, white) && d <= a0 < c.columns && NextMode(c, a0, false, white).Vertical?
    requires First(c, d) == B1(c.reference, c.columns, a0, false, white)
    requires Followed(c, NextStand(c, a0, false, white), false, NextColour(c, a0, false, white))
    ensures a0 < First(c, d) && (d == a0 ==> Followed(c, a0, false, white))
  {
    hide Pixel, First, Finds, B2;
    Lag(c, a0, d, white);
    BeyondA0(c, a0, white);
  }

  lemma BeyondA0(c: Pair, a0: nat, white: bool)
    requires a0 < c.columns
    ensures a0 < B1(c.reference, c.columns, a0, false, white)
  {
    hide Pixel;
  }

  lemma RunStart(c: Pair, a0: nat, white: bool)
    requires Standing(c, a0, false, white) && a0 < c.columns
    ensures var a1 := A1(c, a0, white);
      && a0 < a1 && Black(c, a1 - 1) == !white && (a1 < c.columns ==> Black(c, a1) == white)
      && forall p: nat :: a0 <= p < a1 ==> Black(c, p) == !white
  {
    Colours(c, a0, white);
  }

  lemma {:induction false} WhiteVertical(c: Pair, a0: nat, d: nat)
    requires Behind(c, a0, d, true, a0) && a0 < c.columns && NextMode(c, a0, false, true).Vertical?
    requires Good(From(c, Coded(c, a0, false, true), d, true), c, a0)
    ensures var s := From(c, Coded(c, a0, false, true), d, true);
      Avoids(s.black, a0) && a0 < First(c, d) && (d == a0 ==> Followed(c, a0, false, true))
    decreases c.columns - a0, 0
  {
    hide From, Coded, Followed, Black, First, A1, InSpans, Pixel, VerticalTo;
    var next, to := NextStand(c, a0, false, true), VerticalTo(c, a0, d, true);
    var more := Coded(c, next, false, false);
    CodedStep(c, a0, false, true);
    VerticalGoes(c, a0, d, true, more);
    VerticalLag(c, a0, d, true);
    RunStart(c, a0, true);
    FromEnd(c, [], to, false);
    if next < c.columns {
      Forced(c, next, to, false, next);
    } else {
      CodedNothing(c, false, false);
      NoneAvoids(c.columns);
    }
    VerticalFinds(c, a0, d, true);
  }

  lemma VerticalGoes(c: Pair, a0: nat, d: nat, white: bool, more: seq<Mode>)
    requires Standing(c, a0, false, white) && d <= a0 < c.columns && NextMode(c, a0, false, white).Vertical?
    ensures var to := VerticalTo(c, a0, d, white);
      From(c, [NextMode(c, a0, false, white)] + more, d, white) ==
        if to < 0 then Spans(false, [], more)
        else if white then From(c, more, to, false)
        else Before(Span(d, d + SaturatingSub(to, d)), From(c, more, to, true))
  {
    hide From, NextMode;
    VerticalLag(c, a0, d, white);
    FromVertical(c, NextMode(c, a0, false, white).offset, more, d, white);
  }

  lemma NoneAvoids(to: nat)
    ensures Avoids([], to)
  {
    hide InSpans;
    forall p: nat ensures !InSpans([], p) { NoSpans(p); }
  }

  lemma {:induction false} BlackVertical(c: Pair, a0: nat, d: nat, need: nat)
    requires Behind(c, a0, d, false, need) && a0 < c.columns && NextMode(c, a0, false, false).Vertical?
    requires Good(From(c, Coded(c, a0, false, false), d, false), c, need)
    ensures var s := From(c, Coded(c, a0, false, false), d, false);
      Avoids(s.black, need) && need == a0 == d && Followed(c, a0, false, false)
    decreases c.columns - a0, 0
  {
    hide From, Coded, Followed, Black, First, A1, InSpans, Pixel, VerticalTo;
    var next, to := NextStand(c, a0, false, false), VerticalTo(c, a0, d, false);
    var more := Coded(c, next, false, true);
    CodedStep(c, a0, false, false);
    VerticalGoes(c, a0, d, false, more);
    VerticalLag(c, a0, d, false);
    RunStart(c, a0, false);
    var span, rest := Span(d, d + SaturatingSub(to, d)), From(c, more, to, true);
    SpanFirst(span, rest.black, c, need, next);
    Forced(c, next, to, true, next);
    assert span.start <= next - 1 < span.end;
    assert to == next;
    assert span.start <= need;
    assert d == need;
    VerticalFinds(c, a0, d, false);
  }

  // ---------------------------------------------------------------- horizontal

  lemma HorizontalGoes(c: Pair, a0: nat, d: nat, white: bool, more: seq<Mode>)
    requires Standing(c, a0, false, white) && d <= a0 < c.columns && NextMode(c, a0, false, white).Horizontal?
    ensures var a1, next := A1(c, a0, white), NextStand(c, a0, false, white);
      && next == A2(c, a0, white)
      && From(c, [NextMode(c, a0, false, white)] + more, d, white) ==
         Before(if white then Span(d + (a1 - a0), d + (next - a0)) else
           Span(d, d + (a1 - a0)), From(c, more, d + (next - a0), white))
  {
    hide From, B1, B2, A1, A2;
    var mode := NextMode(c, a0, false, white);
    FromHorizontal(c, mode.run1, mode.run2, more, d, white);
  }

  lemma SecondRun(c: Pair, a0: nat, white: bool)
    requires Standing(c, a0, false, white) && a0 < c.columns && A1(c, a0, white) < c.columns
    ensures var a2 := A2(c, a0, white);
      A1(c, a0, white) < a2 && Black(c, a2 - 1) == white && (a2 < c.columns ==> Black(c, a2) == !white)
  {
    RunStart(c, a0, white);
    Colours(c, a0, white);
  }

  lemma FollowedHorizontal(c: Pair, a0: nat, white: bool)
    requires Standing(c, a0, false, white) && a0 < c.columns && NextMode(c, a0, false, white).Horizontal?
    requires Followed(c, NextStand(c, a0, false, white), false, white)
    ensures Followed(c, a0, false, white)
  {
    hide Finds, B1, B2, A1, A2;
  }

  lemma {:induction false} WhiteHorizontal(c: Pair, a0: nat, d: nat)
    requires Behind(c, a0, d, true, a0) && a0 < c.columns && NextMode(c, a0, false, true).Horizontal?
    requires Good(From(c, Coded(c, a0, false, true), d, true), c, a0)
    ensures var s := From(c, Coded(c, a0, false, true), d, true);
      Avoids(s.black, a0) && d == a0 && Followed(c, a0, false, true)
    decreases c.columns - a0, 0
  {
    hide From, Coded, Followed, Black, First, A1, A2, InSpans, Pixel, B1, B2;
    var a1, next := A1(c, a0, true), NextStand(c, a0, false, true);
    var more, to := Coded(c, next, false, true), d + (next - a0);
    CodedStep(c, a0, false, true);
    HorizontalGoes(c, a0, d, true, more);
    var span, rest := Span(d + (a1 - a0), to), From(c, more, to, true);
    SpanFirst(span, rest.black, c, a0, next);
    if next < c.columns {
      SecondRun(c, a0, true);
      Forced(c, next, to, true, next);
      assert span.start <= next - 1 < span.end;
    } else {
      CodedNothing(c, false, true);
      FromEnd(c, [], to, true);
      NoneAvoids(next);
    }
    FollowedHorizontal(c, a0, true);
  }

  lemma {:induction false} BlackHorizontal(c: Pair, a0: nat, d: nat, need: nat)
    requires Behind(c, a0, d, false, need) && a0 < c.columns && NextMode(c, a0, false, false).Horizontal?
    requires Good(From(c, Coded(c, a0, false, false), d, false), c, need)
    ensures var s := From(c, Coded(c, a0, false, false), d, false);
      Avoids(s.black, need) && need == a0 == d && Followed(c, a0, false, false)
    decreases c.columns - a0, 0
  {
    hide From, Coded, Followed, Black, First, A1, A2, InSpans, Pixel, B1, B2;
    var a1, next := A1(c, a0, false), NextStand(c, a0, false, false);
    var more, to := Coded(c, next, false, false), d + (next - a0);
    CodedStep(c, a0, false, false);
    HorizontalGoes(c, a0, d, false, more);
    var span, rest := Span(d, d + (a1 - a0)), From(c, more, to, false);
    RunStart(c, a0, false);
    SpanFirst(span, rest.black, c, need, next);
    if next < c.columns {
      SecondRun(c, a0, false);
      Forced(c, next, to, false, next);
    } else {
      CodedNothing(c, false, false);
      FromEnd(c, [], to, false);
      NoneAvoids(next);
    }
    assert span.start <= need;
    FollowedHorizontal(c, a0, false);
  }

  // ---------------------------------------------------------------- all modes

  lemma {:induction false} PassGood(c: Pair, a0: nat, d: nat, white: bool, need: nat)
    requires Behind(c, a0, d, white, need) && a0 < c.columns && NextMode(c, a0, false, white).Pass?
    requires Good(From(c, Coded(c, a0, false, white), d, white), c, need)
    ensures Avoids(From(c, Coded(c, a0, false, white), d, white).black, need)
    ensures white && (d < a0 ==> a0 < First(c, d)) && (d == a0 ==> Followed(c, a0, false, white))
    decreases c.columns - a0, 0
  {
    hide From, Coded, Followed, Black, First, A1, A2, InSpans, Pixel, B1, B2;
    var next, later := NextStand(c, a0, false, white), First(c, First(c, d));
    var more := Coded(c, next, false, white);
    CodedStep(c, a0, false, white);
    FromPass(c, more, d, white);
    PassBehind(c, a0, d, white, need);
    Forced(c, next, later, white, if white then next else need);
    PassForced(c, a0, d, white, need);
  }

  /** A decoder not ahead of the coder that gets the rest of the row right is in step with it, or in white with
      no change in between, and follows it to the end. */
  lemma {:induction false} Forced(c: Pair, a0: nat, d: nat, white: bool, need: nat)
    requires Behind(c, a0, d, white, need)
    requires Good(From(c, Coded(c, a0, false, white), d, white), c, need)
    ensures Avoids(From(c, Coded(c, a0, false, white), d, white).black, need)
    ensures !white ==> need == a0 == d
    ensures d < a0 ==> a0 < First(c, d)
    ensures d == a0 ==> Followed(c, a0, false, white)
    decreases c.columns - a0, 1
  {
    hide From, Coded, Followed, Black, First, A1, A2, InSpans, Pixel, Good, B1, B2;
    if a0 == c.columns {
      AtEnd(c, d, white, need);
    } else {
      ModeKinds(c, a0, white);
      match NextMode(c, a0, false, white)
      case Pass => PassGood(c, a0, d, white, need);
      case Vertical(_) => if white { WhiteVertical(c, a0, d); } else { BlackVertical(c, a0, d, need); }
      case Horizontal(_, _) => if white { WhiteHorizontal(c, a0, d); } else { BlackHorizontal(c, a0, d, need); }
    }
  }

  lemma ModeKinds(c: Pair, a0: nat, white: bool)
    requires Standing(c, a0, false, white)
    ensures var mode := NextMode(c, a0, false, white); mode.Pass? || mode.Vertical? || mode.Horizontal?
  {
    hide B1, B2, A1, A2;
  }

  lemma AtEnd(c: Pair, d: nat, white: bool, need: nat)
    requires d <= c.columns && Good(From(c, Coded(c, c.columns, false, white), d, white), c, need)
    ensures d == c.columns && Followed(c, c.columns, false, white)
    ensures forall to: nat :: Avoids(From(c, Coded(c, c.columns, false, white), d, white).black, to)
  {
    hide From;
    CodedNothing(c, false, white);
    FromEnd(c, [], d, white);
    forall to: nat ensures Avoids([], to) { NoneAvoids(to); }
  }
}
