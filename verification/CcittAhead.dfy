/** Rows coded by ITU-T T.6 against a reference row that starts black. There the decoder of src/filters/ccitt.rs
    runs ahead of the coder, and by counting runs it cannot come back to the first black pixel. */
module CcittAhead {
  import opened Bits
  import opened CcittRows
  import opened CcittCoding
  import opened CcittModes
  import opened CcittExact

  // ---------------------------------------------------------------- counting runs and spans

  /** Black runs of the row from `p` on. */
  function Runs(c: Pair, p: nat): nat
    requires p <= c.columns
    decreases c.columns - p
  {
    var s := Stretch(c.row, c.columns, p, false);
    if s == c.columns then 0 else 1 + Runs(c, Stretch(c.row, c.columns, s, true))
  }

  lemma RunsWhite(c: Pair, p: nat, q: nat)
    requires p <= c.columns && p <= q <= Stretch(c.row, c.columns, p, false)
    ensures Runs(c, q) == Runs(c, p)
  {
    hide Pixel;
    StretchIs(c.row, c.columns, q, false, Stretch(c.row, c.columns, p, false));
  }

  lemma RunsBlack(c: Pair, p: nat, q: nat)
    requires p <= c.columns && p <= q < Stretch(c.row, c.columns, p, true)
    ensures Runs(c, q) == Runs(c, p) == 1 + Runs(c, Stretch(c.row, c.columns, p, true))
  {
    hide Pixel;
    var end := Stretch(c.row, c.columns, p, true);
    StretchIs(c.row, c.columns, q, true, end);
    StretchIs(c.row, c.columns, q, false, q);
    StretchIs(c.row, c.columns, p, false, p);
  }

  predicate Counted(span: Span, from: nat) {
    from <= span.start < span.end
  }

  /** Non-empty intervals that start at `from` or later. */
  function Later(spans: seq<Span>, from: nat): nat {
    if spans == [] then 0 else (if Counted(spans[0], from) then 1 else 0) + Later(spans[1..], from)
  }

  lemma LaterCons(span: Span, spans: seq<Span>, from: nat)
    ensures Later([span] + spans, from) == (if Counted(span, from) then 1 else 0) + Later(spans, from)
  {
    assert ([span] + spans)[1..] == spans;
  }

  lemma {:induction false} LaterWithout(spans: seq<Span>, i: nat, from: nat)
    requires i < |spans| && Counted(spans[i], from)
    ensures Later(spans, from) == 1 + Later(spans[..i] + spans[i + 1..], from)
  {
    if i == 0 {
      assert spans[..0] + spans[1..] == spans[1..];
    } else {
      LaterWithout(spans[1..], i - 1, from);
      assert spans[..i] + spans[i + 1..] == [spans[0]] + (spans[1..][..i - 1] + spans[1..][i..]);
      LaterCons(spans[0], spans[1..][..i - 1] + spans[1..][i..], from);
    }
  }

  lemma InOthers(spans: seq<Span>, i: nat, p: nat)
    requires i < |spans|
    ensures InSpans(spans, p) <==> spans[i].start <= p < spans[i].end || InSpans(spans[..i] + spans[i + 1..], p)
  {
    var others := spans[..i] + spans[i + 1..];
    if k :| 0 <= k < |spans| && spans[k].start <= p < spans[k].end {
      if k < i { assert others[k] == spans[k]; } else if k > i { assert others[k - 1] == spans[k]; }
    }
    if k :| 0 <= k < |others| && others[k].start <= p < others[k].end {
      if k < i { assert others[k] == spans[k]; } else { assert others[k] == spans[k + 1]; }
    }
  }

  /** The interval that paints the first pixel of a run lies in the run. */
  lemma SpanOfRun(c: Pair, spans: seq<Span>, s: nat, end: nat) returns (i: nat)
    requires Inside(spans, c) && InSpans(spans, s) && s > 0 && !Black(c, s - 1) && s <= end && !Black(c, end)
    ensures i < |spans| && spans[i].start == s < spans[i].end <= end
  {
    hide Black;
    assert !InSpans(spans, s - 1) && !InSpans(spans, end);
    i :| 0 <= i < |spans| && spans[i].start <= s < spans[i].end;
  }

  /** To paint the runs from `a` on takes as many intervals. */
  lemma {:induction false} ManySpans(c: Pair, spans: seq<Span>, from: nat, a: nat)
    requires from <= a <= c.columns && !Black(c, a) && Inside(spans, c) && Covers(spans, c, a)
    ensures Later(spans, from) >= Runs(c, a)
    decreases c.columns - a
  {
    hide InSpans, Later;
    var s := Stretch(c.row, c.columns, a, false);
    if s < c.columns {
      var end := Stretch(c.row, c.columns, s, true);
      assert Black(c, s) && !Black(c, s - 1) && !Black(c, end);
      var i := SpanOfRun(c, spans, s, end);
      var others := spans[..i] + spans[i + 1..];
      forall p: nat ensures InSpans(spans, p) <==> spans[i].start <= p < spans[i].end || InSpans(others, p) {
        InOthers(spans, i, p);
      }
      LaterWithout(spans, i, from);
      ManySpans(c, others, from, end);
    }
  }

  // ---------------------------------------------------------------- one mode, from anywhere

  /** What one mode of the coder makes the decoder do: paint at most one interval and stand at `to`. */
  datatype Move = Move(span: Option<Span>, to: nat) | Failed

  function Painted(move: Move, rest: seq<Span>): seq<Span> {
    if move.Failed? then [] else if move.span.Some? then [move.span.value] + rest else rest
  }

  function MoveOf(c: Pair, a0: nat, d: nat, white: bool): Move
    requires Standing(c, a0, false, white) && d < c.columns
  {
    match NextMode(c, a0, false, white)
    case Pass => Move(None, First(c, First(c, d)))
    case Vertical(offset) =>
      var to := First(c, d) + offset;
      if to < 0 then Failed
      else if white then Move(None, Min(to, c.columns))
      else Move(Some(Span(d, d + SaturatingSub(Min(to, c.columns), d))), Min(to, c.columns))
    case Horizontal(run1, run2) =>
      Move(Some(HorizontalSpan(c.columns, d, run1, run2, white)), HorizontalEnd(c.columns, d, run1, run2))
    case _ => Failed
  }

  lemma MovePaints(c: Pair, a0: nat, d: nat, white: bool)
    requires Standing(c, a0, false, white) && a0 < c.columns && d < c.columns
    ensures var next, colour, move := NextStand(c, a0, false, white), NextColour(c, a0, false, white),
      MoveOf(c, a0, d, white);
      From(c, Coded(c, a0, false, white), d, white).black ==
      Painted(move, if move.Failed? then [] else From(c, Coded(c, next, false, colour), move.to, colour).black)
  {
    hide From, Coded, NextStand, B1, B2, A1, A2, First, HorizontalSpan, HorizontalEnd;
    var more := Coded(c, NextStand(c, a0, false, white), false, NextColour(c, a0, false, white));
    CodedStep(c, a0, false, white);
    match NextMode(c, a0, false, white)
    case Pass => FromPass(c, more, d, white);
    case Vertical(offset) => FromVertical(c, offset, more, d, white);
    case Horizontal(run1, run2) => FromHorizontal(c, run1, run2, more, d, white);
  }

  /** A mode that paints uses up a run of the row, save a last horizontal mode with no second run. */
  lemma MoveRuns(c: Pair, a0: nat, d: nat, white: bool)
    requires Standing(c, a0, false, white) && a0 < c.columns && d < c.columns && !MoveOf(c, a0, d, white).Failed?
    ensures var next, move := NextStand(c, a0, false, white), MoveOf(c, a0, d, white);
      && (move.span.None? ==> Runs(c, a0) == Runs(c, next))
      && (move.span.Some? ==> move.span.value.start >= d && move.span.value.start <= move.span.value.end)
      && (move.span.Some? ==>
            Runs(c, a0) == 1 + Runs(c, next) || (next == c.columns && move.span.value.start == move.span.value.end))
      && Runs(c, next) <= Runs(c, a0)
  {
    hide B1, B2, First, Runs, Pixel;
    RunStart(c, a0, white);
    if white {
      RunsWhite(c, a0, A1(c, a0, white));
      if NextMode(c, a0, false, white).Pass? {
        RunsWhite(c, a0, NextStand(c, a0, false, white));
      } else if NextMode(c, a0, false, white).Horizontal? && A1(c, a0, white) < c.columns {
        RunsBlack(c, A1(c, a0, white), A1(c, a0, white));
      }
    } else {
      if NextMode(c, a0, false, white).Pass? {
        RunsBlack(c, a0, NextStand(c, a0, false, white));
      } else {
        RunsBlack(c, a0, a0);
        RunsWhite(c, A1(c, a0, white), A2(c, a0, white));
      }
    }
  }

  lemma MoveReach(c: Pair, a0: nat, d: nat, white: bool)
    requires Standing(c, a0, false, white) && a0 < c.columns && d < c.columns && !MoveOf(c, a0, d, white).Failed?
    ensures var colour, move := NextColour(c, a0, false, white), MoveOf(c, a0, d, white);
      && (colour == white ==> move.to >= d)
      && (move.span.Some? && move.span.value.start < move.span.value.end ==> move.to >= move.span.value.end)
      && (white && !colour ==> move.to + 2 >= d || move.to == c.columns)
      && (!white && colour ==> move.span.Some?)
      && (white && !colour ==> move.span.None?)
  {
    hide B1, B2, Pixel;
  }

  /** The decoder paints no more intervals than the coder has runs, and one fewer later ones if it still paints `t`. */
  lemma {:induction false} FewSpans(c: Pair, a0: nat, d: nat, white: bool, t: nat, from: nat)
    requires Standing(c, a0, false, white) && t < from
    ensures var spans := From(c, Coded(c, a0, false, white), d, white).black;
      && Later(spans, from) <= Runs(c, a0)
      && (InSpans(spans, t) ==> Later(spans, from) + 1 <= Runs(c, a0))
    decreases c.columns - a0
  {
    hide From, Coded, InSpans, Runs, Later, MoveOf, NextStand, NextColour;
    NoSpans(t);
    NoneLater(from);
    FromEnd(c, Coded(c, a0, false, white), d, white);
    FromEnd(c, [], d, white);
    if a0 == c.columns {
      CodedNothing(c, false, white);
    } else if d < c.columns {
      var move := MoveOf(c, a0, d, white);
      MovePaints(c, a0, d, white);
      if !move.Failed? {
        var next, colour := NextStand(c, a0, false, white), NextColour(c, a0, false, white);
        var rest := From(c, Coded(c, next, false, colour), move.to, colour).black;
        MoveRuns(c, a0, d, white);
        FewSpans(c, next, move.to, colour, t, from);
        if move.span.Some? {
          LaterCons(move.span.value, rest, from);
          InSpansCons(move.span.value, rest, t);
        }
      }
    }
  }

  lemma NoneLater(from: nat)
    ensures Later([], from) == 0
  {
  }

  /** The first black pixel of the row, and the end of its run. */
  predicate FirstRun(c: Pair, t: nat, end: nat) {
    t < end <= c.columns && t < c.columns && !Black(c, end)
  }

  /** Beyond the first black pixel the decoder cannot come back to it, except at the price of one more run. */
  lemma {:induction false} NeverBack(c: Pair, a0: nat, d: nat, white: bool, t: nat, end: nat)
    requires Standing(c, a0, false, white) && FirstRun(c, t, end) && (if white then d >= t + 3 else d > t)
    requires Inside(From(c, Coded(c, a0, false, white), d, white).black, c)
    requires InSpans(From(c, Coded(c, a0, false, white), d, white).black, t)
    ensures Later(From(c, Coded(c, a0, false, white), d, white).black, end) + 2 <= Runs(c, a0)
    decreases c.columns - a0
  {
    hide From, Coded, InSpans, Runs, Later, MoveOf, NextStand, NextColour, Black;
    NoSpans(t);
    FromEnd(c, Coded(c, a0, false, white), d, white);
    FromEnd(c, [], d, white);
    if a0 == c.columns {
      CodedNothing(c, false, white);
      assert false;
    } else {
      var move := MoveOf(c, a0, d, white);
      MovePaints(c, a0, d, white);
      var next, colour := NextStand(c, a0, false, white), NextColour(c, a0, false, white);
      var rest := From(c, Coded(c, next, false, colour), move.to, colour).black;
      MoveRuns(c, a0, d, white);
      MoveReach(c, a0, d, white);
      FewSpans(c, next, move.to, colour, t, end);
      RunsNone(c);
      if move.span.None? {
        NeverBack(c, next, move.to, colour, t, end);
      } else {
        var span := move.span.value;
        LaterCons(span, rest, end);
        InSpansCons(span, rest, t);
        if Counted(span, end) {
          InsideCons(c, span, rest);
          assert span.start != end;
          NeverBack(c, next, move.to, colour, t, end);
        }
      }
    }
  }

  lemma RunsNone(c: Pair)
    ensures Runs(c, c.columns) == 0
  {
  }

  lemma InsideCons(c: Pair, span: Span, rest: seq<Span>)
    requires Inside([span] + rest, c)
    ensures Inside(rest, c) && forall p: nat :: span.start <= p < span.end ==> Black(c, p)
  {
    hide InSpans, Black;
    forall p: nat ensures InSpans([span] + rest, p) == (span.start <= p < span.end || InSpans(rest, p)) {
      InSpansCons(span, rest, p);
    }
  }

  // ---------------------------------------------------------------- ahead in white

  /** The coder stands at a white change of the reference row, the decoder one change further. */
  predicate OneAhead(c: Pair, a0: nat, d: nat) {
    Standing(c, a0, false, true) && a0 < c.columns && !Pixel(c.reference, a0) && d == First(c, a0)
  }

  lemma OneAheadElements(c: Pair, a0: nat, d: nat)
    requires OneAhead(c, a0, d)
    ensures B1(c.reference, c.columns, a0, false, true) == d && (d < c.columns ==> Pixel(c.reference, d))
    ensures B2(c.reference, c.columns, a0, false, true) == First(c, d)
    ensures First(c, d) < c.columns ==> !Pixel(c.reference, First(c, d))
  {
    hide Pixel;
  }

  lemma OneAheadPass(c: Pair, a0: nat, d: nat)
    requires OneAhead(c, a0, d) && NextMode(c, a0, false, true).Pass?
    ensures var next := NextStand(c, a0, false, true);
      && OneAhead(c, next, First(c, First(c, d))) && A1(c, next, true) == A1(c, a0, true) && next < c.columns
      && d < c.columns && next == First(c, d) && NextColour(c, a0, false, true)
  {
    hide Pixel, First;
    OneAheadElements(c, a0, d);
    StretchIs(c.row, c.columns, First(c, d), false, A1(c, a0, true));
  }

  lemma {:induction false} AheadWhite(c: Pair, a0: nat, d: nat, t: nat, end: nat)
    requires OneAhead(c, a0, d) && t == A1(c, a0, true) && end == A2(c, a0, true) && t < c.columns
    requires Inside(From(c, Coded(c, a0, false, true), d, true).black, c)
    requires InSpans(From(c, Coded(c, a0, false, true), d, true).black, t)
    ensures Later(From(c, Coded(c, a0, false, true), d, true).black, end) + 2 <= Runs(c, a0)
    decreases c.columns - a0
  {
    hide From, Coded, InSpans, Runs, Later, Black, B1, B2, First, Pixel, OneAhead;
    NoSpans(t);
    AheadStands(c, a0, d, t, end);
    FromEnd(c, Coded(c, a0, false, true), d, true);
    OneAheadElements(c, a0, d);
    var move := MoveOf(c, a0, d, true);
    MovePaints(c, a0, d, true);
    var next, colour := NextStand(c, a0, false, true), NextColour(c, a0, false, true);
    var rest := From(c, Coded(c, next, false, colour), move.to, colour).black;
    MoveRuns(c, a0, d, true);
    MoveReach(c, a0, d, true);
    match NextMode(c, a0, false, true)
    case Pass =>
      OneAheadPass(c, a0, d);
      AheadWhite(c, next, move.to, t, end);
    case Vertical(_) =>
      NeverBack(c, next, move.to, false, t, end);
    case Horizontal(_, _) =>
      var span := move.span.value;
      LaterCons(span, rest, end);
      InSpansCons(span, rest, t);
      FewSpans(c, next, move.to, true, t, end);
      RunsNone(c);
      if Counted(span, end) {
        InsideCons(c, span, rest);
        assert span.start != end;
        NeverBack(c, next, move.to, true, t, end);
      }
  }

  lemma AheadStands(c: Pair, a0: nat, d: nat, t: nat, end: nat)
    requires OneAhead(c, a0, d) && t == A1(c, a0, true) && end == A2(c, a0, true) && t < c.columns
    ensures FirstRun(c, t, end) && a0 < t && Standing(c, a0, false, true) && a0 < c.columns
    ensures a0 < d <= c.columns && (d < c.columns ==> d < First(c, d))
  {
    RunStart(c, a0, true);
    SecondRun(c, a0, true);
  }

  /** Against a reference row that starts black, a row with a black pixel whose first mode moves the decoder
      ahead does not come back. */
  lemma StartAhead(c: Pair)
    requires 0 < c.columns && Pixel(c.reference, 0) && A1(c, 0, true) < c.columns
    requires NextMode(c, 0, true, true).Pass? || NextMode(c, 0, true, true).Vertical?
    requires Inside(From(c, CodedRow(c), 0, true).black, c)
    ensures !Covers(From(c, CodedRow(c), 0, true).black, c, 0)
  {
    hide From, Coded, InSpans, Runs, Later, Black, Pixel, First, B1, B2;
    var t, end := A1(c, 0, true), A2(c, 0, true);
    var spans := From(c, CodedRow(c), 0, true).black;
    var next, colour := NextStand(c, 0, true, true), NextColour(c, 0, true, true);
    var more := Coded(c, next, false, colour);
    StartElements(c);
    CodedStep(c, 0, true, true);
    if Covers(spans, c, 0) {
      if NextMode(c, 0, true, true).Pass? {
        FromPass(c, more, 0, true);
        AheadWhite(c, next, First(c, First(c, 0)), t, end);
      } else {
        FromVertical(c, t, more, 0, true);
        NeverBack(c, next, Min(First(c, 0) + t, c.columns), false, t, end);
      }
      ManySpans(c, spans, end, end);
      assert false;
    }
  }

  /** The elements at the start of a row against a reference row that starts black. */
  lemma StartElements(c: Pair)
    requires 0 < c.columns && Pixel(c.reference, 0)
    ensures B1(c.reference, c.columns, 0, true, true) == 0 &&
      B2(c.reference, c.columns, 0, true, true) == First(c, 0) > 0
    ensures NextMode(c, 0, true, true).Vertical? ==> NextMode(c, 0, true, true).offset == A1(c, 0, true)
    ensures NextMode(c, 0, true, true).Pass? ==>
      && OneAhead(c, First(c, 0), First(c, First(c, 0))) && First(c, 0) < A1(c, 0, true)
      && NextStand(c, 0, true, true) == First(c, 0)
      && A1(c, First(c, 0), true) == A1(c, 0, true) && Runs(c, First(c, 0)) == Runs(c, 0)
    ensures A1(c, 0, true) < c.columns ==>
      var t, end := A1(c, 0, true), A2(c, 0, true);
      FirstRun(c, t, end) && Black(c, t) && Runs(c, t) == Runs(c, 0) == 1 + Runs(c, end)
  {
    hide Pixel, Runs;
    var t := A1(c, 0, true);
    RunsWhite(c, 0, t);
    if First(c, 0) < t {
      RunsWhite(c, 0, First(c, 0));
      StretchIs(c.row, c.columns, First(c, 0), false, t);
    }
    if t < c.columns {
      RunsBlack(c, t, t);
    }
  }

  // ---------------------------------------------------------------- white rows

  lemma {:induction false} WhiteAhead(c: Pair, a0: nat, d: nat)
    requires OneAhead(c, a0, d) && A1(c, a0, true) == c.columns
    ensures var s := From(c, Coded(c, a0, false, true), d, true);
      s.ok && Paints(s.black, c, c.columns) && (s.rest == [] <==> Pixel(c.reference, c.columns - 1))
    decreases c.columns - a0
  {
    hide From, Coded, InSpans, Black, B1, B2, Pixel, First;
    var modes, n := Coded(c, a0, false, true), c.columns;
    OneAheadElements(c, a0, d);
    OneAheadLast(c, a0, d);
    CodedStep(c, a0, false, true);
    FromEnd(c, modes, d, true);
    NothingPaints(c);
    if d < n {
      var next := NextStand(c, a0, false, true);
      match NextMode(c, a0, false, true)
      case Pass =>
        FromPass(c, Coded(c, next, false, true), d, true);
        OneAheadPass(c, a0, d);
        WhiteAhead(c, next, First(c, First(c, d)));
      case Vertical(offset) =>
        CodedNothing(c, false, false);
        FromVertical(c, offset, [], d, true);
        FromEnd(c, [], n, false);
      case Horizontal(run1, run2) =>
        CodedNothing(c, false, true);
        FromHorizontal(c, run1, run2, [], d, true);
        FromEnd(c, [], n, true);
        EmptySpan(c, n);
    }
  }

  lemma OneAheadLast(c: Pair, a0: nat, d: nat)
    requires OneAhead(c, a0, d)
    ensures a0 < d <= c.columns && (d == c.columns ==> !Pixel(c.reference, c.columns - 1))
    ensures d < c.columns && First(c, d) == c.columns ==> Pixel(c.reference, c.columns - 1)
  {
    hide Pixel;
  }

  lemma EmptySpan(c: Pair, p: nat)
    ensures Paints([Span(p, p)] + [], c, c.columns)
  {
    hide InSpans, Black;
    NothingPaints(c);
    forall q: nat ensures InSpans([Span(p, p)] + [], q) == InSpans([], q) {
      InSpansCons(Span(p, p), [], q);
    }
    assert forall q: nat :: !(q >= c.columns && Black(c, q)) by { NoneBeyond(c); }
  }

  lemma NoneBeyond(c: Pair)
    ensures forall q: nat :: q >= c.columns ==> !Black(c, q)
  {
  }

  /** A white row against a reference row that starts black comes out white, and without a mode left over exactly
      when the reference row also ends black. */
  lemma WhiteStart(c: Pair)
    requires 0 < c.columns && Pixel(c.reference, 0) && A1(c, 0, true) == c.columns
    ensures var s := From(c, CodedRow(c), 0, true);
      s.ok && Paints(s.black, c, c.columns) && (s.rest == [] <==> Pixel(c.reference, c.columns - 1))
  {
    hide From, Coded, InSpans, Black, B1, B2, First, Runs;
    var n := c.columns;
    StartElements(c);
    CodedStep(c, 0, true, true);
    NothingPaints(c);
    match NextMode(c, 0, true, true)
    case Pass =>
      FromPass(c, Coded(c, First(c, 0), false, true), 0, true);
      WhiteAhead(c, First(c, 0), First(c, First(c, 0)));
    case Vertical(offset) =>
      AllBlack(c);
      CodedNothing(c, false, false);
      FromVertical(c, offset, [], 0, true);
      FromEnd(c, [], n, false);
    case Horizontal(run1, run2) =>
      AllBlack(c);
      CodedNothing(c, false, true);
      FromHorizontal(c, run1, run2, [], 0, true);
      FromEnd(c, [], n, true);
      EmptySpan(c, n);
  }

  lemma AllBlack(c: Pair)
    requires 0 < c.columns && Pixel(c.reference, 0) && First(c, 0) == c.columns
    ensures Pixel(c.reference, c.columns - 1)
  {
    hide Pixel;
  }

  // ---------------------------------------------------------------- rows

  /** The decoder gets the row right from its own modes alone: it paints the row, and uses up the modes. */
  ghost predicate ComesBack(c: Pair) {
    var s := From(c, CodedRow(c), 0, true);
    s.ok && s.rest == [] && Paints(s.black, c, 0)
  }

  /** A row without a black pixel against a reference row that starts and ends black. */
  predicate LuckyWhite(c: Pair) {
    c.columns > 0 && A1(c, 0, true) == c.columns && Pixel(c.reference, 0) && Pixel(c.reference, c.columns - 1)
  }

  lemma StartGood(c: Pair)
    requires ComesBack(c)
    ensures Good(From(c, CodedRow(c), 0, true), c, 0)
  {
    hide From, Coded, InSpans, Black;
  }

  lemma StartForced(c: Pair)
    requires 0 < c.columns && Good(From(c, CodedRow(c), 0, true), c, 0)
    requires match NextMode(c, 0, true, true)
      case Pass => Finds(c.reference, c.columns, 0, true, true)
      case Vertical(_) => Finds(c.reference, c.columns, 0, true, true) || A1(c, 0, true) == c.columns
      case _ => true
    ensures Followed(c, 0, true, true)
  {
    hide From, Coded, InSpans, Black, Pixel, First, B1, B2, Finds;
    var next, colour := NextStand(c, 0, true, true), NextColour(c, 0, true, true);
    var more := Coded(c, next, false, colour);
    CodedStep(c, 0, true, true);
    Colours(c, 0, true);
    if next == c.columns {
      CodedNothing(c, false, colour);
    } else {
      StartNext(c);
      match NextMode(c, 0, true, true)
      case Pass =>
        FoundElements(c, 0, true, true);
        FromPass(c, more, 0, true);
        Forced(c, next, next, true, next);
      case Vertical(offset) =>
        VerticalFollowed(c, 0, true, true);
        FromVertical(c, offset, more, 0, true);
        Forced(c, next, next, false, next);
      case Horizontal(run1, run2) =>
        FromHorizontal(c, run1, run2, more, 0, true);
        SpanFirst(HorizontalSpan(c.columns, 0, run1, run2, true), From(c, more, next, true).black, c, 0, next);
        Forced(c, next, next, true, next);
    }
  }

  lemma StartNext(c: Pair)
    requires 0 < c.columns
    ensures var next := NextStand(c, 0, true, true);
      next < c.columns ==> Behind(c, next, next, NextColour(c, 0, true, true), next)
  {
    Colours(c, 0, true);
    hide B1, B2, Pixel;
  }

  /** Row theorem: the decoder gives back a row coded by T.6, from its own modes alone, exactly when it can follow the
      coder, or when the row is white and the reference row starts and ends black. */
  lemma RowExactly(c: Pair)
    ensures ComesBack(c) <==> Followed(c, 0, true, true) || LuckyWhite(c)
  {
    hide From, Coded, InSpans, Black, Followed, B1, B2, First, Finds;
    if Followed(c, 0, true, true) {
      FollowedDecodes(c, 0, true, true);
    }
    if c.columns == 0 {
      CodedNothing(c, true, true);
    } else if A1(c, 0, true) == c.columns && Pixel(c.reference, 0) {
      WhiteStart(c);
      WhiteRow(c);
      if ComesBack(c) {
        StartGood(c);
      }
    } else if ComesBack(c) {
      StartGood(c);
      StartFinds(c);
      if Pixel(c.reference, 0) && (NextMode(c, 0, true, true).Pass? || NextMode(c, 0, true, true).Vertical?) {
        StartAhead(c);
        assert false;
      } else {
        StartForced(c);
      }
    }
  }

  lemma StartFinds(c: Pair)
    ensures Finds(c.reference, c.columns, 0, true, true) <==> !Pixel(c.reference, 0)
  {
  }

  lemma WhiteRow(c: Pair)
    requires A1(c, 0, true) == c.columns
    ensures forall s :: Paints(s, c, c.columns) ==> Paints(s, c, 0)
  {
    hide InSpans;
    Colours(c, 0, true);
    forall s | Paints(s, c, c.columns) ensures Paints(s, c, 0) {
      PaintsLess(s, c, 0, c.columns);
    }
  }
}
