/** Rows of the CCITT decoder (src/filters/ccitt.rs): painting runs, finding the changing elements of a reference row,
    and what a two-dimensional row loop makes of a list of modes. */
module CcittRows {
  import opened Bits

  /** Pixel `p` of a packed row; black is a set bit. */
  predicate Pixel(row: seq<byte>, p: nat) {
    p / 8 < |row| && Bit(row[p / 8], 7 - p % 8)
  }

  // ---------------------------------------------------------------- painting

  function PixelSet(row: seq<byte>, i: nat): (r: seq<byte>)
    ensures |r| == |row|
  {
    if i / 8 < |row| then row[i / 8 := SetBit(row[i / 8], 7 - i % 8)] else row
  }

  lemma PixelSetSets(row: seq<byte>, i: nat, p: nat)
    ensures Pixel(PixelSet(row, i), p) == (Pixel(row, p) || (p == i && p / 8 < |row|))
  {
    hide Bit, SetBit;
    if i / 8 < |row| && p / 8 == i / 8 {
      SetBitSets(row[i / 8], 7 - i % 8, 7 - p % 8);
      assert p == 8 * (p / 8) + p % 8 && i == 8 * (i / 8) + i % 8;
    }
  }

  /** `after` is `before` with the pixels from `start` up to `end` made black. */
  ghost predicate Blackened(before: seq<byte>, after: seq<byte>, start: nat, end: nat) {
    |after| == |before| &&
    forall p: nat :: Pixel(after, p) == (Pixel(before, p) || (start <= p < end && p / 8 < |before|))
  }

  lemma BlackenedNext(before: seq<byte>, row: seq<byte>, start: nat, i: nat)
    requires Blackened(before, row, start, i) && start <= i
    ensures Blackened(before, PixelSet(row, i), start, i + 1)
  {
    hide Pixel, PixelSet;
    var next := PixelSet(row, i);
    forall p: nat
      ensures Pixel(next, p) == (Pixel(before, p) || (start <= p < i + 1 && p / 8 < |before|))
    {
      PixelSetSets(row, i, p);
    }
  }

  /** `set_bits`: exactly the pixels of the interval that the row has become black. */
  method SetBits(row: array<byte>, start: nat, len: nat)
    modifies row
    ensures Blackened(old(row[..]), row[..], start, start + len)
  {
    hide Pixel, SetBit, Blackened;
    ghost var before := row[..];
    BlackenedNone(before, start);
    for i := start to start + len
      invariant Blackened(before, row[..], start, i)
    {
      BlackenedNext(before, row[..], start, i);
      ghost var next := PixelSet(row[..], i);
      if i / 8 < row.Length {
        row[i / 8] := SetBit(row[i / 8], 7 - i % 8);
      }
      assert row[..] == next;
    }
  }

  lemma BlackenedNone(row: seq<byte>, start: nat)
    ensures Blackened(row, row, start, start)
  {
  }

  // ---------------------------------------------------------------- changing elements

  /** A colour boundary inside the row. */
  predicate ChangeAt(row: seq<byte>, p: nat) {
    p > 0 && Pixel(row, p) != Pixel(row, p - 1)
  }

  /** The boundaries below `n`, in order. */
  function Changes(row: seq<byte>, n: nat): seq<nat> {
    if n == 0 then []
    else Changes(row, n - 1) + if ChangeAt(row, n - 1) then [n - 1] else []
  }

  /** Pixels that both the reference row and the column count have. */
  function Visible(reference: seq<byte>, columns: nat): nat {
    Min(columns, 8 * |reference|)
  }

  /** `collect_changes` as a function: the interior boundaries, then the end of the row. */
  function CollectedChanges(reference: seq<byte>, columns: nat): seq<nat> {
    Changes(reference, Visible(reference, columns)) + [columns]
  }

  /** `collect_changes`. */
  method CollectChanges(reference: seq<byte>, columns: nat) returns (changes: seq<nat>)
    ensures changes == CollectedChanges(reference, columns)
  {
    hide Bit;
    changes := [];
    var last := false;
    var pos: nat := 0;
    for i := 0 to |reference|
      invariant pos == Min(columns, 8 * i) && changes == Changes(reference, pos)
      invariant pos > 0 ==> last == Pixel(reference, pos - 1)
    {
      var octet := reference[i];
      for bit := 8 downto 0
        invariant pos == Min(columns, 8 * i + 8 - bit) && changes == Changes(reference, pos)
        invariant pos > 0 ==> last == Pixel(reference, pos - 1)
      {
        if pos >= columns {
          break;
        }
        assert pos / 8 == i && pos % 8 == 7 - bit;
        var value := Bit(octet, bit);
        if pos == 0 {
          last := value;
        } else if value != last {
          changes := changes + [pos];
          last := value;
        }
        pos := pos + 1;
      }
    }
    changes := changes + [columns];
  }

  /** The interior changes are exactly the colour boundaries, strictly increasing and below `n`. */
  lemma {:induction false} ChangesExactly(row: seq<byte>, n: nat)
    ensures forall i, j :: 0 <= i < j < |Changes(row, n)| ==> Changes(row, n)[i] < Changes(row, n)[j]
    ensures forall p :: p in Changes(row, n) <==> 0 < p < n && ChangeAt(row, p)
  {
    hide ChangeAt;
    if n > 0 {
      var front, all := Changes(row, n - 1), Changes(row, n);
      ChangesExactly(row, n - 1);
      NoChangeAtStart(row);
      assert all == front + if ChangeAt(row, n - 1) then [n - 1] else [];
      assert forall i :: 0 <= i < |front| ==> front[i] in front;
    }
  }

  lemma NoChangeAtStart(row: seq<byte>)
    ensures !ChangeAt(row, 0)
  {
  }

  ghost predicate Increasing(s: seq<nat>) {
    forall i, j :: 0 <= i < j < |s| ==> s[i] < s[j]
  }

  lemma VisibleBound(reference: seq<byte>, columns: nat)
    ensures Visible(reference, columns) <= columns
  {
  }

  /** `collect_changes` returns exactly the interior boundaries and `columns`, strictly increasing, `columns` last. */
  lemma CollectedExactly(reference: seq<byte>, columns: nat)
    ensures var c := CollectedChanges(reference, columns);
      && c != [] && Increasing(c) && c[|c| - 1] == columns
      && forall p :: p in c <==> p == columns || (0 < p < Visible(reference, columns) && ChangeAt(reference, p))
  {
    hide Changes, ChangeAt, Visible;
    var n := Visible(reference, columns);
    assert n <= columns by { VisibleBound(reference, columns); }
    var interior := Changes(reference, n);
    ChangesExactly(reference, n);
    assert forall i :: 0 <= i < |interior| ==> interior[i] in interior;
  }

  /** First pixel and boundaries determine a row. */
  lemma {:induction false} ChangesDetermineRow(a: seq<byte>, b: seq<byte>, n: nat, p: nat)
    requires Changes(a, n) == Changes(b, n) && p < n && Pixel(a, 0) == Pixel(b, 0)
    ensures Pixel(a, p) == Pixel(b, p)
    decreases p
  {
    hide Pixel, Changes;
    if p > 0 {
      ChangesDetermineRow(a, b, n, p - 1);
      ChangesExactly(a, n);
      ChangesExactly(b, n);
      assert p in Changes(a, n) <==> p in Changes(b, n);
    }
  }

  /** `next_b1_b2` as a function. */
  function NextIndex(changes: seq<nat>, a0: nat, i: nat): (k: nat)
    requires i <= |changes|
    ensures i <= k <= |changes| && (k < |changes| ==> changes[k] > a0)
    ensures forall m :: i <= m < k ==> changes[m] <= a0
    decreases |changes| - i
  {
    if i < |changes| && changes[i] <= a0 then NextIndex(changes, a0, i + 1) else i
  }

  datatype B1B2 = B1B2(b1: nat, b2: nat)

  function NextChanges(changes: seq<nat>, a0: nat): B1B2 {
    var i := NextIndex(changes, a0, 0);
    var b1 := if i < |changes| then changes[i] else a0;
    B1B2(b1, if i + 1 < |changes| then changes[i + 1] else b1)
  }

  /** `next_b1_b2`. */
  method NextB1B2(changes: seq<nat>, a0: nat) returns (b1: nat, b2: nat)
    ensures B1B2(b1, b2) == NextChanges(changes, a0)
  {
    var i := 0;
    while i < |changes| && changes[i] <= a0
      invariant 0 <= i <= |changes| && NextIndex(changes, a0, i) == NextIndex(changes, a0, 0)
    {
      i := i + 1;
    }
    b1 := if i < |changes| then changes[i] else a0;
    b2 := if i + 1 < |changes| then changes[i + 1] else b1;
  }

  /** Before the end of the row, b1 is the least change beyond a0 and b2 the next one or b1 itself,
      so Pass mode always advances and never passes the end. */
  lemma NextExactly(reference: seq<byte>, columns: nat, a0: nat)
    requires a0 < columns
    ensures var c := CollectedChanges(reference, columns);
      var n := NextChanges(c, a0);
      && n.b1 in c && n.b2 in c && a0 < n.b1 <= n.b2 <= columns
      && (forall p :: p in c && p > a0 ==> p >= n.b1)
      && (forall p :: p in c && p > n.b1 ==> p >= n.b2)
      && (n.b2 == n.b1 <==> n.b1 == columns)
  {
    hide CollectedChanges;
    CollectedExactly(reference, columns);
    var c := CollectedChanges(reference, columns);
    var i := NextIndex(c, a0, 0);
    assert c[|c| - 1] > a0;
    assert i < |c|;
    forall p | p in c && p > a0 ensures p >= c[i] {
      var k :| 0 <= k < |c| && c[k] == p;
    }
    if i + 1 < |c| {
      forall p | p in c && p > c[i] ensures p >= c[i + 1] {
        var k :| 0 <= k < |c| && c[k] == p;
      }
    }
  }

  // ---------------------------------------------------------------- two-dimensional rows

  datatype Mode = Pass | Horizontal(run1: nat, run2: nat) | Vertical(offset: int) | Extension | EndOfLine

  datatype Span = Span(start: nat, end: nat)

  /** Whether the row decodes, the intervals painted up to then, and the modes left for the next row. */
  datatype Spans = Spans(ok: bool, black: seq<Span>, rest: seq<Mode>)

  function Before(span: Span, rest: Spans): Spans {
    Spans(rest.ok, [span] + rest.black, rest.rest)
  }

  /** Where the two runs of a horizontal mode end, and which of them is black. */
  function HorizontalEnd(columns: nat, a0: nat, run1: nat, run2: nat): nat {
    var a1 := a0 + Min(run1, SaturatingSub(columns, a0));
    a1 + Min(run2, SaturatingSub(columns, a1))
  }

  function HorizontalSpan(columns: nat, a0: nat, run1: nat, run2: nat, white: bool): Span {
    var a1 := a0 + Min(run1, SaturatingSub(columns, a0));
    if white then Span(a1, HorizontalEnd(columns, a0, run1, run2)) else Span(a0, a1)
  }

  /** The row loop from `a0` on, over decoded modes; running out of modes is an error. */
  function RowSpans(modes: seq<Mode>, changes: seq<nat>, columns: nat, a0: nat, white: bool): Spans
    decreases |modes|
  {
    if a0 >= columns then Spans(true, [], modes)
    else if modes == [] then Spans(false, [], [])
    else
      var n := NextChanges(changes, a0);
      match modes[0]
      case Pass => RowSpans(modes[1..], changes, columns, n.b2, white)
      case Horizontal(run1, run2) =>
        var end := HorizontalEnd(columns, a0, run1, run2);
        Before(HorizontalSpan(columns, a0, run1, run2, white), RowSpans(modes[1..], changes, columns, end, white))
      case Vertical(offset) =>
        if n.b1 + offset < 0 then Spans(false, [], modes[1..])
        else
          var a1 := Min(n.b1 + offset, columns);
          var rest := RowSpans(modes[1..], changes, columns, a1, !white);
          if white then rest else Before(Span(a0, a0 + SaturatingSub(a1, a0)), rest)
      case Extension => Spans(false, [], modes[1..])
      case EndOfLine => Spans(true, [], modes[1..])
  }

  predicate InSpans(spans: seq<Span>, p: nat) {
    exists i :: 0 <= i < |spans| && spans[i].start <= p < spans[i].end
  }

  /** `after` is `before` with the intervals painted. */
  ghost predicate SpansPainted(before: seq<byte>, after: seq<byte>, spans: seq<Span>) {
    |after| == |before| &&
    forall p: nat :: Pixel(after, p) == (Pixel(before, p) || (p / 8 < |before| && InSpans(spans, p)))
  }

  lemma SpanAdded(before: seq<byte>, row: seq<byte>, next: seq<byte>, spans: seq<Span>, span: Span)
    requires SpansPainted(before, row, spans) && Blackened(row, next, span.start, span.end)
    ensures SpansPainted(before, next, spans + [span])
  {
    hide Pixel, InSpans;
    forall p: nat ensures InSpans(spans + [span], p) == (InSpans(spans, p) || span.start <= p < span.end) {
      InSpansSnoc(spans, span, p);
    }
  }

  lemma InSpansSnoc(spans: seq<Span>, span: Span, p: nat)
    ensures InSpans(spans + [span], p) == (InSpans(spans, p) || span.start <= p < span.end)
  {
    var all := spans + [span];
    assert all[|spans|] == span;
    if i :| 0 <= i < |spans| && spans[i].start <= p < spans[i].end {
      assert all[i] == spans[i];
    }
  }

  lemma NothingPainted(row: seq<byte>)
    ensures SpansPainted(row, row, [])
  {
  }

  /** One round of the loop, mode by mode. */
  lemma PassStep(modes: seq<Mode>, i: nat, changes: seq<nat>, columns: nat, a0: nat, white: bool)
    requires i < |modes| && a0 < columns && modes[i].Pass?
    ensures RowSpans(modes[i..], changes, columns, a0, white) ==
      RowSpans(modes[i + 1..], changes, columns, NextChanges(changes, a0).b2, white)
  {
    assert modes[i..][1..] == modes[i + 1..];
  }

  lemma HorizontalStep(modes: seq<Mode>, i: nat, changes: seq<nat>, columns: nat, a0: nat, white: bool)
    requires i < |modes| && a0 < columns && modes[i].Horizontal?
    ensures RowSpans(modes[i..], changes, columns, a0, white) ==
      Before(HorizontalSpan(columns, a0, modes[i].run1, modes[i].run2, white),
             RowSpans(modes[i + 1..], changes, columns, HorizontalEnd(columns, a0, modes[i].run1, modes[i].run2),
               white))
  {
    assert modes[i..][1..] == modes[i + 1..];
  }

  lemma VerticalStep(modes: seq<Mode>, i: nat, changes: seq<nat>, columns: nat, a0: nat, white: bool)
    requires i < |modes| && a0 < columns && modes[i].Vertical?
    ensures var a1 := NextChanges(changes, a0).b1 + modes[i].offset;
      a1 < 0 ==> RowSpans(modes[i..], changes, columns, a0, white) == Spans(false, [], modes[i + 1..])
    ensures var a1 := NextChanges(changes, a0).b1 + modes[i].offset;
      a1 >= 0 && white ==>
        RowSpans(modes[i..], changes, columns, a0, white) ==
          RowSpans(modes[i + 1..], changes, columns, Min(a1, columns), !white)
    ensures var a1 := NextChanges(changes, a0).b1 + modes[i].offset;
      a1 >= 0 && !white ==>
        var rest := RowSpans(modes[i + 1..], changes, columns, Min(a1, columns), !white);
        RowSpans(modes[i..], changes, columns, a0, white) ==
          Before(Span(a0, a0 + SaturatingSub(Min(a1, columns), a0)), rest)
  {
    assert modes[i..][1..] == modes[i + 1..];
  }

  lemma OtherStep(modes: seq<Mode>, i: nat, changes: seq<nat>, columns: nat, a0: nat, white: bool)
    requires i < |modes| && a0 < columns && (modes[i].Extension? || modes[i].EndOfLine?)
    ensures RowSpans(modes[i..], changes, columns, a0, white) == Spans(modes[i].EndOfLine?, [], modes[i + 1..])
  {
    assert modes[i..][1..] == modes[i + 1..];
  }

  lemma RowSpansStop(modes: seq<Mode>, changes: seq<nat>, columns: nat, a0: nat, white: bool)
    ensures a0 >= columns ==> RowSpans(modes, changes, columns, a0, white) == Spans(true, [], modes)
    ensures a0 < columns && modes == [] ==> RowSpans(modes, changes, columns, a0, white) == Spans(false, [], [])
  {
  }

  /** The arm of the horizontal mode. */
  method PaintHorizontal(row: array<byte>, columns: nat, a0: nat, isWhite: bool, r1: nat, r2: nat) returns (end: nat)
    requires a0 <= columns
    modifies row
    ensures end == HorizontalEnd(columns, a0, r1, r2)
    ensures var span := HorizontalSpan(columns, a0, r1, r2, isWhite);
      Blackened(old(row[..]), row[..], span.start, span.end)
  {
    hide Blackened;
    end := a0;
    var run1 := Min(r1, SaturatingSub(columns, end));
    if !isWhite {
      SetBits(row, end, run1);
    }
    end := end + run1;
    var run2 := Min(r2, SaturatingSub(columns, end));
    if isWhite {
      SetBits(row, end, run2);
    }
    end := end + run2;
  }

  lemma InSpansCons(span: Span, spans: seq<Span>, p: nat)
    ensures InSpans([span] + spans, p) == (span.start <= p < span.end || InSpans(spans, p))
  {
    var all := [span] + spans;
    assert all[0] == span;
    if i :| 0 <= i < |spans| && spans[i].start <= p < spans[i].end {
      assert all[i + 1] == spans[i];
    }
  }

  /** No mode sequence paints past the end of the row. */
  lemma {:induction false} SpansInside(modes: seq<Mode>, changes: seq<nat>, columns: nat, a0: nat, white: bool, p: nat)
    requires InSpans(RowSpans(modes, changes, columns, a0, white).black, p)
    ensures p < columns
    decreases |modes|
  {
    hide RowSpans, InSpans, NextChanges;
    assert !InSpans([], p) by { NoSpans(p); }
    RowSpansStop(modes, changes, columns, a0, white);
    assert modes[0..] == modes;
    var n := NextChanges(changes, a0);
    var mode, more := modes[0], modes[1..];
    if mode.Pass? {
      PassStep(modes, 0, changes, columns, a0, white);
      SpansInside(more, changes, columns, n.b2, white, p);
    } else if mode.Horizontal? {
      HorizontalStep(modes, 0, changes, columns, a0, white);
      var span := HorizontalSpan(columns, a0, mode.run1, mode.run2, white);
      var end := HorizontalEnd(columns, a0, mode.run1, mode.run2);
      InSpansCons(span, RowSpans(more, changes, columns, end, white).black, p);
      if !(span.start <= p < span.end) {
        SpansInside(more, changes, columns, end, white, p);
      }
    } else if mode.Vertical? {
      VerticalStep(modes, 0, changes, columns, a0, white);
      if n.b1 + mode.offset >= 0 {
        var a1 := Min(n.b1 + mode.offset, columns);
        var span := Span(a0, a0 + SaturatingSub(a1, a0));
        InSpansCons(span, RowSpans(more, changes, columns, a1, !white).black, p);
        if white || !(span.start <= p < span.end) {
          SpansInside(more, changes, columns, a1, !white, p);
        }
      }
    } else {
      OtherStep(modes, 0, changes, columns, a0, white);
    }
  }

  lemma NoSpans(p: nat)
    ensures !InSpans([], p)
  {
  }

  // ---------------------------------------------------------------- copying the reference row

  /** Between two changes the colour stays. */
  lemma {:induction false} ColourStays(row: seq<byte>, n: nat, from: nat, p: nat)
    requires from <= p < n && forall q :: from < q <= p ==> q !in Changes(row, n)
    ensures Pixel(row, p) == Pixel(row, from)
    decreases p
  {
    hide Pixel, Changes;
    if from < p {
      ColourStays(row, n, from, p - 1);
      ChangesExactly(row, n);
      assert p !in Changes(row, n);
    }
  }

  /** The loop stands at the start of the row or at one of its changes. */
  predicate StandsAt(c: seq<nat>, k: nat, a0: nat) {
    k <= |c| && a0 == if k == 0 then 0 else c[k - 1]
  }

  lemma NextAfter(reference: seq<byte>, columns: nat, k: nat, a0: nat)
    requires columns > 0 && StandsAt(CollectedChanges(reference, columns), k, a0) && a0 < columns
    ensures var c := CollectedChanges(reference, columns);
      && k < |c| && NextChanges(c, a0).b1 == c[k] && a0 < c[k] <= columns
      && forall q :: a0 < q < c[k] ==> q !in Changes(reference, Visible(reference, columns))
  {
    hide Changes, ChangeAt, Visible;
    var c := CollectedChanges(reference, columns);
    CollectedExactly(reference, columns);
    assert c[|c| - 1] == columns;
    assert k < |c|;
    var first := NextIndex(c, a0, 0);
    assert c[k] > a0 by { if k == 0 { assert c[0] in c; } }
    assert first == k;
    assert c[k] <= columns by { assert c[k] in c; VisibleBound(reference, columns); }
    forall q | a0 < q < c[k] ensures q !in Changes(reference, Visible(reference, columns)) {
      assert forall m :: 0 <= m < |c| ==> c[m] <= a0 || c[m] >= c[k];
      assert q !in c;
    }
  }

  /** The row loop standing at the k-th change with only V0 modes to come. */
  lemma {:induction false} CopyFrom(reference: seq<byte>, columns: nat, k: nat, a0: nat, white: bool, p: nat)
    requires 0 < columns <= 8 * |reference| && p < columns
    requires StandsAt(CollectedChanges(reference, columns), k, a0)
    requires a0 < columns ==> white == (Pixel(reference, a0) == Pixel(reference, 0))
    ensures var c := CollectedChanges(reference, columns);
      var spans := RowSpans(Repeat(Vertical(0), |c| - k), c, columns, a0, white);
      spans.ok && InSpans(spans.black, p) == (p >= a0 && Pixel(reference, p) != Pixel(reference, 0))
    decreases |CollectedChanges(reference, columns)| - k
  {
    hide RowSpans, InSpans, NextChanges, Changes, Pixel, CollectedChanges;
    var c := CollectedChanges(reference, columns);
    var modes := Repeat(Vertical(0), |c| - k);
    RowSpansStop(modes, c, columns, a0, white);
    NoSpans(p);
    if a0 < columns {
      NextAfter(reference, columns, k, a0);
      var a1 := c[k];
      assert modes[0..] == modes && modes[1..] == Repeat(Vertical(0), |c| - k - 1);
      VerticalStep(modes, 0, c, columns, a0, white);
      assert Visible(reference, columns) == columns;
      ColourStays(reference, columns, a0, a1 - 1);
      if p < a1 && a0 <= p {
        ColourStays(reference, columns, a0, p);
      }
      if a1 < columns {
        CollectedExactly(reference, columns);
        assert a1 in c;
        assert ChangeAt(reference, a1);
      }
      CopyFrom(reference, columns, k + 1, a1, !white, p);
      InSpansCons(Span(a0, a1), RowSpans(modes[1..], c, columns, a1, !white).black, p);
    }
  }

  /** A row coded with V0 modes only comes out as a copy of the reference row exactly when the reference row
      starts white; otherwise it comes out with its colours exchanged. */
  lemma CopyExactly(reference: seq<byte>, columns: nat)
    requires 0 < columns <= 8 * |reference|
    ensures var c := CollectedChanges(reference, columns);
      var spans := RowSpans(Repeat(Vertical(0), |c|), c, columns, 0, true);
      && spans.ok
      && (forall p :: 0 <= p < columns ==> InSpans(spans.black, p) == (Pixel(reference, p) != Pixel(reference, 0)))
      && ((forall p :: 0 <= p < columns ==> InSpans(spans.black, p) == Pixel(reference, p)) <==> !Pixel(reference, 0))
  {
    hide RowSpans, InSpans, Pixel, CollectedChanges;
    var c := CollectedChanges(reference, columns);
    var spans := RowSpans(Repeat(Vertical(0), |c|), c, columns, 0, true);
    forall p | 0 <= p < columns
      ensures spans.ok && InSpans(spans.black, p) == (Pixel(reference, p) != Pixel(reference, 0))
    {
      CopyFrom(reference, columns, 0, 0, true, p);
    }
    CopyFrom(reference, columns, 0, 0, true, 0);
    assert InSpans(spans.black, 0) == false;
  }
}
