/** The JBIG2 segment walk `validate_segment_sequence` with its readers and dimension checks
    (src/filters/jbig2.rs), against the segment layout of section 7.2 of ITU-T T.88. */
module Jbig2Segments {
  import opened Bits

  const MAX_SEGMENTS: nat := 65_536
  const MAX_REFERENCES: nat := 4_096
  const UNKNOWN: nat := 0xFFFF_FFFF
  const PAGE_INFORMATION: nat := 48
  const END_OF_FILE: nat := 51

  type Outcome<T> = Result<T, FilterError>

  datatype Taken = Taken(front: seq<byte>, rest: seq<byte>)

  /** Every reader of the walk takes some bytes off the front of what is left. */
  function Take(s: seq<byte>, n: nat): (r: Outcome<Taken>)
    ensures r.Ok? ==> |r.value.front| == n
    ensures r.Err? ==> r.error == Jbig2Error
  {
    if n <= |s| then Ok(Taken(s[..n], s[n..])) else Err(Jbig2Error)
  }

  lemma TakeExactly(s: seq<byte>, front: seq<byte>, rest: seq<byte>)
    ensures Take(s, |front|) == Ok(Taken(front, rest)) <==> s == front + rest
  {
  }

  // ---------------------------------------------------------------- segments and their bytes

  /** The referred-to segments: the retention flags and the reference bytes. */
  datatype References =
    | Short(count: nat, retention: nat, ids: seq<byte>)
    | Long(count: nat, retentionBytes: seq<byte>, ids: seq<byte>)

  datatype Segment = Segment(number: Word, flags: byte, references: References, page: seq<byte>, payload: seq<byte>)

  function Type(flags: byte): nat {
    flags % 64
  }

  function ReferenceWidth(number: nat): nat {
    if number <= 256 then 1 else if number <= 65_536 then 2 else 4
  }

  function PageWidth(flags: byte): nat {
    if flags / 64 % 2 == 1 then 4 else 1
  }

  predicate WellFormedReferences(r: References, number: nat) {
    && |r.ids| == r.count * ReferenceWidth(number)
    && match r
       case Short(count, retention, _) => count <= 4 && retention < 32
       case Long(count, bytes, _) => count <= MAX_REFERENCES && |bytes| == CeilDiv8(count + 1)
  }

  predicate WellFormed(g: Segment) {
    WellFormedReferences(g.references, g.number) && |g.page| == PageWidth(g.flags) && |g.payload| < UNKNOWN
  }

  /** The count field: three bits of count and five of retention, or the marker 7 and a 29-bit count. */
  function WrittenReferences(r: References, number: nat, rest: seq<byte>): seq<byte>
    requires WellFormedReferences(r, number)
  {
    match r
    case Short(count, retention, ids) => [count * 32 + retention] + (ids + rest)
    case Long(count, bytes, ids) => [7 * 32] + ([0, count / 256, count % 256] + (bytes + (ids + rest)))
  }

  /** The bytes of a segment followed by `rest`. */
  function Written(g: Segment, rest: seq<byte>): seq<byte>
    requires WellFormed(g)
  {
    BeBytes(g.number) + ([g.flags] +
      WrittenReferences(g.references, g.number, g.page + (BeBytes(|g.payload|) + (g.payload + rest))))
  }

  // ---------------------------------------------------------------- parsing

  datatype Parsed<T> = Parsed(item: T, rest: seq<byte>)

  function ParseShort(c: byte, s: seq<byte>, number: nat): Outcome<Parsed<References>> {
    var ids :- Take(s, c as int / 32 * ReferenceWidth(number));
    Ok(Parsed(Short(c as int / 32, c as int % 32, ids.front), ids.rest))
  }

  function ParseLong(c: byte, s: seq<byte>, number: nat): Outcome<Parsed<References>> {
    var b :- Take(s, 3);
    var count := BeU32([c % 32] + b.front, 0);
    if count > MAX_REFERENCES then Err(Jbig2Error)
    else
      var retention :- Take(b.rest, CeilDiv8(count + 1));
      var ids :- Take(retention.rest, count * ReferenceWidth(number));
      Ok(Parsed(Long(count, retention.front, ids.front), ids.rest))
  }

  function ParseReferences(s: seq<byte>, number: nat): Outcome<Parsed<References>> {
    var c :- Take(s, 1);
    var shortCount: nat := c.front[0] as int / 32;
    if shortCount == 5 || shortCount == 6 then Err(Jbig2Error)
    else if shortCount == 7 then ParseLong(c.front[0], c.rest, number)
    else ParseShort(c.front[0], c.rest, number)
  }

  function ParseSegment(s: seq<byte>): Outcome<Parsed<Segment>> {
    var number :- Take(s, 4);
    var flags :- Take(number.rest, 1);
    var n: Word := BeU32(number.front, 0);
    var references :- ParseReferences(flags.rest, n);
    var page :- Take(references.rest, PageWidth(flags.front[0]));
    var length :- Take(page.rest, 4);
    if BeU32(length.front, 0) == UNKNOWN then Err(Jbig2Error)
    else
      var payload :- Take(length.rest, BeU32(length.front, 0));
      Ok(Parsed(Segment(n, flags.front[0], references.item, page.front, payload.front), payload.rest))
  }

  lemma TakeSplits(s: seq<byte>, n: nat)
    requires Take(s, n).Ok?
    ensures s == Take(s, n).value.front + Take(s, n).value.rest && |Take(s, n).value.front| == n
  {
  }

  lemma ShortSound(c: byte, s: seq<byte>, number: nat)
    requires c < 160 && ParseShort(c, s, number).Ok?
    ensures var p := ParseShort(c, s, number).value;
      WellFormedReferences(p.item, number) && WrittenReferences(p.item, number, p.rest) == [c] + s
  {
    hide Take, ReferenceWidth;
    TakeSplits(s, c as int / 32 * ReferenceWidth(number));
    assert c == c as int / 32 * 32 + c as int % 32;
  }

  lemma ShortComplete(r: References, number: nat, rest: seq<byte>)
    requires r.Short? && WellFormedReferences(r, number)
    ensures ParseShort(r.count * 32 + r.retention, r.ids + rest, number) == Ok(Parsed(r, rest))
  {
    hide Take, ReferenceWidth;
    var c := r.count * 32 + r.retention;
    assert c / 32 == r.count && c % 32 == r.retention;
    TakeExactly(r.ids + rest, r.ids, rest);
  }

  lemma LongSound(c: byte, s: seq<byte>, number: nat)
    requires c / 32 == 7 && ParseLong(c, s, number).Ok?
    ensures var p := ParseLong(c, s, number).value;
      WellFormedReferences(p.item, number) && WrittenReferences(p.item, number, p.rest) == [c] + s
  {
    hide Take, ReferenceWidth, BeU32;
    var b := Take(s, 3).value;
    TakeSplits(s, 3);
    var count := BeU32([c % 32] + b.front, 0);
    LongCount(c, b.front);
    TakeSplits(b.rest, CeilDiv8(count + 1));
    var retention := Take(b.rest, CeilDiv8(count + 1)).value;
    TakeSplits(retention.rest, count * ReferenceWidth(number));
  }

  lemma LongComplete(r: References, number: nat, rest: seq<byte>)
    requires r.Long? && WellFormedReferences(r, number)
    ensures ParseLong(7 * 32, [0, r.count / 256, r.count % 256] + (r.retentionBytes + (r.ids + rest)), number) ==
      Ok(Parsed(r, rest))
  {
    hide Take, ReferenceWidth, CeilDiv8;
    var b: seq<byte> := [0, r.count / 256, r.count % 256];
    TakeExactly(b + (r.retentionBytes + (r.ids + rest)), b, r.retentionBytes + (r.ids + rest));
    TakeExactly(r.retentionBytes + (r.ids + rest), r.retentionBytes, r.ids + rest);
    TakeExactly(r.ids + rest, r.ids, rest);
    assert [7 * 32 % 32] + b == [0, 0, r.count / 256, r.count % 256];
    assert BeU32([7 * 32 % 32] + b, 0) == r.count;
  }

  /** Parsing the count field and references inverts writing them. */
  lemma ReferencesExactly(s: seq<byte>, number: nat, r: References, rest: seq<byte>)
    ensures ParseReferences(s, number) == Ok(Parsed(r, rest)) <==>
      WellFormedReferences(r, number) && s == WrittenReferences(r, number, rest)
  {
    hide ParseShort, ParseLong, ReferenceWidth, CeilDiv8, Take;
    if ParseReferences(s, number) == Ok(Parsed(r, rest)) {
      TakeSplits(s, 1);
      var c := Take(s, 1).value;
      assert c.front == [c.front[0]];
      if c.front[0] / 32 == 7 {
        LongSound(c.front[0], c.rest, number);
      } else {
        ShortSound(c.front[0], c.rest, number);
      }
    }
    if WellFormedReferences(r, number) && s == WrittenReferences(r, number, rest) {
      if r.Short? {
        ShortComplete(r, number, rest);
        TakeExactly(s, [r.count * 32 + r.retention], r.ids + rest);
      } else {
        LongComplete(r, number, rest);
        TakeExactly(s, [7 * 32], [0, r.count / 256, r.count % 256] + (r.retentionBytes + (r.ids + rest)));
      }
    }
  }

  lemma LongCount(c: byte, b: seq<byte>)
    requires c / 32 == 7 && |b| == 3 && BeU32([c % 32] + b, 0) <= MAX_REFERENCES
    ensures var count := BeU32([c % 32] + b, 0);
      c == 7 * 32 && b == [0, count / 256, count % 256]
  {
    var all := [c % 32] + b;
    assert all == [c % 32, b[0], b[1], b[2]];
    assert BeU32(all, 0) == ((all[0] as int * 256 + all[1] as int) * 256 + all[2] as int) * 256 + all[3] as int;
  }

  lemma SegmentSound(s: seq<byte>)
    requires ParseSegment(s).Ok?
    ensures var p := ParseSegment(s).value; WellFormed(p.item) && s == Written(p.item, p.rest)
  {
    hide Take, ParseReferences, WrittenReferences, WellFormedReferences, BeU32, BeBytes, PageWidth;
    var g, rest := ParseSegment(s).value.item, ParseSegment(s).value.rest;
    TakeSplits(s, 4);
    var number := Take(s, 4).value;
    TakeSplits(number.rest, 1);
    var flags := Take(number.rest, 1).value;
    assert flags.front == [g.flags];
    var references := ParseReferences(flags.rest, g.number).value;
    ReferencesExactly(flags.rest, g.number, references.item, references.rest);
    TakeSplits(references.rest, PageWidth(g.flags));
    var page := Take(references.rest, PageWidth(g.flags)).value;
    TakeSplits(page.rest, 4);
    var length := Take(page.rest, 4).value;
    TakeSplits(length.rest, BeU32(length.front, 0));
    WholeWord(number.front);
    WholeWord(length.front);
  }

  lemma WholeWord(front: seq<byte>)
    requires |front| == 4
    ensures BeBytes(BeU32(front, 0)) == front
  {
    BeBytesOfWord(front, 0);
    assert front[0..4] == front;
  }

  lemma SegmentComplete(g: Segment, rest: seq<byte>)
    requires WellFormed(g)
    ensures ParseSegment(Written(g, rest)) == Ok(Parsed(g, rest))
  {
    hide Take, ParseReferences, WrittenReferences, WellFormedReferences, BeU32, BeBytes, PageWidth;
    var afterLength := g.payload + rest;
    var afterPage := BeBytes(|g.payload|) + afterLength;
    var afterReferences := g.page + afterPage;
    var references := WrittenReferences(g.references, g.number, afterReferences);
    TakeExactly(Written(g, rest), BeBytes(g.number), [g.flags] + references);
    TakeExactly([g.flags] + references, [g.flags], references);
    ReferencesExactly(references, g.number, g.references, afterReferences);
    TakeExactly(afterReferences, g.page, afterPage);
    TakeExactly(afterPage, BeBytes(|g.payload|), afterLength);
    TakeExactly(afterLength, g.payload, rest);
    BeRoundTrip(g.number);
    BeRoundTrip(|g.payload|);
  }

  /** Parsing a segment inverts writing it. */
  lemma SegmentExactly(s: seq<byte>, g: Segment, rest: seq<byte>)
    ensures ParseSegment(s) == Ok(Parsed(g, rest)) <==> WellFormed(g) && s == Written(g, rest)
  {
    hide ParseSegment, WellFormed, Written;
    if ParseSegment(s) == Ok(Parsed(g, rest)) {
      SegmentSound(s);
    }
    if WellFormed(g) && s == Written(g, rest) {
      SegmentComplete(g, rest);
    }
  }

  /** A segment takes at least eleven bytes, so the cursor strictly grows. */
  lemma SegmentProgress(g: Segment, rest: seq<byte>)
    requires WellFormed(g)
    ensures |Written(g, rest)| >= |rest| + 11
  {
  }

  // ---------------------------------------------------------------- the walk

  predicate IsRegion(t: nat) {
    t in {4, 6, 7, 20, 22, 23, 36, 38, 39, 40, 42, 43}
  }

  /** `validate_bitmap_dimensions` and `validate_region_dimensions`: both read width and height from the
      first eight bytes, refuse an unknown height, and bound the packed bitmap. */
  function CheckDimensions(payload: seq<byte>, limit: nat): Outcome<()> {
    if |payload| < 8 then Err(Jbig2Error)
    else if BeU32(payload, 4) == UNKNOWN then Err(Jbig2Error)
    else if CeilDiv8(BeU32(payload, 0)) * BeU32(payload, 4) > limit then Err(DecompressionError)
    else Ok(())
  }

  function CheckSegment(flags: byte, payload: seq<byte>, limit: nat): Outcome<()> {
    if Type(flags) == PAGE_INFORMATION || IsRegion(Type(flags)) then CheckDimensions(payload, limit) else Ok(())
  }

  /** The walk over what is left after `count` segments, `found` saying whether page information was among them. */
  function Walk(s: seq<byte>, count: nat, found: bool, limit: nat, requirePage: bool): Outcome<()>
    decreases |s|
  {
    if s == [] then (if requirePage && !found then Err(Jbig2Error) else Ok(()))
    else if count + 1 > MAX_SEGMENTS then Err(Jbig2Error)
    else
      var p :- ParseSegment(s);
      Shrinks(s);
      var _ :- CheckSegment(p.item.flags, p.item.payload, limit);
      var nowFound := found || Type(p.item.flags) == PAGE_INFORMATION;
      if Type(p.item.flags) == END_OF_FILE then (if requirePage && !nowFound then Err(Jbig2Error) else Ok(()))
      else Walk(p.rest, count + 1, nowFound, limit, requirePage)
  }

  lemma Shrinks(s: seq<byte>)
    requires ParseSegment(s).Ok?
    ensures |ParseSegment(s).value.rest| + 11 <= |s|
  {
    hide ParseSegment, Written, WellFormed;
    SegmentSound(s);
    SegmentProgress(ParseSegment(s).value.item, ParseSegment(s).value.rest);
  }

  /** What one round of the loop reads: the header fields it uses, and where the segment ends. */
  datatype Header = Header(flags: byte, payload: seq<byte>, next: nat)

  /** `read_byte` */
  method ReadByte(data: seq<byte>, pos: nat) returns (r: Outcome<byte>, next: nat)
    requires pos <= |data|
    ensures pos <= next <= |data|
    ensures r.Ok? <==> Take(data[pos..], 1).Ok?
    ensures r.Ok? ==> Take(data[pos..], 1) == Ok(Taken([r.value], data[next..]))
    ensures r.Ok? ==> next == pos + 1 && r.value == data[pos]
    ensures r.Err? ==> r.error == Jbig2Error && next == pos
  {
    if pos >= |data| {
      return Err(Jbig2Error), pos;
    }
    assert data[pos..][..1] == [data[pos]] && data[pos..][1..] == data[pos + 1..];
    return Ok(data[pos]), pos + 1;
  }

  /** `read_u32` */
  method ReadU32(data: seq<byte>, pos: nat) returns (r: Outcome<Word>, next: nat)
    requires pos <= |data|
    ensures pos <= next <= |data|
    ensures r.Ok? <==> Take(data[pos..], 4).Ok?
    ensures r.Ok? ==> Take(data[pos..], 4).value.rest == data[next..]
    ensures r.Ok? ==> r.value == BeU32(Take(data[pos..], 4).value.front, 0)
    ensures r.Err? ==> r.error == Jbig2Error && next == pos
  {
    if pos + 4 > |data| {
      return Err(Jbig2Error), pos;
    }
    assert data[pos..][4..] == data[pos + 4..];
    return Ok(BeU32(data, pos)), pos + 4;
  }

  /** `skip_bytes` */
  method SkipBytes(data: seq<byte>, pos: nat, count: nat) returns (r: Outcome<()>, next: nat)
    requires pos <= |data|
    ensures pos <= next <= |data|
    ensures r.Ok? <==> Take(data[pos..], count).Ok?
    ensures r.Ok? ==> Take(data[pos..], count).value.rest == data[next..]
    ensures r.Err? ==> r.error == Jbig2Error && next == pos
  {
    if pos + count > |data| {
      return Err(Jbig2Error), pos;
    }
    assert data[pos..][count..] == data[pos + count..];
    return Ok(()), pos + count;
  }

  /** The part of the loop body that reads the referred-to segments. */
  method ReadReferences(data: seq<byte>, start: nat, segmentNumber: Word) returns (r: Outcome<()>, pos: nat)
    requires start <= |data|
    ensures start <= pos <= |data|
    ensures var p := ParseReferences(data[start..], segmentNumber);
      (r.Ok? <==> p.Ok?) && (r.Ok? ==> p.value.rest == data[pos..]) && (r.Err? ==> p.error == r.error)
  {
    hide Take, CeilDiv8, ReferenceWidth, BeU32;
    pos := start;
    var countAndRetention;
    countAndRetention, pos := ReadByte(data, pos);
    if countAndRetention.Err? {
      return Err(Jbig2Error), pos;
    }
    var c := countAndRetention.value;
    var shortCount := c as int / 32;
    if shortCount == 5 || shortCount == 6 {
      return Err(Jbig2Error), pos;
    }
    var referredCount := shortCount;
    ghost var afterCount := data[pos..];
    if shortCount == 7 {
      var b;
      b, pos := ReadThree(data, pos);
      if b.Err? {
        return Err(Jbig2Error), pos;
      }
      referredCount := BeU32([c % 32] + b.value, 0);
    }
    if referredCount > MAX_REFERENCES {
      return Err(Jbig2Error), pos;
    }
    if shortCount == 7 {
      var skipped;
      skipped, pos := SkipBytes(data, pos, CeilDiv8(referredCount + 1));
      if skipped.Err? {
        return Err(Jbig2Error), pos;
      }
    }
    r, pos := SkipBytes(data, pos, referredCount * ReferenceWidth(segmentNumber));
  }

  /** The three `read_byte` calls of a long count. */
  method ReadThree(data: seq<byte>, start: nat) returns (r: Outcome<seq<byte>>, pos: nat)
    requires start <= |data|
    ensures start <= pos <= |data|
    ensures r.Ok? <==> Take(data[start..], 3).Ok?
    ensures r.Ok? ==> Take(data[start..], 3) == Ok(Taken(r.value, data[pos..]))
  {
    pos := start;
    var b1, b2, b3;
    b1, pos := ReadByte(data, pos);
    if b1.Err? {
      return Err(Jbig2Error), pos;
    }
    b2, pos := ReadByte(data, pos);
    if b2.Err? {
      return Err(Jbig2Error), pos;
    }
    b3, pos := ReadByte(data, pos);
    if b3.Err? {
      return Err(Jbig2Error), pos;
    }
    assert data[start..][..3] == [b1.value, b2.value, b3.value] && data[start..][3..] == data[start + 3..];
    return Ok([b1.value, b2.value, b3.value]), pos;
  }

  /** The part of the loop body up to the end of the segment. */
  method ReadSegment(data: seq<byte>, start: nat) returns (r: Outcome<Header>)
    requires start <= |data|
    ensures var p := ParseSegment(data[start..]);
      && (r.Ok? <==> p.Ok?)
      && (r.Ok? ==> start < r.value.next <= |data| && p.value.rest == data[r.value.next..])
      && (r.Ok? ==> p.value.item.flags == r.value.flags && p.value.item.payload == r.value.payload)
      && (r.Err? ==> p.error == r.error)
  {
    hide Take, ParseReferences, BeU32, PageWidth;
    var pos := start;
    var segmentNumber, flags, references, page, dataLength;
    segmentNumber, pos := ReadU32(data, pos);
    if segmentNumber.Err? {
      return Err(Jbig2Error);
    }
    flags, pos := ReadByte(data, pos);
    if flags.Err? {
      return Err(Jbig2Error);
    }
    references, pos := ReadReferences(data, pos, segmentNumber.value);
    if references.Err? {
      return Err(references.error);
    }
    page, pos := SkipBytes(data, pos, PageWidth(flags.value));
    if page.Err? {
      return Err(Jbig2Error);
    }
    dataLength, pos := ReadU32(data, pos);
    if dataLength.Err? {
      return Err(Jbig2Error);
    }
    if dataLength.value == UNKNOWN {
      return Err(Jbig2Error);
    }
    var payload, next := SkipBytes(data, pos, dataLength.value);
    if payload.Err? {
      return Err(Jbig2Error);
    }
    SliceTaken(data, pos, dataLength.value);
    return Ok(Header(flags.value, data[pos..next], next));
  }

  lemma SliceTaken(data: seq<byte>, pos: nat, n: nat)
    requires pos <= |data| && Take(data[pos..], n).Ok?
    ensures pos + n <= |data| && Take(data[pos..], n) == Ok(Taken(data[pos..pos + n], data[pos + n..]))
  {
    assert data[pos..][..n] == data[pos..pos + n] && data[pos..][n..] == data[pos + n..];
  }

  lemma WalkStep(s: seq<byte>, count: nat, found: bool, limit: nat, requirePage: bool)
    requires s != [] && count + 1 <= MAX_SEGMENTS
    ensures Walk(s, count, found, limit, requirePage) ==
      match ParseSegment(s)
      case Err(e) => Err(e)
      case Ok(p) =>
        var check := CheckSegment(p.item.flags, p.item.payload, limit);
        var nowFound := found || Type(p.item.flags) == PAGE_INFORMATION;
        if check.Err? then Err(check.error)
        else if Type(p.item.flags) == END_OF_FILE then (if requirePage && !nowFound then Err(Jbig2Error) else Ok(()))
        else Walk(p.rest, count + 1, nowFound, limit, requirePage)
  {
    hide ParseSegment, CheckSegment;
  }

  lemma WalkEnd(count: nat, found: bool, limit: nat, requirePage: bool)
    ensures Walk([], count, found, limit, requirePage) == if requirePage && !found then Err(Jbig2Error) else Ok(())
    ensures forall s :: s != [] && count + 1 > MAX_SEGMENTS ==>
      Walk(s, count, found, limit, requirePage) == Err(Jbig2Error)
  {
    hide ParseSegment;
  }

  /** `validate_segment_sequence`. */
  method ValidateSegmentSequence(data: seq<byte>, maxOutputBytes: nat, requirePageInfo: bool) returns (r: Outcome<()>)
    ensures r == Walk(data, 0, false, maxOutputBytes, requirePageInfo)
  {
    hide Walk, ParseSegment, CheckDimensions, IsRegion;
    var pos := 0;
    var segments: nat := 0;
    var foundPageInfo := false;
    assert data[0..] == data;
    ghost var all := Walk(data, 0, false, maxOutputBytes, requirePageInfo);
    while pos < |data|
      invariant 0 <= pos <= |data|
      invariant Walk(data[pos..], segments, foundPageInfo, maxOutputBytes, requirePageInfo) == all
      decreases |data| - pos
    {
      WalkEnd(segments, foundPageInfo, maxOutputBytes, requirePageInfo);
      ghost var s := data[pos..];
      segments := segments + 1;
      if segments > MAX_SEGMENTS {
        return Err(Jbig2Error);
      }
      WalkStep(s, segments - 1, foundPageInfo, maxOutputBytes, requirePageInfo);
      var headerStart := pos;
      var header := ReadSegment(data, pos);
      if header.Err? {
        return Err(header.error);
      }
      var flags, payload := header.value.flags, header.value.payload;
      pos := header.value.next;
      if Type(flags) == PAGE_INFORMATION {
        var check := CheckDimensions(payload, maxOutputBytes);
        if check.Err? {
          return Err(check.error);
        }
        foundPageInfo := true;
      } else if IsRegion(Type(flags)) {
        var check := CheckDimensions(payload, maxOutputBytes);
        if check.Err? {
          return Err(check.error);
        }
      }
      if Type(flags) == END_OF_FILE {
        break;
      }
      // The no-progress error is unreachable.
      assert pos != headerStart;
    }
    WalkEnd(segments, foundPageInfo, maxOutputBytes, requirePageInfo);
    assert pos == |data| ==> data[pos..] == [];
    if requirePageInfo && !foundPageInfo {
      return Err(Jbig2Error);
    }
    return Ok(());
  }

  // ---------------------------------------------------------------- theorems

  type GoodSegment = g: Segment | WellFormed(g) witness Segment(0, 0, Short(0, 0, []), [0], [])

  /** The bytes of a list of segments followed by `rest`. */
  function WrittenAll(gs: seq<GoodSegment>, rest: seq<byte>): seq<byte> {
    if gs == [] then rest else Written(gs[0], WrittenAll(gs[1..], rest))
  }

  /** A segment list the walk may consume: at most `room` segments, every page and region bitmap within
      the output limit, and nothing left over unless it ends with an end-of-file segment, which comes last. */
  predicate Allowed(gs: seq<GoodSegment>, rest: seq<byte>, room: nat, limit: nat) {
    if gs == [] then rest == []
    else
      && room > 0
      && CheckSegment(gs[0].flags, gs[0].payload, limit).Ok?
      && if Type(gs[0].flags) == END_OF_FILE then |gs| == 1 else Allowed(gs[1..], rest, room - 1, limit)
  }

  predicate HasPage(gs: seq<GoodSegment>) {
    gs != [] && (Type(gs[0].flags) == PAGE_INFORMATION || HasPage(gs[1..]))
  }

  lemma {:induction false} WalkComplete(
      gs: seq<GoodSegment>, rest: seq<byte>, count: nat, found: bool, limit: nat, requirePage: bool)
    requires count <= MAX_SEGMENTS && Allowed(gs, rest, MAX_SEGMENTS - count, limit)
    ensures Walk(WrittenAll(gs, rest), count, found, limit, requirePage) ==
      if requirePage && !found && !HasPage(gs) then Err(Jbig2Error) else Ok(())
  {
    hide Walk, ParseSegment, CheckSegment, Written, WellFormed, Type;
    if gs == [] {
      WalkEnd(count, found, limit, requirePage);
    } else {
      var g, more := gs[0], WrittenAll(gs[1..], rest);
      SegmentExactly(Written(g, more), g, more);
      SegmentProgress(g, more);
      WalkStep(Written(g, more), count, found, limit, requirePage);
      var nowFound := found || Type(g.flags) == PAGE_INFORMATION;
      if Type(g.flags) == END_OF_FILE {
        assert !HasPage(gs[1..]);
      } else {
        WalkComplete(gs[1..], rest, count + 1, nowFound, limit, requirePage);
      }
    }
  }

  lemma {:induction false} WalkSound(s: seq<byte>, count: nat, found: bool, limit: nat, requirePage: bool)
    returns (gs: seq<GoodSegment>, rest: seq<byte>)
    requires count <= MAX_SEGMENTS && Walk(s, count, found, limit, requirePage).Ok?
    ensures s == WrittenAll(gs, rest) && Allowed(gs, rest, MAX_SEGMENTS - count, limit)
    decreases |s|
  {
    hide Walk, ParseSegment, CheckSegment, Written, WellFormed, Type;
    WalkEnd(count, found, limit, requirePage);
    if s == [] {
      gs, rest := [], [];
    } else {
      WalkStep(s, count, found, limit, requirePage);
      var p := ParseSegment(s).value;
      SegmentExactly(s, p.item, p.rest);
      var g: GoodSegment := p.item;
      if Type(g.flags) == END_OF_FILE {
        gs, rest := [g], p.rest;
        assert [g][1..] == [];
      } else {
        Shrinks(s);
        var more;
        more, rest := WalkSound(p.rest, count + 1, found || Type(g.flags) == PAGE_INFORMATION, limit, requirePage);
        gs := [g] + more;
        assert gs[1..] == more;
      }
    }
  }

  ghost predicate Splits(data: seq<byte>, gs: seq<GoodSegment>, rest: seq<byte>, limit: nat, requirePage: bool) {
    data == WrittenAll(gs, rest) && Allowed(gs, rest, 65_536, limit) && (requirePage ==> HasPage(gs))
  }

  /** The walk accepts exactly the serialised lists of allowed segments, with page information if required. */
  lemma WalkExactly(data: seq<byte>, limit: nat, requirePage: bool)
    ensures Walk(data, 0, false, limit, requirePage).Ok? <==>
      exists gs, rest :: Splits(data, gs, rest, limit, requirePage)
  {
    hide Walk, Allowed, WrittenAll, HasPage;
    if Walk(data, 0, false, limit, requirePage).Ok? {
      var gs, rest := WalkSound(data, 0, false, limit, requirePage);
      WalkComplete(gs, rest, 0, false, limit, requirePage);
      assert Splits(data, gs, rest, limit, requirePage);
    }
    if exists gs, rest :: Splits(data, gs, rest, limit, requirePage) {
      var gs, rest :| Splits(data, gs, rest, limit, requirePage);
      WalkComplete(gs, rest, 0, false, limit, requirePage);
    }
  }

  /** In an accepted input every page and region bitmap has a known height and fits the output limit. */
  lemma {:induction false} AllowedBitmapsFit(gs: seq<GoodSegment>, rest: seq<byte>, room: nat, limit: nat, i: nat)
    requires Allowed(gs, rest, room, limit) && i < |gs|
    ensures |gs| <= room
    ensures var g := gs[i]; Type(g.flags) == PAGE_INFORMATION || IsRegion(Type(g.flags)) ==>
      |g.payload| >= 8 && BeU32(g.payload, 4) != UNKNOWN && CeilDiv8(BeU32(g.payload, 0)) * BeU32(g.payload, 4) <= limit
    decreases |gs|
  {
    hide Type, IsRegion, BeU32, CeilDiv8;
    if Type(gs[0].flags) != END_OF_FILE && |gs| > 1 {
      AllowedBitmapsFit(gs[1..], rest, room - 1, limit, if i == 0 then 0 else i - 1);
    }
  }

  // ---------------------------------------------------------------- the layout in offsets

  /** The big-endian word at an offset. */
  function WordAt(s: seq<byte>, i: nat): nat
    requires i + 4 <= |s|
  {
    16_777_216 * s[i] as int + 65_536 * s[i + 1] as int + 256 * s[i + 2] as int + s[i + 3] as int
  }

  lemma WordIs(s: seq<byte>, i: nat)
    requires i + 4 <= |s|
    ensures BeU32(s, i) == WordAt(s, i)
  {
  }

  /** Offsets in a segment: of the page association, of the data length, and of the end of the data. */
  datatype Layout = Layout(page: nat, length: nat, end: nat)

  /** Where the page association starts, behind the count of references and the references, if the count is sound. */
  function PageStart(s: seq<byte>): Option<nat> {
    if |s| < 6 || s[5] / 32 == 5 || s[5] / 32 == 6 || (s[5] / 32 == 7 && |s| < 9) then None
    else
      var long := s[5] / 32 == 7;
      var count := if long then (s[5] as int % 32) * 16_777_216 + s[6] as int * 65_536 + s[7] as int * 256 + s[8] as int
                   else s[5] as int / 32;
      var number := WordAt(s, 0);
      if count > 4096 then None
      else
        Some((if long then 9 + (count + 8) / 8 else 6) +
          count * (if number <= 256 then 1 else if number <= 65_536 then 2 else 4))
  }

  /** Section 7.2 of ITU-T T.88, field by field; nothing for what the walk does not take for a segment. */
  function LayoutOf(s: seq<byte>): Option<Layout> {
    if PageStart(s).None? then None
    else
      var page := PageStart(s).value;
      var length := page + if s[4] as int / 64 % 2 == 1 then 4 else 1;
      if length + 4 > |s| || WordAt(s, length) == 4_294_967_295 || length + 4 + WordAt(s, length) > |s| then None
      else Some(Layout(page, length, length + 4 + WordAt(s, length)))
  }

  /** Where the references of a segment end. */
  lemma ReferencesLayout(s: seq<byte>, number: nat)
    requires |s| >= 1
    ensures var c := s[0] as int / 32;
      var width := if number <= 256 then 1 else if number <= 65_536 then 2 else 4;
      && (c == 5 || c == 6 ==> ParseReferences(s, number).Err?)
      && (c < 5 ==>
            && (ParseReferences(s, number).Ok? <==> 1 + c * width <= |s|)
            && (ParseReferences(s, number).Ok? ==> ParseReferences(s, number).value.rest == s[1 + c * width..]))
      && (c == 7 && |s| < 4 ==> ParseReferences(s, number).Err?)
      && (c == 7 && |s| >= 4 ==>
            var count := (s[0] as int % 32) * 16_777_216 + s[1] as int * 65_536 + s[2] as int * 256 + s[3] as int;
            var end := 4 + (count + 8) / 8 + count * width;
            && (ParseReferences(s, number).Ok? <==> count <= 4096 && end <= |s|)
            && (ParseReferences(s, number).Ok? ==> ParseReferences(s, number).value.rest == s[end..]))
  {
    hide Take;
    TakeAt(s, 0, 1);
    assert s[0..] == s && s[0..1] == [s[0]];
    var c := s[0];
    if c / 32 == 7 {
      LongLayout(c, s, number);
    } else {
      ShortLayout(c, s, number);
    }
  }

  lemma ShortLayout(c: byte, s: seq<byte>, number: nat)
    requires |s| >= 1
    ensures var ids := c as int / 32 * (if number <= 256 then 1 else if number <= 65_536 then 2 else 4);
      && (ParseShort(c, s[1..], number).Ok? <==> 1 + ids <= |s|)
      && (ParseShort(c, s[1..], number).Ok? ==> ParseShort(c, s[1..], number).value.rest == s[1 + ids..])
  {
    hide Take;
    TakeAt(s, 1, c as int / 32 * (if number <= 256 then 1 else if number <= 65_536 then 2 else 4));
  }

  lemma LongCountIs(c: byte, s: seq<byte>)
    requires |s| >= 4
    ensures var count := (c as int % 32) * 16_777_216 + s[1] as int * 65_536 + s[2] as int * 256 + s[3] as int;
      BeU32([c % 32] + s[1..4], 0) == count && CeilDiv8(count + 1) == (count + 8) / 8
  {
    var b := [c % 32] + s[1..4];
    assert b == [c % 32, s[1], s[2], s[3]];
    WordIs(b, 0);
  }

  lemma LongLayout(c: byte, s: seq<byte>, number: nat)
    requires |s| >= 1 && c / 32 == 7
    ensures |s| < 4 ==> ParseLong(c, s[1..], number).Err?
    ensures |s| >= 4 ==>
      var count := (c as int % 32) * 16_777_216 + s[1] as int * 65_536 + s[2] as int * 256 + s[3] as int;
      var end := 4 + (count + 8) / 8 + count * (if number <= 256 then 1 else if number <= 65_536 then 2 else 4);
      && (ParseLong(c, s[1..], number).Ok? <==> count <= 4096 && end <= |s|)
      && (ParseLong(c, s[1..], number).Ok? ==> ParseLong(c, s[1..], number).value.rest == s[end..])
  {
    hide Take, BeU32, CeilDiv8;
    TakeAt(s, 1, 3);
    if |s| >= 4 {
      var count := (c as int % 32) * 16_777_216 + s[1] as int * 65_536 + s[2] as int * 256 + s[3] as int;
      LongCountIs(c, s);
      var ids := count * (if number <= 256 then 1 else if number <= 65_536 then 2 else 4);
      TakeAt(s, 4, (count + 8) / 8);
      if 4 + (count + 8) / 8 <= |s| {
        TakeAt(s, 4 + (count + 8) / 8, ids);
      }
    }
  }

  /** Taking bytes off what is left from an offset on. */
  lemma TakeAt(s: seq<byte>, i: nat, n: nat)
    requires i <= |s|
    ensures Take(s[i..], n).Ok? <==> i + n <= |s|
    ensures i + n <= |s| ==> Take(s[i..], n) == Ok(Taken(s[i..i + n], s[i + n..]))
  {
    if i + n <= |s| {
      assert s[i..][..n] == s[i..i + n] && s[i..][n..] == s[i + n..];
    }
  }

  lemma PageStartExactly(s: seq<byte>)
    requires |s| >= 6
    ensures ParseReferences(s[5..], WordAt(s, 0)).Ok? <==> PageStart(s).Some? && PageStart(s).value <= |s|
    ensures ParseReferences(s[5..], WordAt(s, 0)).Ok? ==>
      PageStart(s).value >= 6 && ParseReferences(s[5..], WordAt(s, 0)).value.rest == s[PageStart(s).value..]
  {
    hide ParseReferences, WordAt;
    var t := s[5..];
    assert |s| >= 9 ==> t[1] == s[6] && t[2] == s[7] && t[3] == s[8];
    ReferencesLayout(t, WordAt(s, 0));
  }

  /** A segment is read exactly when it has the layout of the standard, and its fields are the bytes at the offsets. */
  lemma LayoutExactly(s: seq<byte>)
    ensures ParseSegment(s).Ok? <==> LayoutOf(s).Some?
    ensures ParseSegment(s).Ok? ==>
      var p, at := ParseSegment(s).value, LayoutOf(s).value;
      && at.page <= at.length <= at.length + 4 <= at.end <= |s|
      && p.item.number == WordAt(s, 0) && p.item.flags == s[4] && p.item.page == s[at.page..at.length]
      && p.item.payload == s[at.length + 4..at.end] && p.rest == s[at.end..]
  {
    hide Take, ParseReferences, BeU32, WordAt, PageStart, PageWidth;
    assert s[0..] == s;
    TakeAt(s, 0, 4);
    if |s| >= 6 {
      TakeAt(s, 4, 1);
      WordIs(s[0..4], 0);
      WordSlice(s, 0);
      assert s[4..5] == [s[4]];
      PageStartExactly(s);
      if PageStart(s).Some? && PageStart(s).value <= |s| && ParseReferences(s[5..], WordAt(s, 0)).Ok? {
        PageLayout(s, PageStart(s).value);
      }
    } else {
      NoPage(s);
      if |s| >= 4 { TakeAt(s, 4, 1); }
      if |s| == 5 { NoReferences(s[5..]); }
    }
  }

  lemma NoPage(s: seq<byte>)
    requires |s| < 6
    ensures PageStart(s).None?
  {
  }

  lemma NoReferences(s: seq<byte>)
    requires s == []
    ensures forall number :: ParseReferences(s, number).Err?
  {
  }

  lemma WordSlice(s: seq<byte>, i: nat)
    requires i + 4 <= |s|
    ensures WordAt(s[i..i + 4], 0) == WordAt(s, i)
  {
  }

  /** The fields after the references. */
  lemma PageLayout(s: seq<byte>, page: nat)
    requires 5 <= page <= |s|
    ensures var width := if s[4] as int / 64 % 2 == 1 then 4 else 1;
      && PageWidth(s[4]) == width
      && (Take(s[page..], width).Ok? <==> page + width <= |s|)
      && (page + width <= |s| ==>
            && Take(s[page..], width) == Ok(Taken(s[page..page + width], s[page + width..]))
            && (Take(s[page + width..], 4).Ok? <==> page + width + 4 <= |s|))
      && (page + width + 4 <= |s| ==>
            var n := WordAt(s, page + width);
            var from := page + width + 4;
            && Take(s[page + width..], 4) == Ok(Taken(s[page + width..from], s[from..]))
            && BeU32(s[page + width..from], 0) == n
            && (Take(s[from..], n).Ok? <==> from + n <= |s|)
            && (from + n <= |s| ==> Take(s[from..], n) == Ok(Taken(s[from..from + n], s[from + n..]))))
  {
    hide Take, BeU32, WordAt;
    var width := if s[4] as int / 64 % 2 == 1 then 4 else 1;
    TakeAt(s, page, width);
    if page + width <= |s| {
      TakeAt(s, page + width, 4);
      if page + width + 4 <= |s| {
        WordIs(s[page + width..page + width + 4], 0);
        WordSlice(s, page + width);
        TakeAt(s, page + width + 4, WordAt(s, page + width));
      }
    }
  }

  /** A segment that refers to one other: an immediate text region of no size, number 1, that refers to segment 0. */
  lemma OneReference()
    ensures LayoutOf([0, 0, 0, 1, 6, 0x20, 0x00, 0x01, 0, 0, 0, 8, 0, 0, 0, 8, 0, 0, 0, 1]) == Some(Layout(7, 8, 20))
  {
  }

  /** The bitmap of a page or region: known height, and within the limit when packed. */
  predicate Bounded(payload: seq<byte>, limit: nat) {
    |payload| >= 8 && WordAt(payload, 4) != 4_294_967_295 && (WordAt(payload, 0) + 7) / 8 * WordAt(payload, 4) <= limit
  }

  /** What is checked of a segment: the dimensions of page information and of the twelve kinds of region. */
  lemma CheckedExactly(flags: byte, payload: seq<byte>, limit: nat)
    ensures CheckSegment(flags, payload, limit).Ok? <==>
      (flags % 64 in {48, 4, 6, 7, 20, 22, 23, 36, 38, 39, 40, 42, 43} ==> Bounded(payload, limit))
  {
    hide BeU32, WordAt;
    if |payload| >= 8 {
      WordIs(payload, 0);
      WordIs(payload, 4);
    }
  }

  /** A list the walk may consume, without the walk: at most `room` segments, every bitmap bounded, an end-of-file
      segment at the last place only, and nothing left over without one. */
  lemma {:induction false} AllowedExactly(gs: seq<GoodSegment>, rest: seq<byte>, room: nat, limit: nat)
    ensures Allowed(gs, rest, room, limit) <==>
      && |gs| <= room
      && (forall i :: 0 <= i < |gs| ==> CheckSegment(gs[i].flags, gs[i].payload, limit).Ok?)
      && (forall i :: 0 <= i < |gs| - 1 ==> gs[i].flags as int % 64 != 51)
      && (rest == [] || (gs != [] && gs[|gs| - 1].flags as int % 64 == 51))
    decreases |gs|
  {
    hide CheckSegment;
    if gs != [] {
      var more := gs[1..];
      AllowedExactly(more, rest, if room > 0 then room - 1 else 0, limit);
      assert forall i :: 0 <= i < |more| ==> more[i] == gs[i + 1];
      assert forall i :: 0 < i < |gs| ==> gs[i] == more[i - 1];
    }
  }

  lemma {:induction false} HasPageExactly(gs: seq<GoodSegment>)
    ensures HasPage(gs) <==> exists i :: 0 <= i < |gs| && gs[i].flags as int % 64 == 48
    decreases |gs|
  {
    if gs != [] {
      var more := gs[1..];
      HasPageExactly(more);
      assert forall i :: 0 <= i < |more| ==> more[i] == gs[i + 1];
      if i :| 0 <= i < |gs| && gs[i].flags as int % 64 == 48 {
        assert i > 0 ==> more[i - 1] == gs[i];
      }
    }
  }

  // ---------------------------------------------------------------- whole inputs

  const FILE_HEADER: seq<byte> := [0x97, 0x4A, 0x42, 0x32, 0x0D, 0x0A, 0x1A, 0x0A]

  predicate IsFile(data: seq<byte>) {
    |data| >= 8 && data[..8] == FILE_HEADER
  }

  /** Flags of a sequential file: no reserved bit set, bit 0 set. */
  predicate Sequential(flags: byte) {
    flags < 16 && flags % 2 == 1
  }

  /** Where the segments of a file start: the flags are followed by a page count unless bit 1 is set. */
  function SegmentsStart(flags: byte): nat {
    if flags / 2 % 2 == 0 then 13 else 9
  }

  /** A sequential file that is cut off in its page count: the source slices past its end. */
  predicate CutInPageCount(data: seq<byte>) {
    IsFile(data) && |data| > 8 && Sequential(data[8]) && |data| < SegmentsStart(data[8])
  }

  /** `validate_jbig2_input` as a function. */
  function Validated(data: seq<byte>, globals: Option<seq<byte>>, limit: nat): Outcome<()> {
    if IsFile(data) then
      if |data| == 8 || !Sequential(data[8]) then Err(Jbig2Error)
      else if |data| < SegmentsStart(data[8]) then Err(Panic)
      else Walk(data[SegmentsStart(data[8])..], 0, false, limit, true)
    else if globals.Some? && Walk(globals.value, 0, false, limit, false).Err? then
      Walk(globals.value, 0, false, limit, false)
    else Walk(data, 0, false, limit, true)
  }

  /** `validate_jbig2_input`. */
  method ValidateJbig2Input(data: seq<byte>, globals: Option<seq<byte>>, maxOutputBytes: nat) returns (r: Outcome<()>)
    ensures r == Validated(data, globals, maxOutputBytes)
    ensures r == Err(Panic) <==> CutInPageCount(data)
  {
    hide Walk;
    PanicsExactly(data, globals, maxOutputBytes);
    if IsFile(data) {
      var pos := |FILE_HEADER|;
      if pos >= |data| {
        return Err(Jbig2Error);
      }
      var flags := data[pos];
      if flags / 16 != 0 {
        return Err(Jbig2Error);
      }
      if flags % 2 == 0 {
        return Err(Jbig2Error);
      }
      pos := pos + 1;
      if flags / 2 % 2 == 0 {
        pos := pos + 4;
      }
      if pos > |data| {
        return Err(Panic);
      }
      r := ValidateSegmentSequence(data[pos..], maxOutputBytes, true);
    } else {
      if globals.Some? {
        r := ValidateSegmentSequence(globals.value, maxOutputBytes, false);
        if r.Err? {
          return;
        }
      }
      r := ValidateSegmentSequence(data, maxOutputBytes, true);
    }
  }

  /** The walk itself never stops the program: whatever the bytes, it ends with a result or an error. */
  lemma {:induction false} WalkErrors(s: seq<byte>, count: nat, found: bool, limit: nat, requirePage: bool)
    ensures Walk(s, count, found, limit, requirePage) != Err(Panic)
    decreases |s|
  {
    hide Walk, ParseSegment, Type, CheckSegment;
    WalkEnd(count, found, limit, requirePage);
    if s != [] && count + 1 <= MAX_SEGMENTS {
      WalkStep(s, count, found, limit, requirePage);
      ParseErrors(s);
      if ParseSegment(s).Ok? {
        var p := ParseSegment(s).value;
        Shrinks(s);
        CheckErrors(p.item.flags, p.item.payload, limit);
        WalkErrors(p.rest, count + 1, found || Type(p.item.flags) == PAGE_INFORMATION, limit, requirePage);
      }
    }
  }

  lemma ParseErrors(s: seq<byte>)
    ensures ParseSegment(s).Err? ==> ParseSegment(s).error == Jbig2Error
  {
    hide BeU32, ReferenceWidth, PageWidth, CeilDiv8;
  }

  lemma CheckErrors(flags: byte, payload: seq<byte>, limit: nat)
    ensures CheckSegment(flags, payload, limit) != Err(Panic)
  {
    hide BeU32, CeilDiv8;
  }

  /** Validation stops the program exactly on a sequential file that is cut off in its page count. */
  lemma PanicsExactly(data: seq<byte>, globals: Option<seq<byte>>, limit: nat)
    ensures Validated(data, globals, limit) == Err(Panic) <==> CutInPageCount(data)
  {
    hide Walk;
    if IsFile(data) && |data| > 8 && Sequential(data[8]) && |data| >= SegmentsStart(data[8]) {
      WalkErrors(data[SegmentsStart(data[8])..], 0, false, limit, true);
    }
    if globals.Some? {
      WalkErrors(globals.value, 0, false, limit, false);
    }
    WalkErrors(data, 0, false, limit, true);
  }

  /** Such a file: the header, a flags byte, and nothing more. */
  lemma CutFilePanics(limit: nat)
    ensures Validated(FILE_HEADER + [1], None, limit) == Err(Panic)
  {
    hide Walk;
    assert (FILE_HEADER + [1])[..8] == FILE_HEADER;
  }

  /** An input is accepted exactly when its segments, and those of the globals of an embedded stream, are lists
      the walk may consume, with page information among the input's own. */
  lemma ValidatedExactly(data: seq<byte>, globals: Option<seq<byte>>, limit: nat)
    ensures Validated(data, globals, limit).Ok? <==>
      if |data| >= 8 && data[..8] == [0x97, 0x4A, 0x42, 0x32, 0x0D, 0x0A, 0x1A, 0x0A] then
        && |data| > 8 && data[8] as int / 16 == 0 && data[8] as int % 2 == 1
        && var start := if data[8] as int / 2 % 2 == 1 then 9 else 13;
           start <= |data| && exists gs, rest :: Splits(data[start..], gs, rest, limit, true)
      else
        && (globals.Some? ==> exists gs, rest :: Splits(globals.value, gs, rest, limit, false))
        && exists gs, rest :: Splits(data, gs, rest, limit, true)
  {
    hide Walk, Splits, IsFile, Sequential, SegmentsStart;
    HeaderIs(data);
    if IsFile(data) && |data| > 8 && Sequential(data[8]) && |data| >= SegmentsStart(data[8]) {
      WalkExactly(data[SegmentsStart(data[8])..], limit, true);
    }
    WalkExactly(data, limit, true);
    if globals.Some? {
      WalkExactly(globals.value, limit, false);
    }
  }

  /** The header of a file in its bytes: the signature, then flags of which bit 0 says sequential, bit 1 says that there
      is no page count, and the high four are not used. */
  lemma HeaderIs(data: seq<byte>)
    ensures IsFile(data) <==> |data| >= 8 && data[..8] == [0x97, 0x4A, 0x42, 0x32, 0x0D, 0x0A, 0x1A, 0x0A]
    ensures |data| > 8 ==>
      && (Sequential(data[8]) <==> data[8] as int / 16 == 0 && data[8] as int % 2 == 1)
      && SegmentsStart(data[8]) == if data[8] as int / 2 % 2 == 1 then 9 else 13
  {
  }
}
