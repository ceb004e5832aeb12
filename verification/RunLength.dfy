/** The RunLength pair: `compress_run_length` (src/compression/mod.rs) and
    `decode_run_length` (src/filters/mod.rs), section 7.4.5 of ISO 32000-1. */
module RunLength {
  import opened Bits

  type RunCount = n: int | 2 <= n <= 128 witness 2
  type LiteralBytes = s: seq<byte> | 1 <= |s| <= 128 witness [0]

  /** What one length byte stands for: a repeated byte or a stretch of literal bytes. */
  datatype Chunk = Run(count: RunCount, value: byte) | Literal(bytes: LiteralBytes)

  /** The bytes a chunk stands for. */
  function Meaning(c: Chunk): (s: seq<byte>)
    ensures 1 <= |s| <= 128
  {
    match c
    case Run(count, value) => Repeat(value, count)
    case Literal(bytes) => bytes
  }

  function Expand(cs: seq<Chunk>): seq<byte> {
    if cs == [] then [] else Meaning(cs[0]) + Expand(cs[1..])
  }

  /** The bytes a chunk is written as. */
  function Written(c: Chunk): (s: seq<byte>)
    ensures |s| >= 2
  {
    match c
    case Run(count, value) => [257 - count, value]
    case Literal(bytes) => [|bytes| - 1] + bytes
  }

  function Serialise(cs: seq<Chunk>): seq<byte> {
    if cs == [] then [] else Written(cs[0]) + Serialise(cs[1..])
  }

  // ---------------------------------------------------------------- encoder

  predicate SameBytes(data: seq<byte>, i: nat, n: nat)
    requires i + n <= |data|
  {
    forall k :: i <= k < i + n ==> data[k] == data[i]
  }

  /** Length of the run of `data[i]`, known to be at least `r`, cut off at 128. */
  function RunFrom(data: seq<byte>, i: nat, r: nat): (n: nat)
    requires i < |data| && 1 <= r <= 128 && i + r <= |data| && SameBytes(data, i, r)
    ensures r <= n <= 128 && i + n <= |data| && SameBytes(data, i, n)
    ensures n == 128 || i + n == |data| || data[i + n] != data[i]
    decreases |data| - i - r
  {
    if i + r < |data| && data[i + r] == data[i] && r < 128 then RunFrom(data, i, r + 1) else r
  }

  /** True when a run of at least two bytes starts at `i`. */
  predicate PairAt(data: seq<byte>, i: nat) {
    i + 1 < |data| && data[i] == data[i + 1]
  }

  /** Length of the literal stretch from `i`, known to be at least `n`: it ends at 128 bytes,
      at the end of the data, or where a run starts. */
  function LiteralFrom(data: seq<byte>, i: nat, n: nat): (l: nat)
    requires n <= 128 && i + n <= |data|
    ensures n <= l <= 128 && i + l <= |data|
    ensures l == 128 || i + l == |data| || PairAt(data, i + l)
    ensures n < l ==> !PairAt(data, i + n)
    decreases |data| - i - n
  {
    if i + n < |data| && n < 128 && !PairAt(data, i + n) then LiteralFrom(data, i, n + 1) else n
  }

  /** The chunk the encoder emits at `i`. */
  function ChunkAt(data: seq<byte>, i: nat): (c: Chunk)
    requires i < |data|
    ensures |Meaning(c)| <= |data| - i
  {
    var r := RunFrom(data, i, 1);
    if r > 1 then Run(r, data[i])
    else
      assert !PairAt(data, i);
      Literal(data[i..i + LiteralFrom(data, i, 0)])
  }

  function ChunksFrom(data: seq<byte>, i: nat): seq<Chunk>
    requires i <= |data|
    decreases |data| - i
  {
    if i == |data| then []
    else
      var c := ChunkAt(data, i);
      [c] + ChunksFrom(data, i + |Meaning(c)|)
  }

  /** What the encoder writes: its chunks, then the end-of-data byte. */
  function Compressed(data: seq<byte>): seq<byte> {
    Serialise(ChunksFrom(data, 0)) + [128]
  }

  /** What the encoder makes of the data from `i` on: where two equal bytes stand, all bytes of that run, 128 at most;
      else the bytes up to the next two equal ones or the end of the data, 128 at most. */
  lemma ChunkExactly(data: seq<byte>, i: nat)
    requires i < |data|
    ensures var c := ChunkAt(data, i);
      var end := i + |Meaning(c)|;
      && end <= |data| && Meaning(c) == data[i..end]
      && (c.Run? <==> i + 1 < |data| && data[i] == data[i + 1])
      && (c.Run? ==> end == i + 128 || end == |data| || data[end] != data[i])
      && (c.Literal? ==>
            && (forall k :: i <= k < end && k + 1 < |data| ==> data[k] != data[k + 1])
            && (end == i + 128 || end == |data| || (end + 1 < |data| && data[end] == data[end + 1])))
  {
    var c := ChunkAt(data, i);
    if c.Run? {
      assert SameBytes(data, i, c.count);
    } else {
      LiteralApart(data, i, 0);
    }
  }

  lemma {:induction false} LiteralApart(data: seq<byte>, i: nat, n: nat)
    requires n <= 128 && i + n <= |data|
    ensures forall k :: i + n <= k < i + LiteralFrom(data, i, n) && k + 1 < |data| ==> data[k] != data[k + 1]
    decreases |data| - i - n
  {
    if i + n < |data| && n < 128 && !PairAt(data, i + n) {
      LiteralApart(data, i, n + 1);
    }
  }

  lemma ChunksStep(data: seq<byte>, i: nat)
    requires i < |data|
    ensures var c := ChunkAt(data, i);
      Serialise(ChunksFrom(data, i)) == Written(c) + Serialise(ChunksFrom(data, i + |Meaning(c)|))
  {
    hide ChunkAt, Meaning, Written;
    var c := ChunkAt(data, i);
    var more := ChunksFrom(data, i + |Meaning(c)|);
    assert ChunksFrom(data, i) == [c] + more;
    assert ([c] + more)[1..] == more;
  }

  /** `written` is what the encoder has output when it is about to look at byte `i`. */
  ghost predicate Emitted(data: seq<byte>, i: nat, written: seq<byte>) {
    i <= |data| && written + Serialise(ChunksFrom(data, i)) == Serialise(ChunksFrom(data, 0))
  }

  lemma EmittedStep(data: seq<byte>, i: nat, written: seq<byte>)
    requires Emitted(data, i, written) && i < |data|
    ensures Emitted(data, i + |Meaning(ChunkAt(data, i))|, written + Written(ChunkAt(data, i)))
  {
    hide Serialise, ChunksFrom, Written, Meaning, ChunkAt;
    var c := ChunkAt(data, i);
    var more := Serialise(ChunksFrom(data, i + |Meaning(c)|));
    ChunksStep(data, i);
    ConcatAssoc(written, Written(c), more);
  }

  lemma EmittedStart(data: seq<byte>)
    ensures Emitted(data, 0, [])
  {
    hide Serialise, ChunksFrom;
    assert [] + Serialise(ChunksFrom(data, 0)) == Serialise(ChunksFrom(data, 0));
  }

  lemma EmittedEnd(data: seq<byte>, written: seq<byte>)
    requires Emitted(data, |data|, written)
    ensures written + [128] == Compressed(data)
  {
    assert written + [] == written;
  }

  lemma RunContinues(data: seq<byte>, i: nat, r: nat)
    requires i < |data| && 1 <= r < 128 && i + r < |data| && SameBytes(data, i, r) && data[i + r] == data[i]
    ensures SameBytes(data, i, r + 1) && RunFrom(data, i, r) == RunFrom(data, i, r + 1)
  {
  }

  lemma RunIs(data: seq<byte>, i: nat, r: nat)
    requires i < |data| && 1 <= r <= 128 && i + r <= |data| && SameBytes(data, i, r)
    requires r == 128 || i + r == |data| || data[i + r] != data[i]
    requires RunFrom(data, i, r) == RunFrom(data, i, 1)
    ensures RunFrom(data, i, 1) == r && (r > 1 ==> ChunkAt(data, i) == Run(r, data[i]))
    ensures r == 1 ==> !PairAt(data, i)
  {
  }

  lemma LiteralContinues(data: seq<byte>, i: nat, n: nat)
    requires n < 128 && i + n < |data| && !PairAt(data, i + n)
    ensures LiteralFrom(data, i, n) == LiteralFrom(data, i, n + 1)
  {
  }

  lemma LiteralIs(data: seq<byte>, i: nat, n: nat)
    requires i < |data| && RunFrom(data, i, 1) == 1 && n <= 128 && i + n <= |data|
    requires n == 128 || i + n == |data| || PairAt(data, i + n)
    requires LiteralFrom(data, i, n) == LiteralFrom(data, i, 0)
    ensures n > 0 && ChunkAt(data, i) == Literal(data[i..i + n])
  {
  }

  lemma SingleByte(data: seq<byte>, i: nat)
    requires i < |data|
    ensures SameBytes(data, i, 1)
  {
  }

  /** `compress_run_length`: the loop, its inner run and literal loops, and the branch that never runs. */
  method CompressRunLength(data: seq<byte>) returns (compressed: seq<byte>)
    ensures compressed == Compressed(data)
  {
    hide Emitted, ChunkAt, SameBytes, Compressed, RunFrom, LiteralFrom;
    compressed := [];
    var i := 0;
    EmittedStart(data);
    while i < |data|
      invariant 0 <= i <= |data| && Emitted(data, i, compressed)
    {
      EmittedStep(data, i, compressed);
      var currentByte := data[i];
      var runLength := 1;
      SingleByte(data, i);
      while i + runLength < |data| && data[i + runLength] == currentByte && runLength < 128
        invariant 1 <= runLength <= 128 && i + runLength <= |data| && SameBytes(data, i, runLength)
        invariant RunFrom(data, i, runLength) == RunFrom(data, i, 1)
      {
        RunContinues(data, i, runLength);
        runLength := runLength + 1;
      }
      RunIs(data, i, runLength);
      if runLength > 1 {
        compressed := compressed + [257 - runLength, currentByte];
        i := i + runLength;
      } else {
        var literalRun := 0;
        var start := i;
        while i < |data| && literalRun < 128
          invariant start <= i <= |data| && i == start + literalRun && literalRun <= 128
          invariant LiteralFrom(data, start, literalRun) == LiteralFrom(data, start, 0)
          invariant literalRun == 0 ==> !PairAt(data, i)
          decreases |data| - i
        {
          if i + 1 < |data| && data[i] == data[i + 1] {
            if literalRun > 0 {
              break;
            }
            // The repeat branch of the literal loop: no run can start where a literal does.
            assert false;
          }
          LiteralContinues(data, start, literalRun);
          i := i + 1;
          literalRun := literalRun + 1;
        }
        LiteralIs(data, start, literalRun);
        if literalRun > 0 {
          compressed := compressed + ([literalRun - 1] + data[start..start + literalRun]);
        }
      }
    }
    EmittedEnd(data, compressed);
    compressed := compressed + [128];
  }

  // ---------------------------------------------------------------- decoder

  /** What a length byte and the bytes after it amount to. */
  datatype Step = Stop | Truncated | Next(chunk: Chunk, rest: seq<byte>)

  function Head(s: seq<byte>): (h: Step)
    requires s != []
    ensures h.Next? ==> |h.rest| < |s|
  {
    if s[0] == 128 then Stop
    else if s[0] < 128 then
      var count: nat := s[0] as int + 1;
      if 1 + count > |s| then Truncated else Next(Literal(s[1..1 + count]), s[1 + count..])
    else if |s| < 2 then Truncated
    else Next(Run(257 - s[0] as int, s[1]), s[2..])
  }

  /** The decoder's walk over what is left of the input, with `out` already produced.
      `endOk` says whether the whole input may stop without an end byte. */
  function DecodeRest(s: seq<byte>, out: seq<byte>, limit: nat, endOk: bool): Result<seq<byte>, FilterError>
    decreases |s|
  {
    if s == [] then (if endOk then Ok(out) else Err(InvalidData))
    else
      match Head(s)
      case Stop => Ok(out)
      case Truncated => Err(InvalidData)
      case Next(c, rest) =>
        if |out| + |Meaning(c)| > limit then Err(DecompressionError)
        else DecodeRest(rest, out + Meaning(c), limit, endOk)
  }

  predicate MayStop(data: seq<byte>) {
    data == [] || data[|data| - 1] == 128
  }

  function Decoded(data: seq<byte>, limit: nat): Result<seq<byte>, FilterError> {
    DecodeRest(data, [], limit, MayStop(data))
  }

  /** The walk in terms of positions in the whole input: a literal chunk at `i`. */
  lemma DecodeLiteralAt(data: seq<byte>, i: nat, out: seq<byte>, limit: nat, endOk: bool)
    requires i < |data| && data[i] < 128
    ensures var count: nat := data[i] as int + 1;
      DecodeRest(data[i..], out, limit, endOk) ==
        if i + 1 + count > |data| then Err(InvalidData)
        else if |out| + count > limit then Err(DecompressionError)
        else DecodeRest(data[i + 1 + count..], out + data[i + 1..i + 1 + count], limit, endOk)
  {
    var s := data[i..];
    var count: nat := data[i] as int + 1;
    if i + 1 + count <= |data| {
      assert s[1..1 + count] == data[i + 1..i + 1 + count];
      assert s[1 + count..] == data[i + 1 + count..];
    }
  }

  /** A run at `i`. */
  lemma DecodeRunAt(data: seq<byte>, i: nat, out: seq<byte>, limit: nat, endOk: bool)
    requires i < |data| && data[i] > 128
    ensures var count: nat := 257 - data[i] as int;
      DecodeRest(data[i..], out, limit, endOk) ==
        if i + 1 >= |data| then Err(InvalidData)
        else if |out| + count > limit then Err(DecompressionError)
        else DecodeRest(data[i + 2..], out + Repeat(data[i + 1], count), limit, endOk)
  {
    var s := data[i..];
    if i + 1 < |data| {
      assert s[2..] == data[i + 2..];
    }
  }

  /** The end byte at `i`. */
  lemma DecodeStopAt(data: seq<byte>, i: nat, out: seq<byte>, limit: nat, endOk: bool)
    requires i < |data| && data[i] == 128
    ensures DecodeRest(data[i..], out, limit, endOk) == Ok(out)
  {
  }

  lemma DecodeNothing(out: seq<byte>, limit: nat, endOk: bool)
    ensures DecodeRest([], out, limit, endOk) == if endOk then Ok(out) else Err(InvalidData)
  {
  }

  /** `decode_run_length`. */
  method DecodeRunLength(data: seq<byte>, maxOutputBytes: nat) returns (r: Result<seq<byte>, FilterError>)
    ensures r == Decoded(data, maxOutputBytes)
  {
    hide DecodeRest;
    var result: seq<byte> := [];
    var i := 0;
    var seenEod := false;
    ghost var endOk := MayStop(data);
    assert data[0..] == data;
    while i < |data|
      invariant 0 <= i <= |data| && !seenEod
      invariant DecodeRest(data[i..], result, maxOutputBytes, endOk) == Decoded(data, maxOutputBytes)
    {
      if data[i] == 128 {
        DecodeStopAt(data, i, result, maxOutputBytes, endOk);
        seenEod := true;
        break;
      }
      if data[i] < 128 {
        DecodeLiteralAt(data, i, result, maxOutputBytes, endOk);
        var count: nat := data[i] as int + 1;
        if i + 1 + count > |data| {
          return Err(InvalidData);
        }
        if count > SaturatingSub(maxOutputBytes, |result|) {
          return Err(DecompressionError);
        }
        result := result + data[i + 1..i + 1 + count];
        i := i + 1 + count;
      } else {
        DecodeRunAt(data, i, result, maxOutputBytes, endOk);
        var count: nat := 257 - data[i] as int;
        if i + 1 >= |data| {
          return Err(InvalidData);
        }
        var value := data[i + 1];
        if count > SaturatingSub(maxOutputBytes, |result|) {
          return Err(DecompressionError);
        }
        result := result + Repeat(value, count);
        i := i + 2;
      }
    }
    DecodeNothing(result, maxOutputBytes, endOk);
    assert !seenEod ==> data[i..] == [];
    if !seenEod && data != [] && data[|data| - 1] != 128 {
      return Err(InvalidData);
    }
    return Ok(result);
  }

  // ---------------------------------------------------------------- theorems

  lemma HeadOfWritten(c: Chunk, rest: seq<byte>)
    ensures Head(Written(c) + rest) == Next(c, rest)
  {
    var s := Written(c) + rest;
    match c
    case Run(count, value) => assert s[2..] == rest;
    case Literal(bytes) => assert s[1..1 + |bytes|] == bytes && s[1 + |bytes|..] == rest;
  }

  lemma WrittenHead(s: seq<byte>)
    requires s != [] && Head(s).Next?
    ensures s == Written(Head(s).chunk) + Head(s).rest
  {
  }

  /** The decoder's stopping rule at `rest`: an end byte, or the end of an input that may stop there. */
  predicate Stops(rest: seq<byte>, endOk: bool) {
    if rest == [] then endOk else rest[0] == 128
  }

  lemma DecodeOneChunk(c: Chunk, rest: seq<byte>, out: seq<byte>, limit: nat, endOk: bool)
    ensures DecodeRest(Written(c) + rest, out, limit, endOk) ==
      if |out| + |Meaning(c)| > limit then Err(DecompressionError)
      else DecodeRest(rest, out + Meaning(c), limit, endOk)
  {
    hide Head, Meaning, Written;
    HeadOfWritten(c, rest);
  }

  /** Decoding a chunk list yields its meaning, up to the limit, and goes on after it. */
  lemma {:induction false} DecodeChunks(cs: seq<Chunk>, rest: seq<byte>, out: seq<byte>, limit: nat, endOk: bool)
    requires |out| <= limit
    ensures DecodeRest(Serialise(cs) + rest, out, limit, endOk) ==
      if |out| + |Expand(cs)| > limit then Err(DecompressionError)
      else DecodeRest(rest, out + Expand(cs), limit, endOk)
  {
    hide DecodeRest, Meaning, Written;
    if cs == [] {
      assert [] + rest == rest && out + [] == out;
    } else {
      var c, more := cs[0], Serialise(cs[1..]) + rest;
      ConcatAssoc(Written(c), Serialise(cs[1..]), rest);
      ConcatAssoc(out, Meaning(c), Expand(cs[1..]));
      DecodeOneChunk(c, more, out, limit, endOk);
      if |out| + |Meaning(c)| <= limit {
        DecodeChunks(cs[1..], rest, out + Meaning(c), limit, endOk);
      }
    }
  }

  /** From the start of the input, with a stop after the chunks. */
  lemma DecodeFramed(cs: seq<Chunk>, rest: seq<byte>, limit: nat, endOk: bool)
    requires Stops(rest, endOk)
    ensures DecodeRest(Serialise(cs) + rest, [], limit, endOk) ==
      if |Expand(cs)| > limit then Err(DecompressionError) else Ok(Expand(cs))
  {
    DecodeChunks(cs, rest, [], limit, endOk);
    assert [] + Expand(cs) == Expand(cs);
  }

  /** An accepted input splits into chunks up to the stop. */
  lemma {:induction false} AcceptedSplits(s: seq<byte>, out: seq<byte>, limit: nat, endOk: bool)
    returns (cs: seq<Chunk>, rest: seq<byte>)
    requires DecodeRest(s, out, limit, endOk).Ok?
    ensures s == Serialise(cs) + rest && Stops(rest, endOk)
    decreases |s|
  {
    if s == [] || s[0] == 128 {
      cs, rest := [], s;
      assert [] + s == s;
    } else {
      var c, tail := Head(s).chunk, Head(s).rest;
      WrittenHead(s);
      var more;
      more, rest := AcceptedSplits(tail, out + Meaning(c), limit, endOk);
      cs := [c] + more;
      assert cs[0] == c && cs[1..] == more;
      assert Serialise(cs) == Written(c) + Serialise(more);
      ConcatAssoc(Written(c), Serialise(more), rest);
    }
  }

  /** What it means for `data` to be a framing of `out`. */
  ghost predicate Frames(data: seq<byte>, cs: seq<Chunk>, rest: seq<byte>, out: seq<byte>) {
    data == Serialise(cs) + rest && Stops(rest, MayStop(data)) && Expand(cs) == out
  }

  /** The decoder accepts exactly the framings of the bytes it returns that fit the limit. */
  lemma DecodeExactly(data: seq<byte>, limit: nat, out: seq<byte>)
    ensures Decoded(data, limit) == Ok(out) <==> |out| <= limit && exists cs, rest :: Frames(data, cs, rest, out)
  {
    hide DecodeRest, Serialise, Expand;
    if Decoded(data, limit) == Ok(out) {
      var cs, rest := AcceptedSplits(data, [], limit, MayStop(data));
      DecodeFramed(cs, rest, limit, MayStop(data));
      assert Frames(data, cs, rest, out);
    }
    if |out| <= limit && exists cs, rest :: Frames(data, cs, rest, out) {
      var cs, rest :| Frames(data, cs, rest, out);
      DecodeFramed(cs, rest, limit, MayStop(data));
    }
  }

  lemma ChunkMeansData(data: seq<byte>, i: nat)
    requires i < |data|
    ensures Meaning(ChunkAt(data, i)) == data[i..i + |Meaning(ChunkAt(data, i))|]
  {
    var c := ChunkAt(data, i);
    if c.Run? {
      assert SameBytes(data, i, c.count);
      assert Repeat(c.value, c.count) == data[i..i + c.count];
    }
  }

  lemma {:induction false} ChunksExpand(data: seq<byte>, i: nat)
    requires i <= |data|
    ensures Expand(ChunksFrom(data, i)) == data[i..]
    decreases |data| - i
  {
    hide ChunkAt, Meaning;
    if i < |data| {
      var c := ChunkAt(data, i);
      var j := i + |Meaning(c)|;
      ChunkMeansData(data, i);
      ChunksExpand(data, j);
      var more := ChunksFrom(data, j);
      assert ChunksFrom(data, i) == [c] + more;
      assert ([c] + more)[1..] == more;
      assert data[i..] == data[i..j] + data[j..];
    }
  }

  /** Round trip: with a limit of at least its length, any data survives encoding and decoding,
      whatever follows the end byte; with a smaller limit decoding is refused. */
  lemma RoundTrip(data: seq<byte>, limit: nat, trailing: seq<byte>)
    ensures Decoded(Compressed(data) + trailing, limit) == if |data| <= limit then Ok(data) else Err(DecompressionError)
  {
    hide Serialise, Expand, ChunksFrom, DecodeRest;
    var cs, rest := ChunksFrom(data, 0), [128] + trailing;
    ChunksExpand(data, 0);
    assert data[0..] == data;
    ConcatAssoc(Serialise(cs), [128], trailing);
    DecodeFramed(cs, rest, limit, MayStop(Compressed(data) + trailing));
  }

  function Cost(data: seq<byte>, i: nat): nat
    requires i <= |data|
  {
    |Serialise(ChunksFrom(data, i))|
  }

  lemma CostStep(data: seq<byte>, i: nat)
    requires i < |data|
    ensures Cost(data, i) == |Written(ChunkAt(data, i))| + Cost(data, i + |Meaning(ChunkAt(data, i))|)
  {
    hide ChunkAt, ChunksFrom, Serialise;
    ChunksStep(data, i);
  }

  /** What follows a short literal is a run. */
  lemma ShortLiteral(data: seq<byte>, i: nat)
    requires i < |data| && ChunkAt(data, i).Literal?
    ensures var n := |ChunkAt(data, i).bytes|; n == 128 || i + n == |data| || ChunkAt(data, i + n).Run?
  {
    var n := |ChunkAt(data, i).bytes|;
    if n < 128 && i + n < |data| {
      assert PairAt(data, i + n);
      assert RunFrom(data, i + n, 1) == RunFrom(data, i + n, 2);
    }
  }

  lemma CostEnd(data: seq<byte>)
    ensures Cost(data, |data|) == 0
  {
  }

  /** A literal shorter than 128 bytes ends the data or is followed by a run, so every three encoded
      bytes are paid for by four data bytes, up to two more at the end. */
  lemma {:induction false} CostBound(data: seq<byte>, i: nat)
    requires i <= |data|
    ensures 3 * Cost(data, i) <= 4 * (|data| - i) + 2
    decreases |data| - i
  {
    hide ChunkAt, Cost;
    if i == |data| {
      CostEnd(data);
    } else {
      var c := ChunkAt(data, i);
      var j := i + |Meaning(c)|;
      CostStep(data, i);
      if c.Literal? && |c.bytes| < 3 && j < |data| {
        ShortLiteral(data, i);
        CostStep(data, j);
        CostBound(data, j + |Meaning(ChunkAt(data, j))|);
      } else {
        CostBound(data, j);
      }
    }
  }

  /** Encoded size: at most a third more than the data, plus the end byte. */
  lemma EncodedSizeBound(data: seq<byte>)
    ensures |Compressed(data)| <= |data| + (|data| + 2) / 3 + 1
  {
    CostBound(data, 0);
  }

  lemma {:induction false} ExpandBound(cs: seq<Chunk>)
    ensures |Expand(cs)| <= 64 * |Serialise(cs)|
  {
    if cs != [] { ExpandBound(cs[1..]); }
  }

  /** Decoded size: at most 64 times the input. */
  lemma DecodedSizeBound(data: seq<byte>, limit: nat)
    requires Decoded(data, limit).Ok?
    ensures |Decoded(data, limit).value| <= 64 * |data| && |Decoded(data, limit).value| <= limit
  {
    DecodeExactly(data, limit, Decoded(data, limit).value);
    var cs, rest :| Frames(data, cs, rest, Decoded(data, limit).value);
    ExpandBound(cs);
  }
}
