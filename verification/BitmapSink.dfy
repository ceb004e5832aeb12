/** `PackedBitmapSink` (src/filters/jbig2.rs): pixels pushed singly, in chunks of eight, or up to the end
    of a line, packed most significant bit first. */
module BitmapSink {
  import opened Bits

  /** The byte whose leading bits are `bits`, as built by `current |= 1 << (7 - n)`. */
  function LeadingBits(bits: seq<bool>): (b: byte)
    requires |bits| <= 8
  {
    if bits == [] then 0
    else
      var n := |bits| - 1;
      var b := LeadingBits(bits[..n]);
      if bits[n] then SetBit(b, 7 - n) else b
  }

  /** The whole bytes of a bit string. */
  function Packed(bits: seq<bool>): (s: seq<byte>)
    requires |bits| % 8 == 0
    ensures |s| == |bits| / 8
  {
    if bits == [] then []
    else Packed(bits[..|bits| - 8]) + [LeadingBits(bits[|bits| - 8..])]
  }

  function Padded(bits: seq<bool>): (s: seq<bool>)
    ensures |s| % 8 == 0 && |bits| <= |s| < |bits| + 8
  {
    bits + Repeat(false, (8 - |bits| % 8) % 8)
  }

  const U32_MAX: nat := 0xFFFF_FFFF

  /** `chunk_count.saturating_mul(8)` */
  function ChunkPixels(count: nat): nat {
    if count * 8 <= U32_MAX then count * 8 else U32_MAX
  }

  class PackedBitmapSink {
    var data: seq<byte>
    var current: byte
    var bitsInCurrent: nat
    ghost var pushed: seq<bool>

    ghost predicate Valid()
      reads this
    {
      && bitsInCurrent < 8
      && |pushed| == 8 * |data| + bitsInCurrent
      && data == Packed(pushed[..8 * |data|])
      && current == LeadingBits(pushed[8 * |data|..])
    }

    constructor ()
      ensures Valid() && pushed == [] && data == []
    {
      data := [];
      current := 0;
      bitsInCurrent := 0;
      pushed := [];
    }

    method PushPixel(black: bool)
      requires Valid()
      modifies this
      ensures Valid() && pushed == old(pushed) + [black]
    {
      hide LeadingBits, Packed, SetBit;
      var n := 8 * |data|;
      LeadingBitsStep(pushed[n..], black);
      assert (pushed + [black])[n..] == pushed[n..] + [black] && (pushed + [black])[..n] == pushed[..n];
      if black {
        current := SetBit(current, 7 - bitsInCurrent);
      }
      pushed := pushed + [black];
      bitsInCurrent := bitsInCurrent + 1;
      if bitsInCurrent == 8 {
        PackedStep(pushed[..n], pushed[n..]);
        assert pushed[..n] + pushed[n..] == pushed == pushed[..n + 8] && pushed[n + 8..] == [];
        data := data + [current];
        current := 0;
        bitsInCurrent := 0;
        NoBits();
      }
    }

    method PushPixelChunk(black: bool, chunkCount: nat)
      requires Valid() && chunkCount <= U32_MAX
      modifies this
      ensures Valid()
      ensures pushed == old(pushed) + Repeat(black, if old(bitsInCurrent) == 0 then 8 * chunkCount else
        ChunkPixels(chunkCount))
    {
      hide LeadingBits, Packed, ChunkPixels;
      if bitsInCurrent == 0 {
        var n := 8 * |data|;
        assert pushed[..n] == pushed && pushed[n..] == [];
        PackedRepeat(pushed, black, chunkCount);
        var filler: byte := if black then 255 else 0;
        data := data + Repeat(filler, chunkCount);
        pushed := pushed + Repeat(black, 8 * chunkCount);
        assert pushed[..8 * |data|] == pushed && pushed[8 * |data|..] == [];
        NoBits();
      } else {
        var total := ChunkPixels(chunkCount);
        ghost var before := pushed;
        assert before + Repeat(black, 0) == before;
        for i := 0 to total
          invariant Valid() && pushed == before + Repeat(black, i)
        {
          PushPixel(black);
          assert before + Repeat(black, i) + [black] == before + Repeat(black, i + 1);
        }
      }
    }

    method NextLine()
      requires Valid()
      modifies this
      ensures Valid() && bitsInCurrent == 0 && pushed == Padded(old(pushed))
    {
      hide LeadingBits, Packed;
      var n := 8 * |data|;
      if bitsInCurrent != 0 {
        var rest := pushed[n..];
        var padding := Repeat(false, 8 - bitsInCurrent);
        LeadingBitsPadded(rest, 8 - bitsInCurrent);
        PackedStep(pushed[..n], rest + padding);
        assert pushed[..n] + (rest + padding) == pushed + padding;
        data := data + [current];
        current := 0;
        bitsInCurrent := 0;
        pushed := pushed + padding;
        assert pushed[..8 * |data|] == pushed && pushed[8 * |data|..] == [];
        NoBits();
      } else {
        assert pushed + [] == pushed;
      }
    }
  }

  lemma NoBits()
    ensures LeadingBits([]) == 0
  {
  }

  lemma LeadingBitsStep(bits: seq<bool>, b: bool)
    requires |bits| < 8
    ensures LeadingBits(bits + [b]) == if b then SetBit(LeadingBits(bits), 7 - |bits|) else LeadingBits(bits)
  {
    hide SetBit;
    assert (bits + [b])[..|bits|] == bits;
  }

  lemma PackedStep(bits: seq<bool>, last: seq<bool>)
    requires |bits| % 8 == 0 && |last| == 8
    ensures Packed(bits + last) == Packed(bits) + [LeadingBits(last)]
  {
    hide LeadingBits;
    assert (bits + last)[..|bits|] == bits && (bits + last)[|bits|..] == last;
  }

  lemma {:induction false} LeadingBitsPadded(bits: seq<bool>, n: nat)
    requires |bits| + n <= 8
    ensures LeadingBits(bits + Repeat(false, n)) == LeadingBits(bits)
  {
    hide LeadingBits;
    if n == 0 {
      assert bits + Repeat(false, n) == bits;
    } else {
      LeadingBitsPadded(bits, n - 1);
      LeadingBitsStep(bits + Repeat(false, n - 1), false);
      assert bits + Repeat(false, n) == bits + Repeat(false, n - 1) + [false];
    }
  }

  /** Eight equal pixels make the byte 255 or 0. */
  lemma {:induction false} LeadingOnes(n: nat)
    requires n <= 8
    ensures LeadingBits(Repeat(true, n)) == (Pow2(n) - 1) * Pow2(8 - n)
  {
    hide LeadingBits, Pow2, Or;
    if n == 0 {
      NoBits();
      assert Repeat(true, 0) == [];
      assert Pow2(0) == 1 by { PowerZero(); }
    } else {
      LeadingOnes(n - 1);
      assert Repeat(true, n) == Repeat(true, n - 1) + [true];
      LeadingBitsStep(Repeat(true, n - 1), true);
      var high := Pow2(n - 1) - 1;
      PowerStep(n - 1);
      PowerStep(8 - n);
      OrCommutes(high * Pow2(9 - n), Pow2(8 - n));
      OrDisjoint(Pow2(8 - n), high, 9 - n);
      assert high * (2 * Pow2(8 - n)) + Pow2(8 - n) == (2 * high + 1) * Pow2(8 - n);
    }
  }

  lemma PowerZero()
    ensures Pow2(0) == 1
  {
  }

  lemma PowerStep(n: nat)
    ensures Pow2(n + 1) == 2 * Pow2(n)
  {
  }

  lemma EqualPixels(black: bool)
    ensures LeadingBits(Repeat(black, 8)) == if black then 255 else 0
  {
    hide LeadingBits;
    if black {
      LeadingOnes(8);
      Pow2Eight();
    } else {
      NoBits();
      LeadingBitsPadded([], 8);
      assert [] + Repeat(false, 8) == Repeat(false, 8);
    }
  }

  lemma {:induction false} PackedRepeat(bits: seq<bool>, black: bool, count: nat)
    requires |bits| % 8 == 0
    ensures var filler: byte := if black then 255 else 0;
      Packed(bits + Repeat(black, 8 * count)) == Packed(bits) + Repeat(filler, count)
  {
    hide LeadingBits, Packed;
    var b: byte := if black then 255 else 0;
    if count == 0 {
      assert bits + Repeat(black, 0) == bits && Packed(bits) + Repeat(b, 0) == Packed(bits);
    } else {
      var front := bits + Repeat(black, 8 * (count - 1));
      PackedRepeat(bits, black, count - 1);
      PackedStep(front, Repeat(black, 8));
      EqualPixels(black);
      assert front + Repeat(black, 8) == bits + Repeat(black, 8 * count);
      assert Packed(bits) + Repeat(b, count - 1) + [b] == Packed(bits) + Repeat(b, count);
    }
  }

  // ---------------------------------------------------------------- any interleaving

  datatype Command = Pixel(black: bool) | Chunk(black: bool, count: nat) | EndLine

  /** The bits drawn after `bits` by one command. */
  function Drawn(bits: seq<bool>, c: Command): seq<bool> {
    match c
    case Pixel(black) => bits + [black]
    case Chunk(black, count) => bits + Repeat(black, if |bits| % 8 == 0 then 8 * count else ChunkPixels(count))
    case EndLine => Padded(bits)
  }

  function DrawnAll(bits: seq<bool>, cs: seq<Command>): seq<bool>
    decreases |cs|
  {
    if cs == [] then bits else DrawnAll(Drawn(bits, cs[0]), cs[1..])
  }

  /** The same drawing with every chunk replaced by its pixels. */
  function Singly(cs: seq<Command>): seq<Command> {
    if cs == [] then []
    else (if cs[0].Chunk? then Repeat(Pixel(cs[0].black), 8 * cs[0].count) else [cs[0]]) + Singly(cs[1..])
  }

  /** One command on the sink. */
  method Apply(sink: PackedBitmapSink, c: Command)
    requires sink.Valid() && (c.Chunk? ==> c.count <= U32_MAX)
    modifies sink
    ensures sink.Valid() && sink.pushed == Drawn(old(sink.pushed), c)
  {
    hide LeadingBits, Packed, ChunkPixels, Padded;
    match c {
      case Pixel(black) => sink.PushPixel(black);
      case Chunk(black, count) => sink.PushPixelChunk(black, count);
      case EndLine => sink.NextLine();
    }
  }

  /** Any run of commands, from a fresh sink. */
  method Replay(cs: seq<Command>) returns (sink: PackedBitmapSink)
    requires forall i :: 0 <= i < |cs| && cs[i].Chunk? ==> cs[i].count <= U32_MAX
    ensures fresh(sink) && sink.Valid() && sink.pushed == DrawnAll([], cs)
    ensures |sink.pushed| % 8 == 0 ==> sink.data == Packed(sink.pushed)
  {
    hide LeadingBits, Packed, DrawnAll, Drawn;
    sink := new PackedBitmapSink();
    assert cs[0..] == cs;
    for i := 0 to |cs|
      invariant fresh(sink) && sink.Valid() && DrawnAll(sink.pushed, cs[i..]) == DrawnAll([], cs)
    {
      DrawnFirst(sink.pushed, cs[i..]);
      assert cs[i..][1..] == cs[i + 1..];
      Apply(sink, cs[i]);
    }
    assert cs[|cs|..] == [];
    DrawnNothing(sink.pushed);
    assert |sink.pushed| % 8 == 0 ==> sink.pushed[..8 * |sink.data|] == sink.pushed;
  }

  lemma {:induction false} DrawnAppend(bits: seq<bool>, a: seq<Command>, b: seq<Command>)
    ensures DrawnAll(bits, a + b) == DrawnAll(DrawnAll(bits, a), b)
    decreases |a|
  {
    hide Drawn;
    if a == [] {
      assert a + b == b;
    } else {
      assert (a + b)[1..] == a[1..] + b;
      DrawnAppend(Drawn(bits, a[0]), a[1..], b);
    }
  }

  lemma {:induction false} DrawnPixels(bits: seq<bool>, black: bool, n: nat)
    ensures DrawnAll(bits, Repeat(Pixel(black), n)) == bits + Repeat(black, n)
    decreases n
  {
    var cs := Repeat(Pixel(black), n);
    if n == 0 {
      assert bits + Repeat(black, 0) == bits;
    } else {
      assert cs[1..] == Repeat(Pixel(black), n - 1);
      DrawnPixels(bits + [black], black, n - 1);
      assert bits + [black] + Repeat(black, n - 1) == bits + Repeat(black, n);
    }
  }

  /** A chunk draws the same as its pixels exactly when it starts on a byte boundary or is below 2^29. */
  lemma ChunkExactly(bits: seq<bool>, black: bool, count: nat)
    ensures Drawn(bits, Chunk(black, count)) == DrawnAll(bits, Repeat(Pixel(black), 8 * count)) <==>
      |bits| % 8 == 0 || count < 0x2000_0000
  {
    hide DrawnAll;
    DrawnPixels(bits, black, 8 * count);
    assert |bits + Repeat(black, ChunkPixels(count))| == |bits| + ChunkPixels(count);
  }

  /** Any interleaving of pixels, chunks and line ends draws what pushing every pixel singly draws. */
  lemma {:induction false} SinglySame(bits: seq<bool>, cs: seq<Command>)
    requires forall i :: 0 <= i < |cs| && cs[i].Chunk? ==> cs[i].count < 0x2000_0000
    ensures DrawnAll(bits, Singly(cs)) == DrawnAll(bits, cs)
    decreases |cs|
  {
    hide Padded, ChunkPixels, DrawnAll;
    if cs != [] {
      var first := if cs[0].Chunk? then Repeat(Pixel(cs[0].black), 8 * cs[0].count) else [cs[0]];
      DrawnAppend(bits, first, Singly(cs[1..]));
      DrawnFirst(bits, cs);
      if cs[0].Chunk? {
        ChunkExactly(bits, cs[0].black, cs[0].count);
      } else {
        DrawnFirst(bits, [cs[0]]);
        assert [cs[0]][1..] == [];
        DrawnNothing(Drawn(bits, cs[0]));
      }
      SinglySame(Drawn(bits, cs[0]), cs[1..]);
    }
  }

  lemma DrawnFirst(bits: seq<bool>, cs: seq<Command>)
    requires cs != []
    ensures DrawnAll(bits, cs) == DrawnAll(Drawn(bits, cs[0]), cs[1..])
  {
  }

  lemma DrawnNothing(bits: seq<bool>)
    ensures DrawnAll(bits, []) == bits
  {
  }

  // ---------------------------------------------------------------- whole bitmaps

  type Row = seq<bool>

  function RowCommands(row: Row): seq<Command> {
    seq(|row|, x requires 0 <= x < |row| => Pixel(row[x])) + [EndLine]
  }

  function BitmapCommands(rows: seq<Row>): seq<Command> {
    if rows == [] then [] else BitmapCommands(rows[..|rows| - 1]) + RowCommands(rows[|rows| - 1])
  }

  lemma {:induction false} RowDraws(bits: seq<bool>, row: Row, n: nat)
    requires n <= |row|
    ensures DrawnAll(bits, RowCommands(row)[..n]) == bits + row[..n]
  {
    hide DrawnAll;
    if n == 0 {
      DrawnNothing(bits);
      assert RowCommands(row)[..0] == [] && bits + row[..0] == bits;
    } else {
      RowDraws(bits, row, n - 1);
      var pixel := RowCommands(row)[n - 1];
      assert RowCommands(row)[..n] == RowCommands(row)[..n - 1] + [pixel];
      DrawnAppend(bits, RowCommands(row)[..n - 1], [pixel]);
      DrawnFirst(bits + row[..n - 1], [pixel]);
      assert [pixel][1..] == [];
      DrawnNothing(bits + row[..n - 1] + [row[n - 1]]);
      assert bits + row[..n - 1] + [row[n - 1]] == bits + row[..n];
    }
  }

  lemma PaddedAppend(bits: seq<bool>, row: Row)
    requires |bits| % 8 == 0
    ensures Padded(bits + row) == bits + Padded(row)
  {
    assert (|bits| + |row|) % 8 == |row| % 8;
  }

  lemma RowEnds(bits: seq<bool>, row: Row)
    requires |bits| % 8 == 0
    ensures DrawnAll(bits, RowCommands(row)) == bits + Padded(row)
  {
    hide DrawnAll, Padded;
    var cs := RowCommands(row);
    RowDraws(bits, row, |row|);
    assert cs == cs[..|row|] + [EndLine] && row[..|row|] == row;
    DrawnAppend(bits, cs[..|row|], [EndLine]);
    DrawnFirst(bits + row, [EndLine]);
    assert [EndLine][1..] == [];
    DrawnNothing(Padded(bits + row));
    PaddedAppend(bits, row);
  }

  /** The lines of a bitmap, each padded to whole bytes. */
  function BitmapBits(rows: seq<Row>): (bits: seq<bool>)
    ensures |bits| % 8 == 0
  {
    if rows == [] then [] else BitmapBits(rows[..|rows| - 1]) + Padded(rows[|rows| - 1])
  }

  lemma {:induction false} BitmapDraws(rows: seq<Row>)
    ensures DrawnAll([], BitmapCommands(rows)) == BitmapBits(rows)
  {
    hide DrawnAll, Padded, RowCommands;
    if rows == [] {
      DrawnNothing([]);
    } else {
      var front, last := rows[..|rows| - 1], rows[|rows| - 1];
      BitmapDraws(front);
      DrawnAppend([], BitmapCommands(front), RowCommands(last));
      RowEnds(BitmapBits(front), last);
    }
  }

  lemma {:induction false} ByteBits(bits: seq<bool>, i: nat)
    requires |bits| <= 8 && i < 8
    ensures Bit(LeadingBits(bits), 7 - i) == (i < |bits| && bits[i])
  {
    hide LeadingBits, Bit, Or;
    if bits == [] {
      NoBits();
      BitZero(7 - i);
    } else {
      var n := |bits| - 1;
      assert bits == bits[..n] + [bits[n]];
      LeadingBitsStep(bits[..n], bits[n]);
      ByteBits(bits[..n], i);
      OrBit(LeadingBits(bits[..n]), Pow2(7 - n), 7 - i);
      BitOfPow2(7 - n, 7 - i);
    }
  }

  /** Packing is most significant bit first. */
  lemma {:induction false} PackedBits(bits: seq<bool>, k: nat)
    requires |bits| % 8 == 0 && k < |bits|
    ensures Bit(Packed(bits)[k / 8], 7 - k % 8) == bits[k]
  {
    hide LeadingBits, Bit;
    var front, last := bits[..|bits| - 8], bits[|bits| - 8..];
    if k < |front| {
      PackedBits(front, k);
    } else {
      ByteBits(last, k - |front|);
      assert k / 8 == |front| / 8 && k % 8 == k - |front|;
    }
  }

  /** h lines of w pixels take exactly h * ceil(w / 8) bytes. */
  lemma {:induction false} BitmapLength(rows: seq<Row>, w: nat, stride: nat)
    requires stride == CeilDiv8(w) && forall y :: 0 <= y < |rows| ==> |rows[y]| == w
    ensures |BitmapBits(rows)| == 8 * (|rows| * stride)
  {
    hide Padded, CeilDiv8;
    if rows != [] {
      var h := |rows|;
      BitmapLength(rows[..h - 1], w, stride);
      PaddedLength(rows[h - 1]);
      OneMore(h - 1, stride);
    }
  }

  lemma OneMore(h: nat, stride: nat)
    ensures (h + 1) * stride == h * stride + stride
  {
  }

  lemma PaddedLength(row: Row)
    ensures |Padded(row)| == 8 * CeilDiv8(|row|)
  {
  }

  lemma {:induction false} BitmapBitAt(rows: seq<Row>, w: nat, stride: nat, x: nat, y: nat)
    requires stride == CeilDiv8(w) && forall y' :: 0 <= y' < |rows| ==> |rows[y']| == w
    requires x < w && y < |rows|
    ensures 8 * (y * stride) + x < |BitmapBits(rows)| && BitmapBits(rows)[8 * (y * stride) + x] == rows[y][x]
    decreases |rows|
  {
    hide CeilDiv8;
    var front := rows[..|rows| - 1];
    BitmapLength(front, w, stride);
    if y < |front| {
      BitmapBitAt(front, w, stride, x, y);
    }
  }

  /** The packed form of a bitmap drawn line by line. */
  ghost predicate PacksBitmap(bytes: seq<byte>, rows: seq<Row>, w: nat, stride: nat) {
    && |bytes| == |rows| * stride
    && forall y, x :: 0 <= y < |rows| && 0 <= x < w ==> PixelAt(bytes, y * stride, x, rows[y])
  }

  /** Pixel `x` of a line that starts at byte `start` is bit 7 - x % 8 of its byte x / 8. */
  predicate PixelAt(bytes: seq<byte>, start: nat, x: nat, row: Row) {
    x < |row| && start + x / 8 < |bytes| && Bit(bytes[start + x / 8], 7 - x % 8) == row[x]
  }

  /** Drawing the h lines of a bitmap gives h * ceil(w / 8) bytes, packed most significant bit first. */
  lemma BitmapPacked(rows: seq<Row>, w: nat, stride: nat)
    requires stride == CeilDiv8(w) && forall y :: 0 <= y < |rows| ==> |rows[y]| == w
    ensures var bits := DrawnAll([], BitmapCommands(rows));
      |bits| % 8 == 0 && PacksBitmap(Packed(bits), rows, w, stride)
  {
    hide DrawnAll, BitmapCommands, BitmapBits, Packed, CeilDiv8, PixelAt;
    BitmapDraws(rows);
    BitmapLength(rows, w, stride);
    var bits := BitmapBits(rows);
    forall y, x | 0 <= y < |rows| && 0 <= x < w ensures PixelAt(Packed(bits), y * stride, x, rows[y]) {
      BitmapBitAt(rows, w, stride, x, y);
      PixelPacked(bits, y * stride, x, rows[y]);
    }
  }

  lemma PixelPacked(bits: seq<bool>, start: nat, x: nat, row: Row)
    requires |bits| % 8 == 0 && x < |row| && 8 * start + x < |bits| && bits[8 * start + x] == row[x]
    ensures PixelAt(Packed(bits), start, x, row)
  {
    hide Packed, Bit;
    PackedBits(bits, 8 * start + x);
    assert (8 * start + x) / 8 == start + x / 8 && (8 * start + x) % 8 == x % 8;
  }
}
