/** TIFF predictor 2 as its coders define it, section 14 of TIFF 6.0: differences of components, not of bytes. When the
    decoder of src/filters/predictor.rs, which adds bytes, undoes them. */
module TiffComponents {
  import opened Bits
  import opened Predictor

  /** Each component minus that of the pixel before it, modulo the range of a component. */
  function Differences(v: seq<nat>, colors: nat, range: nat): (d: seq<nat>)
    requires range > 0 && InRange(v, range)
    ensures |d| == |v| && InRange(d, range)
  {
    seq(|v|, k requires 0 <= k < |v| => if k >= colors then (v[k] - v[k - colors]) % range else v[k])
  }

  predicate InRange(v: seq<nat>, range: nat) {
    forall k :: 0 <= k < |v| ==> v[k] < range
  }

  /** Bytes are differenced as the decoder has it: components of eight bits come back. */
  lemma BytesExactly(v: seq<byte>, colors: nat)
    requires colors >= 1
    ensures InRange(v, 256)
    ensures Differences(v, colors, 256) == FilterRow(1, colors, Repeat(0 as byte, |v|), v)
    ensures UnfilterRow(1, colors, Repeat(0 as byte, |v|), FilterRow(1, colors, Repeat(0 as byte, |v|), v)) == v
  {
    hide Unfiltered;
    var zeros := Repeat(0 as byte, |v|);
    UnfilterFilter(1, colors, zeros, v, |v|);
    assert v[..|v|] == v;
    forall k | 0 <= k < |v| ensures Differences(v, colors, 256)[k] == FilterRow(1, colors, zeros, v)[k] {
    }
  }

  // ---------------------------------------------------------------- components of sixteen bits

  /** Components of sixteen bits, the high byte first. */
  function Packed(v: seq<nat>): (s: seq<byte>)
    requires InRange(v, 65536)
    ensures |s| == 2 * |v|
  {
    seq(2 * |v|, i requires 0 <= i < 2 * |v| => if i % 2 == 0 then v[i / 2] / 256 else v[i / 2] % 256)
  }

  /** The difference of component `k` does not borrow from its high byte. */
  predicate Level(v: seq<nat>, colors: nat, k: nat)
    requires k < |v|
  {
    k >= colors ==> v[k] % 256 >= v[k - colors] % 256
  }

  predicate NoBorrow(v: seq<nat>, colors: nat) {
    forall k :: 0 <= k < |v| ==> Level(v, colors, k)
  }

  /** A number modulo 65536 in its two bytes. */
  lemma TwoBytes(x: int, low: nat, high: int)
    requires x == low + 256 * high && low < 256 && -256 <= high < 256
    ensures (x % 65536) % 256 == low && (x % 65536) / 256 == high % 256
  {
    var h := if high < 0 then high + 256 else high;
    assert x % 65536 == low + 256 * h;
    DivMod(low, h, 256);
  }

  lemma Borrow(a: nat, b: nat)
    requires a < 65536 && b < 65536
    ensures var d := (a - b) % 65536;
      && d % 256 == Subtract(a % 256, b % 256)
      && (d / 256 == Subtract(a / 256, b / 256) <==> a % 256 >= b % 256)
  {
    var a1, a0, b1, b0 := a / 256, a % 256, b / 256, b % 256;
    if a0 >= b0 {
      TwoBytes(a - b, a0 - b0, a1 - b1);
    } else {
      TwoBytes(a - b, a0 - b0 + 256, a1 - b1 - 1);
      assert (a1 - b1 - 1) % 256 != (a1 - b1) % 256;
    }
  }

  /** One byte of a coded row against the decoder's own differencing. */
  lemma ByteSame(v: seq<nat>, colors: nat, i: nat)
    requires InRange(v, 65536) && i < 2 * |v| && colors >= 1
    ensures Packed(Differences(v, colors, 65536))[i] ==
        FilterRow(1, 2 * colors, Repeat(0 as byte, 2 * |v|), Packed(v))[i]
      <==> i % 2 == 1 || Level(v, colors, i / 2)
  {
    hide Subtract, Paeth;
    var k := i / 2;
    if k >= colors {
      assert (i - 2 * colors) / 2 == k - colors && (i - 2 * colors) % 2 == i % 2;
      Borrow(v[k], v[k - colors]);
    } else {
      NothingSubtracted(v[k] / 256);
      NothingSubtracted(v[k] % 256);
    }
  }

  lemma NothingSubtracted(x: byte)
    ensures Subtract(x, 0) == x
  {
  }

  /** A row comes back from what was coded for it exactly when that is its own bytewise differencing. */
  lemma OnlyDifferences(bpp: nat, raw: seq<byte>, coded: seq<byte>)
    requires bpp >= 1 && |coded| == |raw|
    ensures var zeros := Repeat(0 as byte, |raw|);
      UnfilterRow(1, bpp, zeros, coded) == raw <==> coded == FilterRow(1, bpp, zeros, raw)
  {
    hide Unfiltered, FilterRow;
    var zeros := Repeat(0 as byte, |raw|);
    FilterUnfilter(1, bpp, zeros, coded);
    UnfilterFilter(1, bpp, zeros, raw, |raw|);
    assert raw[..|raw|] == raw;
  }

  /** A row of sixteen-bit components comes back exactly when none of its differences borrows. */
  lemma WordsExactly(v: seq<nat>, colors: nat)
    requires InRange(v, 65536) && colors >= 1
    ensures UnfilterRow(1, 2 * colors, Repeat(0 as byte, 2 * |v|), Packed(Differences(v, colors, 65536))) == Packed(v)
      <==> NoBorrow(v, colors)
  {
    hide UnfilterRow, FilterRow, Packed, Differences, Level;
    var coded, bytewise := Packed(Differences(v, colors, 65536)),
      FilterRow(1, 2 * colors, Repeat(0 as byte, 2 * |v|), Packed(v));
    OnlyDifferences(2 * colors, Packed(v), coded);
    forall i | 0 <= i < 2 * |v| ensures coded[i] == bytewise[i] <==> i % 2 == 1 || Level(v, colors, i / 2) {
      ByteSame(v, colors, i);
    }
    if NoBorrow(v, colors) {
      assert coded == bytewise;
    } else {
      var k :| 0 <= k < |v| && !Level(v, colors, k);
      assert (2 * k) / 2 == k;
      assert coded[2 * k] != bytewise[2 * k];
    }
  }

  // ---------------------------------------------------------------- whole data

  predicate Rectangle(rows: seq<seq<nat>>, n: nat) {
    forall r :: 0 <= r < |rows| ==> |rows[r]| == n && InRange(rows[r], 65536)
  }

  function AllPacked(rows: seq<seq<nat>>, n: nat): (s: seq<byte>)
    requires Rectangle(rows, n)
    ensures |s| == |rows| * (2 * n)
    decreases |rows|
  {
    if rows == [] then []
    else
      OneRowLess(|rows|, 2 * n);
      Packed(rows[0]) + AllPacked(rows[1..], n)
  }

  /** The coder's data. */
  function AllCoded(rows: seq<seq<nat>>, n: nat, colors: nat): (s: seq<byte>)
    requires Rectangle(rows, n)
    ensures |s| == |rows| * (2 * n)
    decreases |rows|
  {
    if rows == [] then []
    else
      OneRowLess(|rows|, 2 * n);
      Packed(Differences(rows[0], colors, 65536)) + AllCoded(rows[1..], n, colors)
  }

  predicate NoBorrows(rows: seq<seq<nat>>, colors: nat) {
    forall r :: 0 <= r < |rows| ==> NoBorrow(rows[r], colors)
  }

  lemma {:induction false} RowsExactly(rows: seq<seq<nat>>, n: nat, colors: nat)
    requires Rectangle(rows, n) && colors >= 1 && (rows != [] ==> (2 * n) % (2 * colors) == 0)
    ensures var r := TiffRows(AllCoded(rows, n, colors), |rows|, 2 * colors, 2 * n);
      |r| == |rows| * (2 * n) && (r == AllPacked(rows, n) <==> NoBorrows(rows, colors))
    decreases |rows|
  {
    hide TiffRows, UnfilterRow, Packed, Differences, NoBorrow;
    var data := AllCoded(rows, n, colors);
    if rows == [] {
      TiffRowsNone(data, 2 * colors, 2 * n);
    } else {
      var first, more := Packed(Differences(rows[0], colors, 65536)), AllCoded(rows[1..], n, colors);
      TiffRowsStep(data, |rows|, 2 * colors, 2 * n);
      assert data[..2 * n] == first && data[2 * n..] == more;
      RowsExactly(rows[1..], n, colors);
      WordsExactly(rows[0], colors);
      OneRowLess(|rows|, 2 * n);
      var head := UnfilterRow(1, 2 * colors, Repeat(0 as byte, 2 * n), first);
      SameParts(head, TiffRows(more, |rows| - 1, 2 * colors, 2 * n), Packed(rows[0]), AllPacked(rows[1..], n));
      BorrowsStep(rows, colors);
    }
  }

  lemma SameParts(a: seq<byte>, b: seq<byte>, c: seq<byte>, d: seq<byte>)
    requires |a| == |c|
    ensures a + b == c + d <==> a == c && b == d
  {
    if a + b == c + d {
      assert (a + b)[..|a|] == a && (c + d)[..|c|] == c;
      assert (a + b)[|a|..] == b && (c + d)[|c|..] == d;
    }
  }

  lemma BorrowsStep(rows: seq<seq<nat>>, colors: nat)
    requires rows != []
    ensures NoBorrows(rows, colors) <==> NoBorrow(rows[0], colors) && NoBorrows(rows[1..], colors)
  {
    hide NoBorrow;
    assert NoBorrows(rows, colors) ==> forall r :: 0 <= r < |rows| - 1 ==> rows[1..][r] == rows[r + 1];
    if NoBorrow(rows[0], colors) && NoBorrows(rows[1..], colors) {
      forall r | 0 <= r < |rows| ensures NoBorrow(rows[r], colors) {
        if r > 0 { assert rows[r] == rows[1..][r - 1]; }
      }
    }
  }

  lemma WideDimensions(d: PredictorDecoder)
    requires RowDimensions(d).Ok? && d.bitsPerComponent == 16
    ensures var n := d.columns as int * d.colors as int;
      && n > 0 && RowDimensions(d).value == Dimensions(2 * d.colors as int, 2 * n)
      && (2 * n) % (2 * d.colors as int) == 0
  {
    var colors: nat, columns: nat := d.colors, d.columns;
    assert columns * colors > 0;
    assert columns * colors * 16 == 8 * (2 * (columns * colors));
    assert 2 * (columns * colors) == columns * (2 * colors);
    DivMod(0, columns, 2 * colors);
  }

  /** Sixteen-bit components, any rows: what a TIFF coder makes of them is decoded back exactly when no difference
      borrows from its high byte. */
  lemma WideExactly(d: PredictorDecoder, rows: seq<seq<nat>>)
    requires RowDimensions(d).Ok? && d.bitsPerComponent == 16
    requires Rectangle(rows, d.columns as int * d.colors as int)
    ensures var n := d.columns as int * d.colors as int;
      DecodedTiff(d, AllCoded(rows, n, d.colors as int)) == Ok(AllPacked(rows, n)) <==>
        NoBorrows(rows, d.colors as int)
  {
    hide RowDimensions, TiffRows, AllCoded, AllPacked, NoBorrows;
    WideDimensions(d);
    var n := d.columns as int * d.colors as int;
    DivMod(0, |rows|, 2 * n);
    RowsExactly(rows, n, d.colors as int);
  }

  /** The pixels 0x00FF and 0x0100: their difference is 1, and the decoder makes 0x0000 of the second. */
  lemma WideLost()
    ensures InRange([255, 256], 65536) && !NoBorrow([255, 256], 1)
    ensures Packed(Differences([255, 256], 1, 65536)) == [0, 255, 0, 1]
    ensures UnfilterRow(1, 2, Repeat(0 as byte, 4), [0, 255, 0, 1]) == [0, 255, 0, 0]
  {
    hide UnfilterRow, Paeth;
    var v: seq<nat> := [255, 256];
    assert Differences(v, 1, 65536) == [255, 1];
    var raw, coded: seq<byte> := [0, 255, 0, 0], [0, 255, 0, 1];
    OnlyDifferences(2, raw, coded);
    forall i | 0 <= i < 4 ensures FilterRow(1, 2, Repeat(0 as byte, 4), raw)[i] == coded[i] {}
    assert !Level(v, 1, 1);
  }

  // ---------------------------------------------------------------- components of less than a byte

  /** Components of four bits, the first in the high half of its byte. */
  function PackedHalves(v: seq<nat>): (s: seq<byte>)
    requires InRange(v, 16) && |v| % 2 == 0
    ensures |s| == |v| / 2
  {
    seq(|v| / 2, i requires 0 <= i < |v| / 2 => 16 * v[2 * i] + v[2 * i + 1])
  }

  /** Components of less than a byte are not undone: the pixels 1, 2, 3, 4 of four bits come back as 1, 1, 2, 2. */
  lemma HalvesLost()
    ensures InRange([1, 2, 3, 4], 16) && InRange([1, 1, 1, 1], 16) && InRange([1, 1, 2, 2], 16)
    ensures Differences([1, 2, 3, 4], 1, 16) == [1, 1, 1, 1]
    ensures DecodedTiff(PredictorDecoder(Tiff, 1, 4, 4), PackedHalves([1, 1, 1, 1])) == Ok(PackedHalves([1, 1, 2, 2]))
    ensures PackedHalves([1, 1, 2, 2]) != PackedHalves([1, 2, 3, 4])
  {
    hide TiffRows, UnfilterRow, Paeth;
    var d, coded: seq<byte>, raw: seq<byte> := PredictorDecoder(Tiff, 1, 4, 4), [17, 17], [17, 34];
    assert PackedHalves([1, 1, 1, 1]) == coded && PackedHalves([1, 1, 2, 2]) == raw;
    assert PackedHalves([1, 2, 3, 4])[0] == 18;
    assert RowDimensions(d) == Ok(Dimensions(1, 2));
    TiffRowsStep(coded, 1, 1, 2);
    TiffRowsNone(coded[2..], 1, 2);
    OnlyDifferences(1, raw, coded);
    forall i | 0 <= i < 2 ensures FilterRow(1, 1, Repeat(0 as byte, 2), raw)[i] == coded[i] {}
    assert coded[..2] == coded && raw + [] == raw;
    assert |coded| / 2 == 1;
  }
}
