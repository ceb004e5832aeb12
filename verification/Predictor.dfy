/** The PNG and TIFF predictors of src/filters/predictor.rs, against the filters of section 6 of RFC 2083. */
module Predictor {
  import opened Bits

  datatype Kind = NoPredictor | Tiff | Png | PngOptimum

  datatype PredictorDecoder = PredictorDecoder(predictor: Kind, colors: byte, bitsPerComponent: byte, columns: nat)

  datatype Dimensions = Dimensions(bytesPerPixel: nat, bytesPerRow: nat)

  /** `row_dimensions`; with a 32-bit column count none of its products can overflow. */
  function RowDimensions(d: PredictorDecoder): (r: Result<Dimensions, FilterError>)
    ensures r.Ok? ==> 1 <= r.value.bytesPerPixel <= r.value.bytesPerRow
    ensures r.Ok? <==> d.colors > 0 && d.bitsPerComponent > 0 && d.columns > 0
  {
    var colors: int, bits: int := d.colors, d.bitsPerComponent;
    var pixelBits := colors * bits;
    var rowBits := d.columns * colors * bits;
    assert rowBits == d.columns * pixelBits;
    assert pixelBits > 0 <==> colors > 0 && bits > 0;
    assert d.columns >= 1 ==> rowBits >= pixelBits by { if d.columns >= 1 { AtLeast(d.columns, pixelBits); } }
    var bytesPerPixel := CeilDiv8(pixelBits);
    var bytesPerRow := CeilDiv8(rowBits);
    if bytesPerPixel == 0 || bytesPerRow == 0 then Err(InvalidData)
    else
      Ok(Dimensions(bytesPerPixel, bytesPerRow))
  }

  function Abs(x: int): nat {
    if x < 0 then -x else x
  }

  /** `paeth_predictor`. */
  function Paeth(a: byte, b: byte, c: byte): byte {
    var p := a as int + b as int - c as int;
    var pa, pb, pc := Abs(p - a as int), Abs(p - b as int), Abs(p - c as int);
    if pa <= pb && pa <= pc then a else if pb <= pc then b else c
  }

  /** The byte `bpp` places before `i`, or 0 at the start of the row. */
  function Before(row: seq<byte>, i: nat, bpp: nat): byte {
    if bpp <= i < |row| + bpp then row[i - bpp] else 0
  }

  /** What each filter type predicts from the byte to the left, above, and above left. */
  function Prediction(tag: byte, left: byte, up: byte, upLeft: byte): byte {
    if tag == 1 then left
    else if tag == 2 then up
    else if tag == 3 then (left as int + up as int) / 2
    else if tag == 4 then Paeth(left, up, upLeft)
    else 0
  }

  function PredictionAt(tag: byte, bpp: nat, prior: seq<byte>, row: seq<byte>, i: nat): byte
    requires i < |prior|
  {
    Prediction(tag, Before(row, i, bpp), prior[i], Before(prior, i, bpp))
  }

  function Add(a: byte, b: byte): byte {
    (a as int + b as int) % 256
  }

  function Subtract(a: byte, b: byte): byte {
    (a as int - b as int) % 256
  }

  /** The filter of the standard: raw bytes minus their predictions. */
  function FilterRow(tag: byte, bpp: nat, prior: seq<byte>, raw: seq<byte>): (filt: seq<byte>)
    requires |raw| == |prior|
    ensures |filt| == |raw|
  {
    seq(|raw|, i requires 0 <= i < |raw| => Subtract(raw[i], PredictionAt(tag, bpp, prior, raw, i)))
  }

  /** The first `n` decoded bytes of a row. */
  function Unfiltered(tag: byte, bpp: nat, prior: seq<byte>, filt: seq<byte>, n: nat): (raw: seq<byte>)
    requires n <= |filt| == |prior| && bpp >= 1
    ensures |raw| == n
  {
    if n == 0 then []
    else
      var raw := Unfiltered(tag, bpp, prior, filt, n - 1);
      raw + [Add(filt[n - 1], PredictionAt(tag, bpp, prior, raw, n - 1))]
  }

  function UnfilterRow(tag: byte, bpp: nat, prior: seq<byte>, filt: seq<byte>): (raw: seq<byte>)
    requires |filt| == |prior| && bpp >= 1
    ensures |raw| == |filt|
  {
    Unfiltered(tag, bpp, prior, filt, |filt|)
  }

  /** `rows` rows of a tag byte and filtered bytes, each decoded against the row before it. */
  function PngRows(data: seq<byte>, rows: nat, bpp: nat, prior: seq<byte>): (r: Result<seq<byte>, FilterError>)
    requires bpp >= 1 && |data| == rows * (|prior| + 1)
    decreases rows
  {
    if rows == 0 then Ok([])
    else
      var n := |prior| + 1;
      OneRowLess(rows, n);
      if data[0] > 4 then Err(InvalidData)
      else
        var row := UnfilterRow(data[0], bpp, prior, data[1..n]);
        var more := PngRows(data[n..], rows - 1, bpp, row);
        if more.Err? then more else Ok(row + more.value)
  }

  lemma OneRowLess(rows: nat, n: nat)
    requires rows > 0
    ensures rows * n - n == (rows - 1) * n >= 0
  {
  }

  /** `decode_png_predictor` as a function of the decoder's dimensions. */
  function DecodedPng(d: PredictorDecoder, data: seq<byte>): Result<seq<byte>, FilterError> {
    var dims := RowDimensions(d);
    if dims.Err? then Err(dims.error)
    else
      var n := dims.value.bytesPerRow + 1;
      if |data| % n != 0 then Err(InvalidData)
      else
        var zeros := Repeat(0 as byte, dims.value.bytesPerRow);
        PngRows(data, |data| / n, dims.value.bytesPerPixel, zeros)
  }

  // ---------------------------------------------------------------- the source's methods

  lemma UnfilteredStep(tag: byte, bpp: nat, prior: seq<byte>, filt: seq<byte>, n: nat)
    requires n < |filt| == |prior| && bpp >= 1
    ensures var raw := Unfiltered(tag, bpp, prior, filt, n);
      Unfiltered(tag, bpp, prior, filt, n + 1) == raw + [Add(filt[n], PredictionAt(tag, bpp, prior, raw, n))]
  {
  }

  lemma UnfilteredNone(tag: byte, bpp: nat, prior: seq<byte>, filt: seq<byte>)
    requires |filt| == |prior| && bpp >= 1
    ensures Unfiltered(tag, bpp, prior, filt, 0) == []
  {
  }

  /** Storing the next decoded byte in the row buffer. */
  lemma StoreNext(tag: byte, bpp: nat, prior: seq<byte>, filt: seq<byte>, row: seq<byte>, i: nat)
    requires i < |filt| == |prior| == |row| && bpp >= 1
    requires row[..i] == Unfiltered(tag, bpp, prior, filt, i)
    ensures var left: byte := if i >= bpp then row[i - bpp] else 0;
      var upLeft: byte := if i >= bpp then prior[i - bpp] else 0;
      row[i := Add(filt[i], Prediction(tag, left, prior[i], upLeft))][..i + 1] ==
        Unfiltered(tag, bpp, prior, filt, i + 1)
  {
    hide Unfiltered, Prediction, Add;
    UnfilteredStep(tag, bpp, prior, filt, i);
    var next := Add(filt[i], PredictionAt(tag, bpp, prior, row[..i], i));
    assert row[i := next][..i + 1] == row[..i] + [next];
  }

  /** With filter None, and in the first pixel with Sub, bytes are copied. */
  lemma {:induction false} CopiedBytes(tag: byte, bpp: nat, prior: seq<byte>, filt: seq<byte>, n: nat)
    requires n <= |filt| == |prior| && bpp >= 1
    requires tag == 0 || (tag == 1 && n <= bpp)
    ensures Unfiltered(tag, bpp, prior, filt, n) == filt[..n]
  {
    hide Unfiltered;
    if n == 0 {
      UnfilteredNone(tag, bpp, prior, filt);
    } else {
      CopiedBytes(tag, bpp, prior, filt, n - 1);
      UnfilteredStep(tag, bpp, prior, filt, n - 1);
      assert filt[..n] == filt[..n - 1] + [filt[n - 1]];
    }
  }

  /** The `match` on the tag byte: each arm fills `decodedRow` in place. */
  method DecodeRow(tag: byte, bpp: nat, prior: seq<byte>, rowData: seq<byte>, decodedRow: array<byte>)
    requires tag <= 4 && 1 <= bpp <= decodedRow.Length == |rowData| == |prior|
    modifies decodedRow
    ensures decodedRow[..] == UnfilterRow(tag, bpp, prior, rowData)
  {
    hide Unfiltered, Paeth, PredictionAt, Before;
    UnfilteredNone(tag, bpp, prior, rowData);
    var n := decodedRow.Length;
    match tag {
      case 0 =>
        CopiedBytes(tag, bpp, prior, rowData, n);
        forall i | 0 <= i < n { decodedRow[i] := rowData[i]; }
      case 1 =>
        CopiedBytes(tag, bpp, prior, rowData, bpp);
        forall i | 0 <= i < bpp { decodedRow[i] := rowData[i]; }
        for i := bpp to n
          invariant decodedRow[..i] == Unfiltered(tag, bpp, prior, rowData, i)
        {
          StoreNext(tag, bpp, prior, rowData, decodedRow[..], i);
          decodedRow[i] := (rowData[i] as int + decodedRow[i - bpp] as int) % 256;
        }
      case 2 =>
        for i := 0 to n
          invariant decodedRow[..i] == Unfiltered(tag, bpp, prior, rowData, i)
        {
          StoreNext(tag, bpp, prior, rowData, decodedRow[..], i);
          decodedRow[i] := (rowData[i] as int + prior[i] as int) % 256;
        }
      case 3 =>
        for i := 0 to n
          invariant decodedRow[..i] == Unfiltered(tag, bpp, prior, rowData, i)
        {
          StoreNext(tag, bpp, prior, rowData, decodedRow[..], i);
          var left: byte := if i >= bpp then decodedRow[i - bpp] else 0;
          var average := (left as int + prior[i] as int) / 2;
          decodedRow[i] := (rowData[i] as int + average) % 256;
        }
      case _ =>
        for i := 0 to n
          invariant decodedRow[..i] == Unfiltered(tag, bpp, prior, rowData, i)
        {
          StoreNext(tag, bpp, prior, rowData, decodedRow[..], i);
          var left: byte := if i >= bpp then decodedRow[i - bpp] else 0;
          var upLeft: byte := if i >= bpp then prior[i - bpp] else 0;
          decodedRow[i] := (rowData[i] as int + Paeth(left, prior[i], upLeft) as int) % 256;
        }
    }
    assert decodedRow[..] == decodedRow[..n];
  }

  lemma PngRowsStep(data: seq<byte>, rows: nat, bpp: nat, prior: seq<byte>)
    requires bpp >= 1 && |data| == rows * (|prior| + 1) && rows > 0
    ensures |prior| + 1 <= |data| && |data[|prior| + 1..]| == (rows - 1) * (|prior| + 1)
    ensures PngRows(data, rows, bpp, prior) ==
      if data[0] > 4 then Err(InvalidData)
      else
        var row := UnfilterRow(data[0], bpp, prior, data[1..|prior| + 1]);
        var more := PngRows(data[|prior| + 1..], rows - 1, bpp, row);
        if more.Err? then more else Ok(row + more.value)
  {
    hide UnfilterRow;
    OneRowLess(rows, |prior| + 1);
  }

  lemma PngRowsNone(data: seq<byte>, bpp: nat, prior: seq<byte>)
    requires bpp >= 1 && data == []
    ensures PngRows(data, 0, bpp, prior) == Ok([])
  {
  }

  /** The result of a run that has produced `result` and still has `rest` to come. */
  function Joined(result: seq<byte>, rest: Result<seq<byte>, FilterError>): Result<seq<byte>, FilterError> {
    if rest.Err? then rest else Ok(result + rest.value)
  }

  /** `decode_png_predictor`. */
  method DecodePngPredictor(d: PredictorDecoder, data: seq<byte>) returns (r: Result<seq<byte>, FilterError>)
    ensures r == DecodedPng(d, data)
  {
    hide PngRows, UnfilterRow;
    var dims := RowDimensions(d);
    if dims.Err? {
      return Err(dims.error);
    }
    var bpp, bytesPerRow := dims.value.bytesPerPixel, dims.value.bytesPerRow;
    var rowLength := bytesPerRow + 1;
    if |data| % rowLength != 0 {
      return Err(InvalidData);
    }
    var result: seq<byte> := [];
    var previousRow: seq<byte> := Repeat(0 as byte, bytesPerRow);
    var rows, rest := |data| / rowLength, data;
    assert |data| == rows * rowLength;
    ghost var all := DecodedPng(d, data);
    assert all.Ok? ==> [] + all.value == all.value;
    while rows > 0
      invariant |previousRow| == bytesPerRow && |rest| == rows * rowLength
      invariant Joined(result, PngRows(rest, rows, bpp, previousRow)) == all
    {
      PngRowsStep(rest, rows, bpp, previousRow);
      var predictorByte, rowData := rest[0], rest[1..rowLength];
      if predictorByte > 4 {
        return Err(InvalidData);
      }
      var decodedRow := new byte[bytesPerRow](_ => 0);
      DecodeRow(predictorByte, bpp, previousRow, rowData, decodedRow);
      ghost var more := PngRows(rest[rowLength..], rows - 1, bpp, decodedRow[..]);
      if more.Ok? { ConcatAssoc(result, decodedRow[..], more.value); }
      result := result + decodedRow[..];
      previousRow := decodedRow[..];
      rest := rest[rowLength..];
      rows := rows - 1;
    }
    PngRowsNone(rest, bpp, previousRow);
    assert result + [] == result;
    return Ok(result);
  }

  /** Rows of whole pixels as `decode_tiff_predictor` decodes them: every row like filter Sub. */
  function TiffRows(data: seq<byte>, rows: nat, bpp: nat, bpr: nat): seq<byte>
    requires bpp >= 1 && |data| == rows * bpr && (rows > 0 ==> bpr % bpp == 0)
    decreases rows
  {
    if rows == 0 then []
    else
      OneRowLess(rows, bpr);
      UnfilterRow(1, bpp, Repeat(0 as byte, bpr), data[..bpr]) + TiffRows(data[bpr..], rows - 1, bpp, bpr)
  }

  /** `decode_tiff_predictor` as a function; it stops in the first row that is not whole pixels. */
  function DecodedTiff(d: PredictorDecoder, data: seq<byte>): Result<seq<byte>, FilterError> {
    var dims := RowDimensions(d);
    if dims.Err? then Err(dims.error)
    else if |data| % dims.value.bytesPerRow != 0 then Err(InvalidData)
    else if data != [] && dims.value.bytesPerRow % dims.value.bytesPerPixel != 0 then Err(Panic)
    else
      SomeRows(|data|, dims.value.bytesPerRow);
      Ok(TiffRows(data, |data| / dims.value.bytesPerRow, dims.value.bytesPerPixel, dims.value.bytesPerRow))
  }

  lemma SomeRows(length: nat, n: nat)
    requires n >= 1 && length % n == 0
    ensures length == length / n * n && (length / n > 0 <==> length > 0)
  {
  }

  lemma TiffRowsStep(data: seq<byte>, rows: nat, bpp: nat, bpr: nat)
    requires bpp >= 1 && |data| == rows * bpr && rows > 0 && bpr % bpp == 0
    ensures bpr <= |data| && |data[bpr..]| == (rows - 1) * bpr
    ensures TiffRows(data, rows, bpp, bpr) ==
      UnfilterRow(1, bpp, Repeat(0 as byte, bpr), data[..bpr]) + TiffRows(data[bpr..], rows - 1, bpp, bpr)
  {
    hide UnfilterRow;
    OneRowLess(rows, bpr);
  }

  lemma TiffRowsNone(data: seq<byte>, bpp: nat, bpr: nat)
    requires bpp >= 1 && data == []
    ensures TiffRows(data, 0, bpp, bpr) == []
  {
  }

  /** The inner loop over one pixel's bytes; false where the source indexes past the row. */
  method DecodeTiffPixel(pixelSize: nat, row: seq<byte>, i: nat, decodedRow: array<byte>) returns (inside: bool)
    requires 1 <= pixelSize <= i < |row| == decodedRow.Length
    requires decodedRow[..i] == Unfiltered(1, pixelSize, Repeat(0 as byte, |row|), row, i)
    modifies decodedRow
    ensures inside <==> i + pixelSize <= |row|
    ensures inside ==>
      decodedRow[..i + pixelSize] == Unfiltered(1, pixelSize, Repeat(0 as byte, |row|), row, i + pixelSize)
  {
    hide Unfiltered, Paeth, PredictionAt, Before;
    ghost var prior := Repeat(0 as byte, |row|);
    for j := 0 to pixelSize
      invariant i + j <= |row| && decodedRow[..i + j] == Unfiltered(1, pixelSize, prior, row, i + j)
    {
      if i + j >= |row| {
        return false;
      }
      StoreNext(1, pixelSize, prior, row, decodedRow[..], i + j);
      decodedRow[i + j] := (row[i + j] as int + decodedRow[i + j - pixelSize] as int) % 256;
    }
    return true;
  }

  /** One TIFF row: the first pixel copied, then pixel after pixel; false where the source indexes past the row,
      which is exactly when the row is not whole pixels. */
  method DecodeTiffRow(pixelSize: nat, row: seq<byte>, decodedRow: array<byte>) returns (inside: bool)
    requires 1 <= pixelSize <= |row| == decodedRow.Length
    modifies decodedRow
    ensures inside <==> |row| % pixelSize == 0
    ensures inside ==> decodedRow[..] == UnfilterRow(1, pixelSize, Repeat(0 as byte, |row|), row)
  {
    hide Unfiltered;
    ghost var prior := Repeat(0 as byte, |row|);
    CopiedBytes(1, pixelSize, prior, row, pixelSize);
    forall i | 0 <= i < pixelSize { decodedRow[i] := row[i]; }
    var i := pixelSize;
    ghost var done := 1;
    while i < |row|
      invariant pixelSize <= i == done * pixelSize <= |row|
      invariant decodedRow[..i] == Unfiltered(1, pixelSize, prior, row, i)
    {
      var whole := DecodeTiffPixel(pixelSize, row, i, decodedRow);
      if !whole {
        DivMod(|row| - i, done, pixelSize);
        return false;
      }
      i := i + pixelSize;
      done := done + 1;
    }
    DivMod(0, done, pixelSize);
    assert decodedRow[..] == decodedRow[..|row|];
    return true;
  }

  /** The source indexes past a row whose length is not a whole number of pixels; it never starts on one
      when there are no rows or the data is not whole rows. */
  predicate RowsIndexable(d: PredictorDecoder, data: seq<byte>) {
    var dims := RowDimensions(d);
    dims.Ok? && data != [] && |data| % dims.value.bytesPerRow == 0 ==>
      dims.value.bytesPerRow % dims.value.bytesPerPixel == 0
  }

  /** `decode_tiff_predictor`. */
  method DecodeTiffPredictor(d: PredictorDecoder, data: seq<byte>) returns (r: Result<seq<byte>, FilterError>)
    ensures r == DecodedTiff(d, data)
    ensures r == Err(Panic) <==> !RowsIndexable(d, data)
  {
    hide UnfilterRow, TiffRows;
    var dims := RowDimensions(d);
    if dims.Err? {
      return Err(dims.error);
    }
    var bpp, bpr := dims.value.bytesPerPixel, dims.value.bytesPerRow;
    if |data| % bpr != 0 {
      return Err(InvalidData);
    }
    var result: seq<byte> := [];
    var rows, rest := |data| / bpr, data;
    SomeRows(|data|, bpr);
    ghost var whole := data == [] || bpr % bpp == 0;
    ghost var all := if whole then TiffRows(data, rows, bpp, bpr) else [];
    assert [] + all == all;
    while rows > 0
      invariant |rest| == rows * bpr && (rows > 0 ==> data != [])
      invariant whole || (rest == data && rows > 0)
      invariant whole ==> result + TiffRows(rest, rows, bpp, bpr) == all
    {
      OneRowLess(rows, bpr);
      var decodedRow := new byte[bpr](_ => 0);
      var inside := DecodeTiffRow(bpp, rest[..bpr], decodedRow);
      if !inside {
        return Err(Panic);
      }
      TiffRowsStep(rest, rows, bpp, bpr);
      ConcatAssoc(result, decodedRow[..], TiffRows(rest[bpr..], rows - 1, bpp, bpr));
      result := result + decodedRow[..];
      rest := rest[bpr..];
      rows := rows - 1;
    }
    TiffRowsNone(rest, bpp, bpr);
    assert result + [] == result;
    return Ok(result);
  }

  /** A decoder that stops: three components of four bits in rows of three pixels, one row of data. */
  lemma TiffPanic()
    ensures DecodedTiff(PredictorDecoder(Tiff, 3, 4, 3), [1, 2, 3, 4, 5]) == Err(Panic)
  {
    hide TiffRows;
    assert RowDimensions(PredictorDecoder(Tiff, 3, 4, 3)) == Ok(Dimensions(2, 5));
  }

  lemma RowOfPixels(d: PredictorDecoder)
    requires RowDimensions(d).Ok? && d.colors as int * d.bitsPerComponent as int % 8 == 0
    ensures RowDimensions(d).value.bytesPerRow % RowDimensions(d).value.bytesPerPixel == 0
  {
    var colors: int, bits: int := d.colors, d.bitsPerComponent;
    var pixel := colors * bits / 8;
    var columns := d.columns;
    assert columns * colors * bits == columns * (colors * bits);
    assert colors * bits == 8 * pixel;
    assert columns * (8 * pixel) == 8 * (columns * pixel);
    DivMod(0, columns, pixel);
  }

  /** Pixels of whole bytes, and pixels within one byte, always divide the row. */
  lemma WholePixels(d: PredictorDecoder, data: seq<byte>)
    requires d.colors as int * d.bitsPerComponent as int % 8 == 0 || d.colors as int * d.bitsPerComponent as int <= 8
    ensures RowsIndexable(d, data)
  {
    if RowDimensions(d).Ok? {
      if d.colors as int * d.bitsPerComponent as int % 8 == 0 {
        RowOfPixels(d);
      } else {
        assert RowDimensions(d).value.bytesPerPixel == 1;
      }
    }
  }

  /** `PredictorDecoder::decode` as a function. */
  function Decoded(d: PredictorDecoder, data: seq<byte>): Result<seq<byte>, FilterError> {
    match d.predictor
    case NoPredictor => Ok(data)
    case Tiff => DecodedTiff(d, data)
    case Png => DecodedPng(d, data)
    case PngOptimum => DecodedPng(d, data)
  }

  /** `PredictorDecoder::decode`. */
  method Decode(d: PredictorDecoder, data: seq<byte>) returns (r: Result<seq<byte>, FilterError>)
    ensures r == Decoded(d, data)
  {
    match d.predictor {
      case NoPredictor => r := Ok(data);
      case Tiff => r := DecodeTiffPredictor(d, data);
      case Png => r := DecodePngPredictor(d, data);
      case PngOptimum => r := DecodePngPredictor(d, data);
    }
  }

  // ---------------------------------------------------------------- theorems

  /** `paeth_predictor` picks the neighbour nearest to `a + b - c`, ties broken in the order a, b, c. */
  lemma PaethNearest(a: byte, b: byte, c: byte)
    ensures var p, r := a as int + b as int - c as int, Paeth(a, b, c);
      var d := Abs(p - r as int);
      && (r == a || r == b || r == c)
      && d <= Abs(p - a as int) && d <= Abs(p - b as int) && d <= Abs(p - c as int)
      && (r != a ==> d < Abs(p - a as int))
      && (r != a && r != b ==> d < Abs(p - b as int))
  {
  }

  /** The byte to the left of place `i`, a pixel before it, or 0 at the start of the row. */
  function Left(row: seq<byte>, i: nat, bpp: nat): byte
    requires i < |row|
  {
    if i >= bpp then row[i - bpp] else 0
  }

  /** Section 6 of RFC 2083, byte by byte: what the filter takes off a byte, modulo 256, is nothing, the byte to the
      left, the byte above, their mean rounded down, or of the three neighbours the one nearest to left + above - above
      left. */
  lemma FilteredByte(tag: byte, bpp: nat, prior: seq<byte>, raw: seq<byte>, i: nat)
    requires i < |raw| == |prior| && bpp >= 1
    ensures var a: int, b: int, c: int := Left(raw, i, bpp), prior[i], Left(prior, i, bpp);
      var p := (raw[i] as int - FilterRow(tag, bpp, prior, raw)[i] as int) % 256;
      && (tag == 0 ==> p == 0) && (tag == 1 ==> p == a) && (tag == 2 ==> p == b)
      && (tag == 3 ==> 2 * p <= a + b < 2 * p + 2)
      && (tag == 4 ==>
            && (p == a || p == b || p == c)
            && Abs(a + b - c - p) <= Abs(b - c) && Abs(a + b - c - p) <= Abs(a - c)
            && Abs(a + b - c - p) <= Abs(a + b - c - c))
  {
    hide Paeth, Abs;
    var a, b, c := Left(raw, i, bpp), prior[i], Left(prior, i, bpp);
    var p: byte := PredictionAt(tag, bpp, prior, raw, i);
    PaethNearest(a, b, c);
    TakenOff(raw[i], p);
  }

  lemma TakenOff(x: byte, p: byte)
    ensures (x as int - Subtract(x, p) as int) % 256 == p as int
  {
    var a: int, b: int := x, p;
    assert (a - b) % 256 == if a >= b then a - b else a - b + 256;
  }

  /** A pixel is as many bytes as its components need bits for, and so is a row. */
  lemma DimensionsExactly(d: PredictorDecoder)
    requires RowDimensions(d).Ok?
    ensures var pixel, row := d.colors as int * d.bitsPerComponent as int,
        d.columns * d.colors as int * d.bitsPerComponent as int;
      && pixel <= 8 * RowDimensions(d).value.bytesPerPixel < pixel + 8
      && row <= 8 * RowDimensions(d).value.bytesPerRow < row + 8
  {
  }

  lemma AddSubtract(x: byte, p: byte)
    ensures Add(Subtract(x, p), p) == x && Subtract(Add(x, p), p) == x
  {
    var a: int, b: int := x, p;
    if a >= b {
      assert (a - b) % 256 == a - b;
    } else {
      assert (a - b) % 256 == a - b + 256;
    }
    if a + b < 256 {
      assert (a + b) % 256 == a + b;
    } else {
      assert (a + b) % 256 == a + b - 256;
    }
  }

  /** Decoding a filtered row gives the row back. */
  lemma {:induction false} UnfilterFilter(tag: byte, bpp: nat, prior: seq<byte>, raw: seq<byte>, n: nat)
    requires n <= |raw| == |prior| && bpp >= 1
    ensures Unfiltered(tag, bpp, prior, FilterRow(tag, bpp, prior, raw), n) == raw[..n]
  {
    hide Prediction, Unfiltered, Add, Subtract;
    var filt := FilterRow(tag, bpp, prior, raw);
    if n == 0 {
      UnfilteredNone(tag, bpp, prior, filt);
    } else {
      UnfilterFilter(tag, bpp, prior, raw, n - 1);
      UnfilteredStep(tag, bpp, prior, filt, n - 1);
      SamePrediction(tag, bpp, prior, raw, n - 1);
      AddSubtract(raw[n - 1], PredictionAt(tag, bpp, prior, raw, n - 1));
      assert raw[..n] == raw[..n - 1] + [raw[n - 1]];
    }
  }

  /** A prediction needs only the bytes before its place. */
  lemma SamePrediction(tag: byte, bpp: nat, prior: seq<byte>, raw: seq<byte>, i: nat)
    requires i < |raw| == |prior| && bpp >= 1
    ensures PredictionAt(tag, bpp, prior, raw[..i], i) == PredictionAt(tag, bpp, prior, raw, i)
  {
    hide Prediction;
  }

  lemma {:induction false} UnfilteredPrefix(tag: byte, bpp: nat, prior: seq<byte>, filt: seq<byte>, i: nat, n: nat)
    requires i <= n <= |filt| == |prior| && bpp >= 1
    ensures Unfiltered(tag, bpp, prior, filt, n)[..i] == Unfiltered(tag, bpp, prior, filt, i)
    decreases n
  {
    hide Unfiltered, PredictionAt;
    if i < n {
      UnfilteredPrefix(tag, bpp, prior, filt, i, n - 1);
      UnfilteredStep(tag, bpp, prior, filt, n - 1);
      assert Unfiltered(tag, bpp, prior, filt, n)[..i] == Unfiltered(tag, bpp, prior, filt, n - 1)[..i];
    }
  }

  /** Filtering a decoded row with its tag gives back what was decoded. */
  lemma FilterUnfilter(tag: byte, bpp: nat, prior: seq<byte>, filt: seq<byte>)
    requires |filt| == |prior| && bpp >= 1
    ensures FilterRow(tag, bpp, prior, UnfilterRow(tag, bpp, prior, filt)) == filt
  {
    hide Unfiltered, PredictionAt, Add, Subtract;
    var raw := UnfilterRow(tag, bpp, prior, filt);
    forall i | 0 <= i < |filt| ensures FilterRow(tag, bpp, prior, raw)[i] == filt[i] {
      var before := Unfiltered(tag, bpp, prior, filt, i);
      UnfilteredPrefix(tag, bpp, prior, filt, i, |filt|);
      UnfilteredPrefix(tag, bpp, prior, filt, i + 1, |filt|);
      UnfilteredStep(tag, bpp, prior, filt, i);
      assert raw[i] == raw[..i + 1][i];
      SamePrediction(tag, bpp, prior, raw, i);
      AddSubtract(filt[i], PredictionAt(tag, bpp, prior, raw, i));
    }
  }

  /** The standard's encoding of rows of `|prior|` bytes with one tag each. */
  function Filtered(raw: seq<byte>, tags: seq<byte>, bpp: nat, prior: seq<byte>): (data: seq<byte>)
    requires |raw| == |tags| * |prior|
    ensures |data| == |tags| * (|prior| + 1)
    decreases |tags|
  {
    if tags == [] then []
    else
      OneRowLess(|tags|, |prior|);
      OneRowLess(|tags|, |prior| + 1);
      var n := |prior|;
      ([tags[0]] + FilterRow(tags[0], bpp, prior, raw[..n])) + Filtered(raw[n..], tags[1..], bpp, raw[..n])
  }

  lemma FilteredFirst(raw: seq<byte>, tags: seq<byte>, bpp: nat, prior: seq<byte>)
    requires |raw| == |tags| * |prior| && tags != []
    ensures var n, data := |prior|, Filtered(raw, tags, bpp, prior);
      && n <= |raw| && |raw[n..]| == (|tags| - 1) * n && n + 1 <= |data|
      && data[0] == tags[0] && data[1..n + 1] == FilterRow(tags[0], bpp, prior, raw[..n])
      && data[n + 1..] == Filtered(raw[n..], tags[1..], bpp, raw[..n])
  {
    hide FilterRow;
    OneRowLess(|tags|, |prior|);
    OneRowLess(|tags|, |prior| + 1);
  }

  /** Where row `r` of so many is, among rows of `n` bytes. */
  lemma RowPlace(r: nat, rows: nat, n: nat)
    requires r < rows
    ensures 0 <= r * n && r * n + n <= rows * n && (r > 0 ==> r * n == n + (r - 1) * n)
  {
    assert rows * n == r * n + n + (rows - r - 1) * n;
  }

  /** The row before the one that starts at `from`, the first row having `prior` before it. */
  function RowAbove(raw: seq<byte>, prior: seq<byte>, from: nat): (above: seq<byte>)
    requires from <= |raw|
    ensures |above| == |prior|
  {
    if from < |prior| || from == 0 then prior else raw[from - |prior|..from]
  }

  /** At `at` stands a tag, and behind it the bytes from `from` on, filtered against the row before them. */
  predicate RowEncoded(data: seq<byte>, at: nat, raw: seq<byte>, from: nat, prior: seq<byte>, tag: byte, bpp: nat) {
    var n := |prior|;
    && at + n + 1 <= |data| && from + n <= |raw| && data[at] == tag
    && data[at + 1..at + n + 1] == FilterRow(tag, bpp, RowAbove(raw, prior, from), raw[from..from + n])
  }

  lemma RowEncodedAfter(data: seq<byte>, at: nat, raw: seq<byte>, from: nat, prior: seq<byte>, tag: byte, bpp: nat)
    requires |prior| < |data| && |prior| <= |raw| && (from == 0 || from >= |prior|)
    requires RowEncoded(data[|prior| + 1..], at, raw[|prior|..], from, raw[..|prior|], tag, bpp)
    ensures RowEncoded(data, |prior| + 1 + at, raw, |prior| + from, prior, tag, bpp)
  {
    hide FilterRow;
    var n := |prior|;
    assert data[n + 1..][at + 1..at + n + 1] == data[n + 1 + at + 1..n + 1 + at + n + 1];
    assert raw[n..][from..from + n] == raw[n + from..n + from + n];
    assert RowAbove(raw[n..], raw[..n], from) == RowAbove(raw, prior, n + from) by {
      if from >= n && from > 0 { assert raw[n..][from - n..from] == raw[from..n + from]; }
    }
  }

  /** Row `r` of the encoding: its tag, and its bytes filtered against those of the row before it, the first row against
      the given one. */
  lemma {:induction false} FilteredRow(raw: seq<byte>, tags: seq<byte>, bpp: nat, prior: seq<byte>, r: nat)
    requires |raw| == |tags| * |prior| && r < |tags|
    ensures RowEncoded(Filtered(raw, tags, bpp, prior), r * (|prior| + 1), raw, r * |prior|, prior, tags[r], bpp)
    decreases r
  {
    hide FilterRow, Filtered, RowEncoded;
    var n, data := |prior|, Filtered(raw, tags, bpp, prior);
    FilteredFirst(raw, tags, bpp, prior);
    if r == 0 {
      FirstEncoded(data, raw, prior, tags[0], bpp);
    } else {
      FilteredRow(raw[n..], tags[1..], bpp, raw[..n], r - 1);
      RowPlace(r, |tags|, n);
      RowPlace(r, |tags|, n + 1);
      NoneOrWhole(r - 1, n);
      RowEncodedAfter(data, (r - 1) * (n + 1), raw, (r - 1) * n, prior, tags[r], bpp);
    }
  }

  lemma FirstEncoded(data: seq<byte>, raw: seq<byte>, prior: seq<byte>, tag: byte, bpp: nat)
    requires |prior| < |data| && |prior| <= |raw| && data[0] == tag
    requires data[1..|prior| + 1] == FilterRow(tag, bpp, prior, raw[..|prior|])
    ensures RowEncoded(data, 0, raw, 0, prior, tag, bpp)
  {
    hide FilterRow;
    assert raw[0..0 + |prior|] == raw[..|prior|];
  }

  lemma NoneOrWhole(r: nat, n: nat)
    ensures r * n == 0 || r * n >= n
  {
    if r > 0 { OneRowLess(r, n); }
  }

  predicate Known(tags: seq<byte>) {
    forall i :: 0 <= i < |tags| ==> tags[i] <= 4
  }

  /** PNG predictor inverse: for any rows and any choice of filter per row, decoding the filtered rows
      gives the rows back. */
  lemma {:induction false} PngInverse(raw: seq<byte>, tags: seq<byte>, bpp: nat, prior: seq<byte>)
    requires |raw| == |tags| * |prior| && bpp >= 1 && Known(tags)
    ensures PngRows(Filtered(raw, tags, bpp, prior), |tags|, bpp, prior) == Ok(raw)
    decreases |tags|
  {
    hide PngRows, FilterRow, Unfiltered, PredictionAt;
    var data := Filtered(raw, tags, bpp, prior);
    if tags == [] {
      PngRowsNone(data, bpp, prior);
    } else {
      OneRowLess(|tags|, |prior|);
      var n := |prior|;
      var filt := FilterRow(tags[0], bpp, prior, raw[..n]);
      PngRowsStep(data, |tags|, bpp, prior);
      assert data[1..n + 1] == filt;
      assert data[n + 1..] == Filtered(raw[n..], tags[1..], bpp, raw[..n]);
      UnfilterFilter(tags[0], bpp, prior, raw[..n], n);
      assert raw[..n][..n] == raw[..n];
      PngInverse(raw[n..], tags[1..], bpp, raw[..n]);
      assert raw[..n] + raw[n..] == raw;
    }
  }

  /** The tag bytes of encoded rows. */
  function TagsOf(data: seq<byte>, rows: nat, n: nat): (tags: seq<byte>)
    requires |data| == rows * n && n >= 1
    ensures |tags| == rows
    decreases rows
  {
    if rows == 0 then []
    else
      OneRowLess(rows, n);
      [data[0]] + TagsOf(data[n..], rows - 1, n)
  }

  /** The other way round: decoding succeeds exactly when every tag is known, and filtering the decoded
      rows with the same tags gives the encoded data back. */
  lemma {:induction false} PngInverseBack(data: seq<byte>, rows: nat, bpp: nat, prior: seq<byte>)
    requires bpp >= 1 && |data| == rows * (|prior| + 1)
    ensures var r, tags := PngRows(data, rows, bpp, prior), TagsOf(data, rows, |prior| + 1);
      && (r.Ok? <==> Known(tags))
      && (r.Ok? ==> |r.value| == rows * |prior| && Filtered(r.value, tags, bpp, prior) == data)
    decreases rows
  {
    hide PngRows, FilterRow, Unfiltered;
    if rows == 0 {
      PngRowsNone(data, bpp, prior);
    } else {
      var n := |prior|;
      PngRowsStep(data, rows, bpp, prior);
      OneRowLess(rows, n);
      var filt := data[1..n + 1];
      var row := UnfilterRow(data[0], bpp, prior, filt);
      PngInverseBack(data[n + 1..], rows - 1, bpp, row);
      FilterUnfilter(data[0], bpp, prior, filt);
      var r, tags := PngRows(data, rows, bpp, prior), TagsOf(data, rows, n + 1);
      assert tags[1..] == TagsOf(data[n + 1..], rows - 1, n + 1);
      KnownStep(tags);
      if r.Ok? {
        assert r.value[..n] == row && r.value[n..] == PngRows(data[n + 1..], rows - 1, bpp, row).value;
        assert [data[0]] + filt == data[..n + 1];
        assert data[..n + 1] + data[n + 1..] == data;
      }
    }
  }

  lemma KnownStep(tags: seq<byte>)
    requires tags != []
    ensures Known(tags) <==> tags[0] <= 4 && Known(tags[1..])
  {
    if tags[0] <= 4 && Known(tags[1..]) {
      forall i | 0 <= i < |tags| ensures tags[i] <= 4 { if i > 0 { assert tags[i] == tags[1..][i - 1]; } }
    }
  }

  /** The whole decoder: it returns `raw` exactly for the standard's encodings of `raw` with its dimensions. */
  lemma PngDecodesExactly(d: PredictorDecoder, data: seq<byte>, raw: seq<byte>)
    requires RowDimensions(d).Ok?
    ensures var bpp, bpr := RowDimensions(d).value.bytesPerPixel, RowDimensions(d).value.bytesPerRow;
      DecodedPng(d, data) == Ok(raw) <==>
        exists tags :: Known(tags) && |raw| == |tags| * bpr && data == Filtered(raw, tags, bpp, Repeat(0 as byte, bpr))
  {
    hide PngRows, Filtered, Known, RowDimensions;
    var bpp, bpr := RowDimensions(d).value.bytesPerPixel, RowDimensions(d).value.bytesPerRow;
    var zeros := Repeat(0 as byte, bpr);
    var rows := |data| / (bpr + 1);
    if DecodedPng(d, data) == Ok(raw) {
      assert |data| == rows * (bpr + 1);
      PngInverseBack(data, rows, bpp, zeros);
      var tags := TagsOf(data, rows, bpr + 1);
      assert Known(tags) && |raw| == |tags| * bpr && data == Filtered(raw, tags, bpp, zeros);
    }
    if tags :| Known(tags) && |raw| == |tags| * bpr && data == Filtered(raw, tags, bpp, zeros) {
      PngInverse(raw, tags, bpp, zeros);
      DivMod(0, |tags|, bpr + 1);
    }
  }

  /** Bytewise differencing of rows, which for components of eight bits is that of TIFF, and its inverse. */
  function TiffFiltered(raw: seq<byte>, rows: nat, bpp: nat, bpr: nat): (data: seq<byte>)
    requires |raw| == rows * bpr
    ensures |data| == |raw|
    decreases rows
  {
    if rows == 0 then []
    else
      OneRowLess(rows, bpr);
      FilterRow(1, bpp, Repeat(0 as byte, bpr), raw[..bpr]) + TiffFiltered(raw[bpr..], rows - 1, bpp, bpr)
  }

  /** Decoding differenced rows of whole pixels gives the rows back. */
  lemma {:induction false} TiffInverse(raw: seq<byte>, rows: nat, bpp: nat, bpr: nat)
    requires |raw| == rows * bpr && bpp >= 1 && (rows > 0 ==> bpr % bpp == 0)
    ensures TiffRows(TiffFiltered(raw, rows, bpp, bpr), rows, bpp, bpr) == raw
    decreases rows
  {
    hide TiffRows, FilterRow, Unfiltered;
    var data := TiffFiltered(raw, rows, bpp, bpr);
    if rows == 0 {
      TiffRowsNone(data, bpp, bpr);
    } else {
      var zeros := Repeat(0 as byte, bpr);
      OneRowLess(rows, bpr);
      TiffRowsStep(data, rows, bpp, bpr);
      assert data[..bpr] == FilterRow(1, bpp, zeros, raw[..bpr]);
      assert data[bpr..] == TiffFiltered(raw[bpr..], rows - 1, bpp, bpr);
      UnfilterFilter(1, bpp, zeros, raw[..bpr], bpr);
      assert raw[..bpr][..bpr] == raw[..bpr];
      TiffInverse(raw[bpr..], rows - 1, bpp, bpr);
      assert raw[..bpr] + raw[bpr..] == raw;
    }
  }

  /** Differencing decoded rows of whole pixels gives the data back. */
  lemma {:induction false} TiffInverseBack(data: seq<byte>, rows: nat, bpp: nat, bpr: nat)
    requires |data| == rows * bpr && bpp >= 1 && (rows > 0 ==> bpr % bpp == 0)
    ensures |TiffRows(data, rows, bpp, bpr)| == |data|
    ensures TiffFiltered(TiffRows(data, rows, bpp, bpr), rows, bpp, bpr) == data
    decreases rows
  {
    hide TiffRows, FilterRow, Unfiltered;
    if rows == 0 {
      TiffRowsNone(data, bpp, bpr);
    } else {
      var zeros := Repeat(0 as byte, bpr);
      OneRowLess(rows, bpr);
      TiffRowsStep(data, rows, bpp, bpr);
      TiffInverseBack(data[bpr..], rows - 1, bpp, bpr);
      FilterUnfilter(1, bpp, zeros, data[..bpr]);
      var raw := TiffRows(data, rows, bpp, bpr);
      assert raw[..bpr] == UnfilterRow(1, bpp, zeros, data[..bpr]);
      assert raw[bpr..] == TiffRows(data[bpr..], rows - 1, bpp, bpr);
      assert data[..bpr] + data[bpr..] == data;
    }
  }

  /** TIFF predictor inverse at the decoder's own dimensions: it returns `raw` exactly for the row-wise
      differences of `raw`, on rows of whole pixels; on others it stops. */
  lemma TiffDecodesExactly(d: PredictorDecoder, data: seq<byte>, raw: seq<byte>)
    requires RowDimensions(d).Ok?
    ensures var bpp, bpr := RowDimensions(d).value.bytesPerPixel, RowDimensions(d).value.bytesPerRow;
      DecodedTiff(d, data) == Ok(raw) <==>
        RowsIndexable(d, data) && exists rows :: |raw| == rows * bpr && data == TiffFiltered(raw, rows, bpp, bpr)
  {
    hide RowDimensions, TiffRows, TiffFiltered;
    var bpp, bpr := RowDimensions(d).value.bytesPerPixel, RowDimensions(d).value.bytesPerRow;
    if |data| % bpr == 0 {
      SomeRows(|data|, bpr);
    }
    if DecodedTiff(d, data) == Ok(raw) {
      TiffInverseBack(data, |data| / bpr, bpp, bpr);
    }
    if rows :| RowsIndexable(d, data) && |raw| == rows * bpr && data == TiffFiltered(raw, rows, bpp, bpr) {
      DivMod(0, rows, bpr);
      TiffInverse(raw, rows, bpp, bpr);
    }
  }

  lemma TiffLength(d: PredictorDecoder, data: seq<byte>)
    requires DecodedTiff(d, data).Ok?
    ensures |DecodedTiff(d, data).value| == |data|
  {
    hide RowDimensions, TiffRows;
    var dims := RowDimensions(d).value;
    SomeRows(|data|, dims.bytesPerRow);
    TiffInverseBack(data, |data| / dims.bytesPerRow, dims.bytesPerPixel, dims.bytesPerRow);
  }

  lemma PngLength(d: PredictorDecoder, data: seq<byte>)
    requires DecodedPng(d, data).Ok?
    ensures RowDimensions(d).Ok?
    ensures |DecodedPng(d, data).value| == |data| - |data| / (RowDimensions(d).value.bytesPerRow + 1)
  {
    hide RowDimensions, PngRows, TagsOf, Known, Filtered;
    var dims := RowDimensions(d).value;
    var rows := |data| / (dims.bytesPerRow + 1);
    RowsAndTags(|data|, dims.bytesPerRow);
    PngInverseBack(data, rows, dims.bytesPerPixel, Repeat(0 as byte, dims.bytesPerRow));
  }

  lemma RowsAndTags(length: nat, n: nat)
    requires length % (n + 1) == 0
    ensures var rows := length / (n + 1); length == rows * (n + 1) && rows * n == length - rows
  {
  }

  /** What a decoder makes of accepted data: without a predictor the data itself, with a TIFF predictor as many
      bytes, with a PNG predictor one byte less per row, whatever the filters of the rows. */
  lemma DecodedLength(d: PredictorDecoder, data: seq<byte>)
    requires Decoded(d, data).Ok?
    ensures var out := |Decoded(d, data).value|;
      if d.predictor.NoPredictor? || d.predictor.Tiff? then out == |data|
      else RowDimensions(d).Ok? && out == |data| - |data| / (RowDimensions(d).value.bytesPerRow + 1)
  {
    hide RowDimensions, DecodedPng, DecodedTiff;
    if d.predictor.Tiff? {
      TiffLength(d, data);
    } else if !d.predictor.NoPredictor? {
      PngLength(d, data);
    }
  }
}
