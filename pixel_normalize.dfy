/**
 * `normalize_dicom` (dicom_converter.py): a linear min/max rescale of a
 * DICOM pixel matrix to 8-bit grey levels, in exact integer arithmetic.
 * `(p - min) * 255.0 / (max - min)` followed by `astype('uint8')` truncates
 * a non-negative quotient, which is floor division.
 */
module PixelNormalize {
  import opened Base

  /** NumPy's `uint8`. Producing one from an `int` is a proof that the value fits. */
  newtype uint8 = x: int | 0 <= x < 256

  /** A NumPy 2-D array: every row has the same length. */
  predicate IsRectangular(m: seq<seq<int>>)
  {
    forall i :: 0 <= i < |m| ==> |m[i]| == |m[0]|
  }

  /** At least one pixel, so that `min()` and `max()` do not raise. */
  predicate HasPixels(m: seq<seq<int>>)
  {
    |m| > 0 && |m[0]| > 0
  }

  predicate SameShape(out: seq<seq<uint8>>, m: seq<seq<int>>)
  {
    |out| == |m| && forall i :: 0 <= i < |m| ==> |out[i]| == |m[i]|
  }

  function RowMin(row: seq<int>): (r: int)
    requires |row| > 0
    ensures forall j :: 0 <= j < |row| ==> r <= row[j]
    ensures exists j :: 0 <= j < |row| && row[j] == r
  {
    if |row| == 1 then row[0] else Min(RowMin(row[..|row| - 1]), row[|row| - 1])
  }

  function RowMax(row: seq<int>): (r: int)
    requires |row| > 0
    ensures forall j :: 0 <= j < |row| ==> row[j] <= r
    ensures exists j :: 0 <= j < |row| && row[j] == r
  {
    if |row| == 1 then row[0]
    else
      var prefix := RowMax(row[..|row| - 1]);
      if prefix >= row[|row| - 1] then prefix else row[|row| - 1]
  }

  /** `pixel_array.min()`: a lower bound that some pixel attains. */
  function MatrixMin(m: seq<seq<int>>): (r: int)
    requires |m| > 0 && forall i :: 0 <= i < |m| ==> |m[i]| > 0
    ensures forall i, j :: 0 <= i < |m| && 0 <= j < |m[i]| ==> r <= m[i][j]
    ensures exists i, j :: 0 <= i < |m| && 0 <= j < |m[i]| && m[i][j] == r
  {
    if |m| == 1 then RowMin(m[0])
    else
      var prefix := MatrixMin(m[..|m| - 1]);
      var last := RowMin(m[|m| - 1]);
      if prefix <= last then prefix else last
  }

  /** `pixel_array.max()`: an upper bound that some pixel attains. */
  function MatrixMax(m: seq<seq<int>>): (r: int)
    requires |m| > 0 && forall i :: 0 <= i < |m| ==> |m[i]| > 0
    ensures forall i, j :: 0 <= i < |m| && 0 <= j < |m[i]| ==> m[i][j] <= r
    ensures exists i, j :: 0 <= i < |m| && 0 <= j < |m[i]| && m[i][j] == r
  {
    if |m| == 1 then RowMax(m[0])
    else
      var prefix := MatrixMax(m[..|m| - 1]);
      var last := RowMax(m[|m| - 1]);
      if prefix >= last then prefix else last
  }

  lemma DivMonotone(a: int, b: int, d: int)
    requires 0 <= a <= b && d > 0
    ensures a / d <= b / d
  {
    var qa, qb := a / d, b / d;
    assert d * qa <= a;
    assert b < d * qb + d;
    assert d * qa < d * (qb + 1);
    MulCancel(d, qa, qb + 1);
  }

  lemma MulCancel(d: int, x: int, y: int)
    requires d > 0 && d * x < d * y
    ensures x < y
  {
  }

  lemma TimesDivides(d: int)
    requires d > 0
    ensures d * 255 / d == 255
  {
  }

  lemma ScaleBounds(p: int, lo: int, hi: int)
    requires lo <= p <= hi && lo < hi
    ensures 0 <= (p - lo) * 255 / (hi - lo) <= 255
  {
    DivMonotone((p - lo) * 255, (hi - lo) * 255, hi - lo);
    TimesDivides(hi - lo);
  }

  /**
   * The rescale of one pixel value `p` between `lo` and `hi`: it stays in
   * 0..255, `lo` goes to 0 and `hi` to 255.
   */
  function Scale(p: int, lo: int, hi: int): (r: int)
    requires lo <= p <= hi && lo < hi
    ensures 0 <= r <= 255
    ensures p == lo ==> r == 0
    ensures p == hi ==> r == 255
  {
    ScaleBounds(p, lo, hi);
    TimesDivides(hi - lo);
    (p - lo) * 255 / (hi - lo)
  }

  /** The rescale never reverses the order of two pixel values. */
  lemma ScaleMonotone(p: int, q: int, lo: int, hi: int)
    requires lo <= p <= q <= hi && lo < hi
    ensures Scale(p, lo, hi) <= Scale(q, lo, hi)
  {
    DivMonotone((p - lo) * 255, (q - lo) * 255, hi - lo);
  }

  /** `min()` and `max()` of an empty array raise `ValueError`. */
  datatype NormalizeError = EmptyArray

  /**
   * `normalize_dicom`: an error for an empty array, otherwise a matrix of
   * the same shape holding the rescaled pixels, or all zeros when every
   * pixel has the same value.
   */
  function NormalizeDicom(m: seq<seq<int>>): (r: Result<seq<seq<uint8>>, NormalizeError>)
    requires IsRectangular(m)
    ensures r.Ok? <==> HasPixels(m)
    ensures r.Ok? ==> SameShape(r.value, m)
  {
    if !HasPixels(m) then Err(EmptyArray)
    else
      var lo, hi := MatrixMin(m), MatrixMax(m);
      if hi != lo then
        Ok(seq(|m|, i requires 0 <= i < |m| =>
          seq(|m[i]|, j requires 0 <= j < |m[i]| => Scale(m[i][j], lo, hi) as uint8)))
      else
        Ok(seq(|m|, i requires 0 <= i < |m| =>
          seq(|m[i]|, j requires 0 <= j < |m[i]| => (m[i][j] * 0) as uint8)))
  }

  predicate IsPixel(m: seq<seq<int>>, i: int, j: int)
  {
    0 <= i < |m| && 0 <= j < |m[i]|
  }

  /** A constant image normalises to all zeros. */
  lemma ConstantImageIsBlack(m: seq<seq<int>>, v: int)
    requires IsRectangular(m) && HasPixels(m)
    requires forall i, j :: IsPixel(m, i, j) ==> m[i][j] == v
    ensures NormalizeDicom(m).Ok?
    ensures forall i, j :: IsPixel(m, i, j) ==> NormalizeDicom(m).value[i][j] == 0
  {
    var lo, hi := MatrixMin(m), MatrixMax(m);
    assert m[0][0] == v;
    assert lo == v && hi == v;
  }

  /**
   * In a non-constant image the darkest pixels become 0, the brightest 255,
   * and so the output spans the full 0..255 range.
   */
  lemma ExtremesMapToEnds(m: seq<seq<int>>)
    requires IsRectangular(m) && HasPixels(m)
    requires MatrixMin(m) != MatrixMax(m)
    ensures NormalizeDicom(m).Ok?
    ensures forall i, j :: IsPixel(m, i, j) && m[i][j] == MatrixMin(m) ==> NormalizeDicom(m).value[i][j] == 0
    ensures forall i, j :: IsPixel(m, i, j) && m[i][j] == MatrixMax(m) ==> NormalizeDicom(m).value[i][j] == 255
    ensures exists i, j :: IsPixel(m, i, j) && NormalizeDicom(m).value[i][j] == 0
    ensures exists i, j :: IsPixel(m, i, j) && NormalizeDicom(m).value[i][j] == 255
  {
    var out := NormalizeDicom(m).value;
    assert SameShape(out, m);
    var lo, hi := MatrixMin(m), MatrixMax(m);
    var i0, j0 :| 0 <= i0 < |m| && 0 <= j0 < |m[i0]| && m[i0][j0] == lo;
    var i1, j1 :| 0 <= i1 < |m| && 0 <= j1 < |m[i1]| && m[i1][j1] == hi;
    assert IsPixel(m, i0, j0) && IsPixel(m, i1, j1);
    assert out[i0][j0] == 0;
    assert out[i1][j1] == 255;
  }

  /** Brighter input pixels never come out darker. */
  lemma NormalizeMonotone(m: seq<seq<int>>, i: int, j: int, k: int, l: int)
    requires IsRectangular(m) && HasPixels(m)
    requires IsPixel(m, i, j) && IsPixel(m, k, l)
    requires m[i][j] <= m[k][l]
    ensures NormalizeDicom(m).Ok?
    ensures NormalizeDicom(m).value[i][j] <= NormalizeDicom(m).value[k][l]
  {
    var lo, hi := MatrixMin(m), MatrixMax(m);
    if lo != hi {
      ScaleMonotone(m[i][j], m[k][l], lo, hi);
    }
  }

  // The source as written on a signed 16-bit pixel array (pydicom returns
  // `int16` for signed pixel data): `pixel_array - pixel_array.min()` and
  // `pixel_array.max() - pixel_array.min()` are computed in `int16` and wrap
  // modulo 2^16 before the multiplication by 255.0 turns them into floats.

  /** NumPy `int16` arithmetic: the exact result wrapped into -32768..32767. */
  function WrapInt16(x: int): (r: int)
    ensures -32768 <= r < 32768
    ensures (x - r) % 65536 == 0
    ensures -32768 <= x < 32768 ==> r == x
  {
    (x + 32768) % 65536 - 32768
  }

  /** The float the source computes for pixel `p` of an `int16` array, before `astype('uint8')`. */
  function RescaledInt16AsWritten(p: int, lo: int, hi: int): (r: real)
    requires WrapInt16(hi - lo) != 0
    ensures -32768 <= p - lo < 32768 && -32768 <= hi - lo < 32768 ==> r == ((p - lo) * 255) as real / (hi - lo) as real
  {
    (WrapInt16(p - lo) * 255) as real / WrapInt16(hi - lo) as real
  }

  lemma FloorOfQuotient(a: int, d: int)
    requires a >= 0 && d > 0
    ensures (a as real / d as real).Floor == a / d
  {
    var q, r := a / d, a % d;
    assert a == q * d + r && 0 <= r < d;
    assert a as real / d as real == q as real + r as real / d as real;
    assert 0.0 <= r as real / d as real < 1.0;
  }

  /** While the span fits in `int16`, the source's float quotient truncates to exactly `Scale`. */
  lemma AsWrittenAgreesForNarrowSpan(p: int, lo: int, hi: int)
    requires lo <= p <= hi && lo < hi && hi - lo < 32768
    ensures RescaledInt16AsWritten(p, lo, hi).Floor == Scale(p, lo, hi)
  {
    FloorOfQuotient((p - lo) * 255, hi - lo);
  }

  /**
   * An `int16` image spanning -30000..30000: the source's span wraps to
   * -5536, so pixel 0 rescales to a negative float that `uint8` cannot
   * hold, where the intended rescale gives 127.
   */
  lemma WideInt16SpanLeavesRange()
    ensures WrapInt16(30000 - -30000) == -5536
    ensures RescaledInt16AsWritten(0, -30000, 30000) < 0.0
    ensures Scale(0, -30000, 30000) == 127
  {
    assert WrapInt16(0 - -30000) == 30000;
    assert WrapInt16(30000 - -30000) == -5536;
    assert RescaledInt16AsWritten(0, -30000, 30000) == 7650000.0 / -5536.0;
    assert 30000 * 255 / 60000 == 127;
  }
}
