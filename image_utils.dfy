/**
 * The integer and histogram logic of the character-image normaliser
 * (image_utils.cpp). Pixel interpolation in cv::resize, the Otsu threshold and
 * the connected-component labelling are computed by OpenCV; they are inputs
 * here (function parameters of CharImgProcess).
 */
module ImageUtils {
  import opened Wrappers
  import opened Images

  // ---------------------------------------------------------------------------
  // Integer helpers with C++ semantics

  /** C++ integer division, which truncates toward zero. */
  function TruncDiv(a: int, b: int): int
    requires b > 0
  {
    if a >= 0 then a / b else -((-a) / b)
  }

  function Min(a: int, b: int): int { if a <= b then a else b }

  function Max(a: int, b: int): int { if a >= b then a else b }

  /** saturate_cast<uchar> of an int. */
  function Saturate(i: int): Byte
  {
    if i < 0 then 0 else if i > 255 then 255 else i
  }

  /** cvRound: round to nearest, ties to even (the default rounding mode). */
  function RoundHalfEven(x: real): int
  {
    var f := x.Floor;
    var d := x - f as real;
    if d < 0.5 then f
    else if d > 0.5 then f + 1
    else if f % 2 == 0 then f
    else f + 1
  }

  lemma RoundHalfEvenClose(x: real)
    ensures x - 0.5 <= RoundHalfEven(x) as real <= x + 0.5
  {
  }

  /** Rounding a value that lies between two integers stays between them. */
  lemma RoundHalfEvenBetween(x: real, lo: int, hi: int)
    requires lo as real <= x <= hi as real
    ensures lo <= RoundHalfEven(x) <= hi
  {
    RoundHalfEvenClose(x);
  }

  lemma DivMonotone(a: int, b: int, m: int)
    requires 0 <= a <= b && m > 0
    ensures a / m <= b / m
  {
    var qa, qb := a / m, b / m;
    assert m * qa <= a && b < m * qb + m;
    assert qa > qb ==> m * qa >= m * (qb + 1);
    assert m * (qb + 1) == m * qb + m;
  }

  lemma MulMonotone(a: int, b: int, t: int)
    requires 0 <= a <= b && t >= 0
    ensures a * t <= b * t
  {
  }

  lemma MulDivCancel(m: int, t: int)
    requires m > 0
    ensures (m * t) / m == t
  {
    var q, r := (m * t) / m, (m * t) % m;
    assert m * t == m * q + r && 0 <= r < m;
    assert m * (t - q) == r;
    assert t - q >= 1 ==> m * (t - q) >= m * 1;
    assert t - q <= -1 ==> m * (q - t) >= m * 1;
  }

  // ---------------------------------------------------------------------------
  // resizeToMinWidth / resizeToMaxWidth: the target size

  datatype Size = Size(width: int, height: int)

  /** The size both resize helpers compute: each side scaled by target / limit and truncated. */
  function ScaledSize(w: int, h: int, target: int, limit: int): Size
    requires limit > 0
  {
    Size(TruncDiv(w * target, limit), TruncDiv(h * target, limit))
  }

  /** One side scaled by target / limit, where the side does not exceed the limit. */
  lemma {:induction false} ScaledSideBounds(side: int, target: int, limit: int)
    requires 0 < side <= limit && target >= 0
    ensures 0 <= TruncDiv(side * target, limit) <= target
    ensures TruncDiv(side * target, limit) * limit <= side * target
            < (TruncDiv(side * target, limit) + 1) * limit
    ensures side == limit ==> TruncDiv(side * target, limit) == target
  {
    MulMonotone(side, limit, target);
    assert limit * target == target * limit;
    DivMonotone(side * target, limit * target, limit);
    MulDivCancel(limit, target);
    var q := (side * target) / limit;
    assert side * target == limit * q + (side * target) % limit;
  }

  /** A non-positive target gives a non-positive side. */
  lemma {:induction false} ScaledSideNonPositive(side: int, target: int, limit: int)
    requires side > 0 && limit > 0 && target <= 0
    ensures TruncDiv(side * target, limit) <= 0
  {
    assert side * target <= 0;
  }

  /**
   * resizeToMaxWidth: the scale is maxWidth / max(w, h). With a non-negative
   * target no side exceeds it and the longer side equals it exactly; each side
   * is the truncation of its exact scaled length.
   */
  function ResizeToMaxWidthSize(w: int, h: int, maxWidth: int): (s: Size)
    requires w > 0 && h > 0
    ensures maxWidth >= 0 ==> 0 <= s.width <= maxWidth && 0 <= s.height <= maxWidth
    ensures maxWidth >= 0 ==> (w >= h ==> s.width == maxWidth) && (h >= w ==> s.height == maxWidth)
    ensures maxWidth >= 0 ==>
              s.width * Max(w, h) <= w * maxWidth < (s.width + 1) * Max(w, h) &&
              s.height * Max(w, h) <= h * maxWidth < (s.height + 1) * Max(w, h)
    ensures maxWidth <= 0 ==> s.width <= 0 && s.height <= 0
  {
    var m := Max(w, h);
    if maxWidth >= 0 then
      ScaledSideBounds(w, maxWidth, m);
      ScaledSideBounds(h, maxWidth, m);
      ScaledSize(w, h, maxWidth, m)
    else
      ScaledSideNonPositive(w, maxWidth, m);
      ScaledSideNonPositive(h, maxWidth, m);
      ScaledSize(w, h, maxWidth, m)
  }

  /** One side scaled by target / limit, where the side is at least the limit. */
  lemma {:induction false} ScaledSideAtLeast(side: int, target: int, limit: int)
    requires 0 < limit <= side && target >= 0
    ensures TruncDiv(side * target, limit) >= target
    ensures TruncDiv(side * target, limit) * limit <= side * target
            < (TruncDiv(side * target, limit) + 1) * limit
  {
    MulMonotone(limit, side, target);
    assert limit * target == target * limit;
    DivMonotone(limit * target, side * target, limit);
    MulDivCancel(limit, target);
    var q := (side * target) / limit;
    assert side * target == limit * q + (side * target) % limit;
  }

  /**
   * resizeToMinWidth: the scale is minWidth / min(w, h). With a non-negative
   * target the shorter side equals it exactly and no side is below it.
   */
  function ResizeToMinWidthSize(w: int, h: int, minWidth: int): (s: Size)
    requires w > 0 && h > 0
    ensures minWidth >= 0 ==> s.width >= minWidth && s.height >= minWidth
    ensures minWidth >= 0 ==> (w <= h ==> s.width == minWidth) && (h <= w ==> s.height == minWidth)
    ensures minWidth >= 0 ==>
              s.width * Min(w, h) <= w * minWidth < (s.width + 1) * Min(w, h) &&
              s.height * Min(w, h) <= h * minWidth < (s.height + 1) * Min(w, h)
    ensures minWidth <= 0 ==> s.width <= 0 && s.height <= 0
  {
    var m := Min(w, h);
    if minWidth >= 0 then
      ScaledSideAtLeast(w, minWidth, m);
      ScaledSideAtLeast(h, minWidth, m);
      if w <= h then ScaledSideBounds(w, minWidth, m); ScaledSize(w, h, minWidth, m)
      else ScaledSideBounds(h, minWidth, m); ScaledSize(w, h, minWidth, m)
    else
      ScaledSideNonPositive(w, minWidth, m);
      ScaledSideNonPositive(h, minWidth, m);
      ScaledSize(w, h, minWidth, m)
  }

  // ---------------------------------------------------------------------------
  // padToSquareAvgMin

  /** The four border widths passed to copyMakeBorder. */
  datatype Padding = Padding(top: int, bottom: int, left: int, right: int)

  /**
   * The borders that centre a rows x cols image in a width x width square:
   * they always add up to width; when the image fits they are non-negative and
   * the bottom (right) border is the top (left) one or one more.
   */
  function SquarePadding(rows: nat, cols: nat, width: int): (p: Padding)
    ensures p.top + rows + p.bottom == width && p.left + cols + p.right == width
    ensures rows <= width ==> 0 <= p.top && p.bottom - p.top in {0, 1}
    ensures cols <= width ==> 0 <= p.left && p.right - p.left in {0, 1}
    ensures rows > width ==> p.top < 0 || p.bottom < 0
    ensures cols > width ==> p.left < 0 || p.right < 0
  {
    var top := TruncDiv(width - rows, 2);
    var left := TruncDiv(width - cols, 2);
    Padding(top, width - rows - top, left, width - cols - left)
  }

  function SumOf(s: seq<Byte>): int
  {
    if s == [] then 0 else SumOf(s[..|s| - 1]) + s[|s| - 1]
  }

  /** minMaxLoc's minimum. */
  function MinOf(s: seq<Byte>): (m: Byte)
    requires |s| > 0
    ensures m in s && forall i :: 0 <= i < |s| ==> m <= s[i]
  {
    if |s| == 1 then s[0]
    else
      var rest := MinOf(s[..|s| - 1]);
      assert forall i :: 0 <= i < |s| - 1 ==> s[..|s| - 1][i] == s[i];
      if s[|s| - 1] < rest then s[|s| - 1] else rest
  }

  function MaxOf(s: seq<Byte>): (m: Byte)
    requires |s| > 0
    ensures m in s && forall i :: 0 <= i < |s| ==> s[i] <= m
  {
    if |s| == 1 then s[0]
    else
      var rest := MaxOf(s[..|s| - 1]);
      assert forall i :: 0 <= i < |s| - 1 ==> s[..|s| - 1][i] == s[i];
      if s[|s| - 1] > rest then s[|s| - 1] else rest
  }

  lemma {:induction false} SumBounds(s: seq<Byte>, lo: int, hi: int)
    requires forall i :: 0 <= i < |s| ==> lo <= s[i] <= hi
    ensures lo * |s| <= SumOf(s) <= hi * |s|
  {
    if s != [] {
      var init := s[..|s| - 1];
      assert forall i :: 0 <= i < |init| ==> init[i] == s[i];
      SumBounds(init, lo, hi);
      assert lo * |s| == lo * |init| + lo;
      assert hi * |s| == hi * |init| + hi;
    }
  }

  /** cv::mean: the average pixel value. */
  function Mean(s: seq<Byte>): real
    requires |s| > 0
  {
    SumOf(s) as real / |s| as real
  }

  lemma DivBounds(lo: real, x: real, hi: real, n: real)
    requires n > 0.0 && lo * n <= x <= hi * n
    ensures lo <= x / n <= hi
  {
    var q := x / n;
    assert q * n == x;
    assert q < lo ==> q * n < lo * n;
    assert q > hi ==> q * n > hi * n;
  }

  lemma MulAsReal(a: int, b: int)
    ensures (a * b) as real == a as real * b as real
  {
  }

  lemma MeanBetween(s: seq<Byte>, lo: int, hi: int)
    requires |s| > 0
    requires forall i :: 0 <= i < |s| ==> lo <= s[i] <= hi
    ensures lo as real <= Mean(s) <= hi as real
  {
    var k: int := |s|;
    var sum := SumOf(s);
    SumBounds(s, lo, hi);
    MulAsReal(lo, k);
    MulAsReal(hi, k);
    DivBounds(lo as real, sum as real, hi as real, k as real);
  }

  lemma MeanBounds(s: seq<Byte>)
    requires |s| > 0
    ensures MinOf(s) as real <= Mean(s) <= MaxOf(s) as real
  {
    MeanBetween(s, MinOf(s), MaxOf(s));
  }

  /** The border value (2 * min + mean) / 3 of padToSquareAvgMin. */
  function PadValue(s: seq<Byte>): real
    requires |s| > 0
  {
    (2.0 * MinOf(s) as real + Mean(s)) / 3.0
  }

  /** The border value lies between the minimum and the mean, so it is a valid pixel value. */
  lemma PadValueBounds(s: seq<Byte>)
    requires |s| > 0
    ensures MinOf(s) as real <= PadValue(s) <= Mean(s) <= MaxOf(s) as real
  {
    MeanBounds(s);
  }

  /** The border pixel: cv::Scalar(padVal) converted to uchar by saturate_cast. */
  function FillByte(s: seq<Byte>): (b: Byte)
    requires |s| > 0
    ensures MinOf(s) <= b <= MaxOf(s)
  {
    PadValueBounds(s);
    RoundHalfEvenBetween(PadValue(s), MinOf(s), MaxOf(s));
    Saturate(RoundHalfEven(PadValue(s)))
  }

  /** copyMakeBorder with BORDER_CONSTANT and non-negative borders. */
  function PadImage(img: Image, p: Padding, fill: Byte): (out: Image)
    requires img.Valid()
    requires p.top >= 0 && p.bottom >= 0 && p.left >= 0 && p.right >= 0
    ensures out.Valid()
    ensures out.rows == p.top + img.rows + p.bottom && out.cols == p.left + img.cols + p.right
  {
    var rows := p.top + img.rows + p.bottom;
    var cols := p.left + img.cols + p.right;
    Image(rows, cols,
      seq(rows, r requires 0 <= r < rows =>
        seq(cols, c requires 0 <= c < cols =>
          if p.top <= r < p.top + img.rows && p.left <= c < p.left + img.cols
          then img.pixels[r - p.top][c - p.left]
          else fill)))
  }

  /** The error outcomes of the normalisation chain: OpenCV throws in each case. */
  datatype ImageError =
    | ResizeFailed      // cv::resize of an empty image or to a non-positive size
    | BorderNegative    // copyMakeBorder with a negative border

  /**
   * padToSquareAvgMin: centre a non-empty image in a width x width square
   * whose border has the value (2 * min + mean) / 3, rounded. It fails exactly
   * when the image does not fit (copyMakeBorder rejects a negative border).
   */
  function PadToSquareAvgMin(img: Image, width: int): (r: Result<Image, ImageError>)
    requires img.Valid() && !img.IsEmpty()
    ensures r.Ok? <==> img.rows <= width && img.cols <= width
    ensures r.Err? ==> r.error == BorderNegative
    ensures r.Ok? ==> r.value.Valid() && r.value.rows == width && r.value.cols == width
    ensures r.Ok? ==> forall i, j :: 0 <= i < width && 0 <= j < width ==>
              var p := SquarePadding(img.rows, img.cols, width);
              r.value.pixels[i][j] ==
                if p.top <= i < p.top + img.rows && p.left <= j < p.left + img.cols
                then img.pixels[i - p.top][j - p.left]
                else FillByte(Flatten(img.pixels))
  {
    var p := SquarePadding(img.rows, img.cols, width);
    if p.top < 0 || p.bottom < 0 || p.left < 0 || p.right < 0 then Err(BorderNegative)
    else
      FlattenLength(img.pixels, img.cols);
      Ok(PadImage(img, p, FillByte(Flatten(img.pixels))))
  }

  // ---------------------------------------------------------------------------
  // stretchGrayPercentile: histogram and cumulative histogram

  function SumNat(s: seq<int>): int
  {
    if s == [] then 0 else SumNat(s[..|s| - 1]) + s[|s| - 1]
  }

  /** calcHist with 256 bins over [0, 256): bin v counts the pixels equal to v. */
  function Histogram(px: seq<Byte>): (h: seq<nat>)
    ensures |h| == 256
  {
    var m: multiset<Byte> := multiset(px);
    seq(256, (v: int) requires 0 <= v < 256 => m[v as Byte])
  }

  /** The number of pixels whose value is at most v. */
  function CountAtMost(px: seq<Byte>, v: int): nat
  {
    if px == [] then 0
    else CountAtMost(px[..|px| - 1], v) + (if px[|px| - 1] <= v then 1 else 0)
  }

  /** Raising one entry by one raises the sum by one. */
  lemma {:induction false} SumIncrement(a: seq<int>, b: seq<int>, k: int)
    requires |a| == |b| && 0 <= k < |a|
    requires b[k] == a[k] + 1
    requires forall i :: 0 <= i < |a| && i != k ==> b[i] == a[i]
    ensures SumNat(b) == SumNat(a) + 1
  {
    var n := |a| - 1;
    if n == k {
      assert a[..n] == b[..n];
    } else {
      SumIncrement(a[..n], b[..n], k);
    }
  }

  lemma {:induction false} SumZero(a: seq<int>)
    requires forall i :: 0 <= i < |a| ==> a[i] == 0
    ensures SumNat(a) == 0
  {
    if a != [] {
      SumZero(a[..|a| - 1]);
    }
  }

  /** The cumulative histogram: entry i sums the bins 0..i. */
  function Cdf(hist: seq<int>): (c: seq<int>)
    ensures |c| == |hist|
  {
    seq(|hist|, i requires 0 <= i < |hist| => SumNat(hist[..i + 1]))
  }

  /** The first i + 1 bins of a histogram count the pixels of value at most i. */
  lemma {:induction false} HistogramPrefixCounts(px: seq<Byte>, i: int)
    requires 0 <= i < 256
    ensures SumNat(Histogram(px)[..i + 1]) == CountAtMost(px, i)
  {
    if px == [] {
      SumZero(Histogram(px)[..i + 1]);
    } else {
      var init: seq<Byte> := px[..|px| - 1];
      var x: Byte := px[|px| - 1];
      assert px == init + [x];
      var mi: multiset<Byte> := multiset(init);
      assert multiset(px) == mi + multiset([x]);
      HistogramPrefixCounts(init, i);
      var a, b := Histogram(init)[..i + 1], Histogram(px)[..i + 1];
      if x <= i {
        SumIncrement(a, b, x);
      } else {
        assert a == b;
      }
    }
  }

  /** Entry i of the cumulative histogram of an image counts its pixels of value at most i. */
  lemma CdfCounts(px: seq<Byte>)
    ensures forall i :: 0 <= i < 256 ==> Cdf(Histogram(px))[i] == CountAtMost(px, i)
  {
    forall i | 0 <= i < 256 ensures Cdf(Histogram(px))[i] == CountAtMost(px, i) {
      HistogramPrefixCounts(px, i);
    }
  }

  lemma {:induction false} CountAtMostAll(px: seq<Byte>)
    ensures CountAtMost(px, 255) == |px|
  {
    if px != [] {
      CountAtMostAll(px[..|px| - 1]);
    }
  }

  /** The last entry of the cumulative histogram (total) is the pixel count. */
  lemma CdfTotal(px: seq<Byte>)
    ensures Cdf(Histogram(px))[255] == |px|
  {
    CdfCounts(px);
    CountAtMostAll(px);
  }

  lemma {:induction false} SumPrefixMonotone(hist: seq<int>, i: int, j: int)
    requires 0 <= i <= j <= |hist|
    requires forall k :: 0 <= k < |hist| ==> hist[k] >= 0
    ensures SumNat(hist[..i]) <= SumNat(hist[..j])
  {
    if i < j {
      SumPrefixMonotone(hist, i, j - 1);
      assert hist[..j][..j - 1] == hist[..j - 1];
    }
  }

  /** Over a histogram (non-negative bins) the cumulative histogram never decreases. */
  lemma CdfMonotone(hist: seq<int>)
    requires forall k :: 0 <= k < |hist| ==> hist[k] >= 0
    ensures forall i, j :: 0 <= i <= j < |hist| ==> Cdf(hist)[i] <= Cdf(hist)[j]
  {
    forall i, j | 0 <= i <= j < |hist| ensures Cdf(hist)[i] <= Cdf(hist)[j] {
      SumPrefixMonotone(hist, i + 1, j + 1);
    }
  }

  /** The loop that builds the cumulative histogram (cdf[0] = hist[0], cdf[i] = cdf[i - 1] + hist[i]). */
  method CumulativeHistogram(hist: seq<int>) returns (cdf: seq<int>)
    requires |hist| > 0
    ensures cdf == Cdf(hist)
  {
    cdf := seq(|hist|, _ => 0);
    cdf := cdf[0 := hist[0]];
    assert hist[..1] == [hist[0]];
    assert hist[..1][..0] == [];
    for i := 1 to |hist|
      invariant |cdf| == |hist|
      invariant forall j :: 0 <= j < i ==> cdf[j] == SumNat(hist[..j + 1])
    {
      assert hist[..i + 1][..i] == hist[..i];
      cdf := cdf[i := cdf[i - 1] + hist[i]];
    }
  }

  // ---------------------------------------------------------------------------
  // stretchGrayPercentile: the percentile search

  /**
   * The test cdf[i] / total >= lowerPercent. When total is 0 the quotient is
   * NaN (0 / 0) and every comparison with it is false.
   */
  predicate LowerHit(c: int, total: int, lower: real)
  {
    total > 0 && c as real >= lower * total as real
  }

  /** The test cdf[i] / total <= upperPercent, false on NaN likewise. */
  predicate UpperHit(c: int, total: int, upper: real)
  {
    total > 0 && c as real <= upper * total as real
  }

  /**
   * minGray is the first bin whose cumulative share reaches the lower
   * percentile (0 when none does) and maxGray the last bin whose share is at
   * most the upper percentile (255 when none is).
   */
  predicate PercentileSpec(cdf: seq<int>, lower: real, upper: real, minGray: int, maxGray: int)
    requires |cdf| == 256
  {
    var total := cdf[255];
    0 <= minGray < 256 && 0 <= maxGray < 256 &&
    ((LowerHit(cdf[minGray], total, lower) &&
      forall j :: 0 <= j < minGray ==> !LowerHit(cdf[j], total, lower)) ||
     (minGray == 0 && forall j :: 0 <= j < 256 ==> !LowerHit(cdf[j], total, lower))) &&
    ((UpperHit(cdf[maxGray], total, upper) &&
      forall j :: maxGray < j < 256 ==> !UpperHit(cdf[j], total, upper)) ||
     (maxGray == 255 && forall j :: 0 <= j < 256 ==> !UpperHit(cdf[j], total, upper)))
  }

  /** The two searches determine their results: at most one pair meets the specification. */
  lemma PercentileUnique(cdf: seq<int>, lower: real, upper: real, lo1: int, hi1: int, lo2: int, hi2: int)
    requires |cdf| == 256
    requires PercentileSpec(cdf, lower, upper, lo1, hi1)
    requires PercentileSpec(cdf, lower, upper, lo2, hi2)
    ensures lo1 == lo2 && hi1 == hi2
  {
    var total := cdf[255];
    var cLo1, cLo2, cHi1, cHi2 := cdf[lo1], cdf[lo2], cdf[hi1], cdf[hi2];
    assert lo1 < lo2 ==> !LowerHit(cLo1, total, lower);
    assert lo2 < lo1 ==> !LowerHit(cLo2, total, lower);
    assert hi1 < hi2 ==> !UpperHit(cHi2, total, upper);
    assert hi2 < hi1 ==> !UpperHit(cHi1, total, upper);
  }

  /** The two search loops of stretchGrayPercentile. */
  method PercentileBounds(cdf: seq<int>, lower: real, upper: real) returns (minGray: int, maxGray: int)
    requires |cdf| == 256
    ensures PercentileSpec(cdf, lower, upper, minGray, maxGray)
  {
    var total := cdf[255];
    minGray, maxGray := 0, 255;
    var i := 0;
    while i < 256
      invariant 0 <= i <= 256
      invariant forall j :: 0 <= j < i ==> !LowerHit(cdf[j], total, lower)
    {
      if LowerHit(cdf[i], total, lower) {
        minGray := i;
        break;
      }
      i := i + 1;
    }
    var k := 255;
    while k >= 0
      invariant -1 <= k <= 255
      invariant forall j :: k < j < 256 ==> !UpperHit(cdf[j], total, upper)
    {
      if UpperHit(cdf[k], total, upper) {
        maxGray := k;
        break;
      }
      k := k - 1;
    }
  }

  lemma RealMulLe(a: real, b: real, n: real)
    requires a <= b && n >= 0.0
    ensures a * n <= b * n
  {
  }

  lemma {:induction false} CountAtMostUniform(px: seq<Byte>, k: Byte, v: int)
    requires forall i :: 0 <= i < |px| ==> px[i] == k
    ensures CountAtMost(px, v) == if v < k then 0 else |px|
  {
    if px != [] {
      CountAtMostUniform(px[..|px| - 1], k, v);
    }
  }

  /**
   * On an image whose pixels all have the value k > 0 the searches cross:
   * minGray is k but maxGray is k - 1, so the stretch has a negative slope.
   */
  lemma UniformPercentiles(px: seq<Byte>, k: Byte, lower: real, upper: real, lo: int, hi: int)
    requires |px| > 0 && k > 0
    requires forall i :: 0 <= i < |px| ==> px[i] == k
    requires 0.0 < lower <= 1.0 && 0.0 <= upper < 1.0
    requires PercentileSpec(Cdf(Histogram(px)), lower, upper, lo, hi)
    ensures lo == k && hi == k - 1
  {
    var cdf := Cdf(Histogram(px));
    var n := |px|;
    CdfCounts(px);
    forall v | 0 <= v < 256 ensures cdf[v] == if v < k then 0 else n {
      CountAtMostUniform(px, k, v);
    }
    assert cdf[255] == n;
    RealMulLe(lower, 1.0, n as real);
    RealMulLe(upper, 1.0, n as real);
    assert n as real * upper < n as real * 1.0 by {
      assert n as real > 0.0;
    }
    assert LowerHit(cdf[k], n, lower);
    assert UpperHit(cdf[k - 1], n, upper);
    assert forall j :: 0 <= j < k ==> !LowerHit(cdf[j], n, lower);
    assert forall j :: k - 1 < j < 256 ==> !UpperHit(cdf[j], n, upper);
    assert PercentileSpec(cdf, lower, upper, k, k - 1);
    PercentileUnique(cdf, lower, upper, lo, hi, k, k - 1);
  }

  // ---------------------------------------------------------------------------
  // stretchGrayPercentile: the linear stretch

  /** The unrounded value 255 * (p - lo) / (hi - lo) that convertTo computes. */
  function StretchReal(p: int, lo: int, hi: int): real
    requires lo != hi
  {
    255.0 * (p - lo) as real / (hi - lo) as real
  }

  lemma DivLe(a: real, b: real, n: real)
    requires n > 0.0 && a <= b
    ensures a / n <= b / n
  {
    var qa, qb := a / n, b / n;
    assert qa * n == a && qb * n == b;
    assert qa > qb ==> qa * n > qb * n;
  }

  /** For lo < hi the unrounded value grows with p, is 0 at lo and 255 at hi. */
  lemma StretchRealFacts(p: int, lo: int, hi: int)
    requires lo < hi
    ensures p <= lo ==> StretchReal(p, lo, hi) <= 0.0
    ensures p >= hi ==> StretchReal(p, lo, hi) >= 255.0
    ensures lo <= p <= hi ==> 0.0 <= StretchReal(p, lo, hi) <= 255.0
  {
    var n := (hi - lo) as real;
    var a := 255.0 * (p - lo) as real;
    assert 0.0 / n == 0.0;
    assert (255.0 * n) / n == 255.0;
    if p <= lo {
      DivLe(a, 0.0, n);
    }
    if p >= hi {
      assert 255.0 * n <= a;
      DivLe(255.0 * n, a, n);
    }
    if lo <= p <= hi {
      DivLe(0.0, a, n);
      DivLe(a, 255.0 * n, n);
    }
  }

  /** x clamped to the byte range [0, 255]. */
  function Clamp(x: real): (c: real)
    ensures 0.0 <= c <= 255.0
    ensures 0.0 <= x <= 255.0 ==> c == x
  {
    if x < 0.0 then 0.0 else if x > 255.0 then 255.0 else x
  }

  /** Rounding then saturating lands within 0.5 of the clamped value. */
  lemma SaturateRoundClose(x: real)
    ensures Clamp(x) - 0.5 <= Saturate(RoundHalfEven(x)) as real <= Clamp(x) + 0.5
  {
    RoundHalfEvenClose(x);
  }

  /** The unrounded stretch sends lo to 0 and hi to 255, whichever is larger. */
  lemma StretchRealEnds(lo: int, hi: int)
    requires lo != hi
    ensures StretchReal(lo, lo, hi) == 0.0 && StretchReal(hi, lo, hi) == 255.0
  {
    var n := (hi - lo) as real;
    assert 255.0 * n / n == 255.0;
  }

  /**
   * One pixel of convertTo(CV_8UC1, 255 / (hi - lo), -lo * 255 / (hi - lo)),
   * rounded and saturated. For lo != hi the pixel is the clamped linear map
   * sending lo to 0 and hi to 255, rounded; with lo < hi the range [lo, hi]
   * is spread over [0, 255], with lo > hi the slope is negative. With
   * hi == lo the scale is infinite, every product is NaN (or infinity minus
   * infinity) and saturate_cast turns NaN into 0.
   */
  function StretchPixel(p: Byte, lo: int, hi: int): (q: Byte)
    ensures lo != hi ==>
              Clamp(StretchReal(p, lo, hi)) - 0.5 <= q as real <= Clamp(StretchReal(p, lo, hi)) + 0.5
    ensures lo != hi && p == lo ==> q == 0
    ensures lo != hi && p == hi ==> q == 255
    ensures lo < hi && p <= lo ==> q == 0
    ensures lo < hi && p >= hi ==> q == 255
    ensures lo < hi && lo <= p <= hi ==>
              StretchReal(p, lo, hi) - 0.5 <= q as real <= StretchReal(p, lo, hi) + 0.5
    ensures lo == hi ==> q == 0
  {
    if lo == hi then 0
    else
      var x := StretchReal(p, lo, hi);
      SaturateRoundClose(x);
      StretchRealEnds(lo, hi);
      if lo < hi then
        StretchRealFacts(p, lo, hi);
        Saturate(RoundHalfEven(x))
      else
        Saturate(RoundHalfEven(x))
  }

  lemma RoundHalfEvenMonotone(x: real, y: real)
    requires x <= y
    ensures RoundHalfEven(x) <= RoundHalfEven(y)
  {
    var fx, fy := x.Floor, y.Floor;
    if fx < fy {
      assert RoundHalfEven(x) <= fx + 1 <= fy <= RoundHalfEven(y);
    }
  }

  /** With lo < hi the stretch keeps the order of grey levels. */
  lemma StretchMonotone(p: Byte, p': Byte, lo: int, hi: int)
    requires lo < hi && p <= p'
    ensures StretchPixel(p, lo, hi) <= StretchPixel(p', lo, hi)
  {
    var n := (hi - lo) as real;
    DivLe(255.0 * (p - lo) as real, 255.0 * (p' - lo) as real, n);
    RoundHalfEvenMonotone(StretchReal(p, lo, hi), StretchReal(p', lo, hi));
  }

  /** With lo > hi the stretch reverses the order of grey levels. */
  lemma StretchAntitone(p: Byte, p': Byte, lo: int, hi: int)
    requires hi < lo && p <= p'
    ensures StretchPixel(p', lo, hi) <= StretchPixel(p, lo, hi)
  {
    var n := (lo - hi) as real;
    var a, a' := 255.0 * (lo - p) as real, 255.0 * (lo - p') as real;
    NegatedQuotient(255.0 * (p - lo) as real, (hi - lo) as real);
    NegatedQuotient(255.0 * (p' - lo) as real, (hi - lo) as real);
    DivLe(a', a, n);
    RoundHalfEvenMonotone(StretchReal(p', lo, hi), StretchReal(p, lo, hi));
  }

  lemma NegatedQuotient(a: real, d: real)
    requires d < 0.0
    ensures a / d == (-a) / (-d)
  {
    var q := a / d;
    assert q * d == a;
    assert q * (-d) == -a;
  }

  /** convertTo applied to every pixel. */
  function StretchImage(img: Image, lo: int, hi: int): (out: Image)
    requires img.Valid()
    ensures out.Valid() && out.rows == img.rows && out.cols == img.cols
    ensures forall r, c :: 0 <= r < img.rows && 0 <= c < img.cols ==>
              out.pixels[r][c] == StretchPixel(img.pixels[r][c], lo, hi)
  {
    Image(img.rows, img.cols,
      seq(img.rows, r requires 0 <= r < img.rows =>
        seq(img.cols, c requires 0 <= c < img.cols => StretchPixel(img.pixels[r][c], lo, hi))))
  }

  /**
   * stretchGrayPercentile: build the histogram and its cumulative sum, search
   * the two percentile bins and stretch between them.
   */
  method StretchGrayPercentile(img: Image, lower: real, upper: real) returns (out: Image)
    requires img.Valid()
    ensures out.Valid() && out.rows == img.rows && out.cols == img.cols
    ensures exists minGray, maxGray ::
              PercentileSpec(Cdf(Histogram(Flatten(img.pixels))), lower, upper, minGray, maxGray) &&
              out == StretchImage(img, minGray, maxGray)
  {
    var hist := Histogram(Flatten(img.pixels));
    var cdf := CumulativeHistogram(hist);
    var minGray, maxGray := PercentileBounds(cdf, lower, upper);
    out := StretchImage(img, minGray, maxGray);
  }

  // ---------------------------------------------------------------------------
  // binarizeByOtsu

  /**
   * binarizeByOtsu with the Otsu threshold already computed: threshold at
   * min(255, otsu + offset). The result is binary and a pixel is foreground
   * exactly when it exceeds the adjusted threshold.
   */
  function BinarizeByOtsu(img: Image, otsu: int, offset: int): (out: Image)
    requires img.Valid()
    ensures out.Valid() && out.rows == img.rows && out.cols == img.cols
    ensures IsBinary(out)
    ensures forall r, c :: 0 <= r < img.rows && 0 <= c < img.cols ==>
              (out.pixels[r][c] == 255 <==> img.pixels[r][c] > otsu + offset)
  {
    ThresholdBinary(img, Min(255, otsu + offset));
    Threshold(img, Min(255, otsu + offset))
  }

  /** A larger offset never adds foreground. */
  lemma BinarizeOffsetMonotone(img: Image, otsu: int, offset1: int, offset2: int)
    requires img.Valid() && offset1 <= offset2
    ensures forall r, c :: 0 <= r < img.rows && 0 <= c < img.cols ==>
              BinarizeByOtsu(img, otsu, offset2).pixels[r][c] == 255 ==>
              BinarizeByOtsu(img, otsu, offset1).pixels[r][c] == 255
  {
  }

  /** Once otsu + offset reaches 255 the result is entirely background. */
  lemma BinarizeSaturated(img: Image, otsu: int, offset: int)
    requires img.Valid() && otsu + offset >= 255
    ensures forall r, c :: 0 <= r < img.rows && 0 <= c < img.cols ==>
              BinarizeByOtsu(img, otsu, offset).pixels[r][c] == 0
  {
  }

  // ---------------------------------------------------------------------------
  // removeSmallComponents

  /**
   * The output of connectedComponentsWithStats: a label for every pixel and
   * the area of every label 0 .. numLabels - 1, where numLabels == |areas|.
   */
  datatype Labelling = Labelling(labelOf: (nat, nat) -> nat, areas: seq<int>)

  /**
   * lab labels img: background pixels carry label 0, foreground pixels a label
   * in 1 .. numLabels - 1.
   */
  predicate LabelsImage(img: Image, lab: Labelling)
    requires img.Valid()
  {
    forall r, c :: 0 <= r < img.rows && 0 <= c < img.cols ==>
      (img.pixels[r][c] == 0 <==> lab.labelOf(r, c) == 0) && lab.labelOf(r, c) < |lab.areas|
  }

  /** The component of pixel (r, c) is one of labels 1 .. bound - 1 and its area is at least minSize. */
  predicate KeptPixel(lab: Labelling, minSize: int, bound: int, r: nat, c: nat)
  {
    var l := lab.labelOf(r, c);
    1 <= l < bound && l < |lab.areas| && lab.areas[l] >= minSize
  }

  /** out is the cleaned image: 255 exactly on the kept components, 0 elsewhere. */
  predicate CleanOf(out: Image, rows: nat, cols: nat, lab: Labelling, minSize: int)
  {
    out.Valid() && out.rows == rows && out.cols == cols &&
    forall r, c :: 0 <= r < rows && 0 <= c < cols ==>
      out.pixels[r][c] == if KeptPixel(lab, minSize, |lab.areas|, r, c) then 255 else 0
  }

  /** Mat::zeros. */
  function Zeros(rows: nat, cols: nat): (out: Image)
    ensures out.Valid() && out.rows == rows && out.cols == cols
    ensures forall r, c :: 0 <= r < rows && 0 <= c < cols ==> out.pixels[r][c] == 0
  {
    Image(rows, cols, seq(rows, _ => seq(cols, _ => 0)))
  }

  /** setTo(255, labels == i): every pixel of label i becomes 255, the others keep their value. */
  function SetLabel(img: Image, lab: Labelling, i: nat): (out: Image)
    requires img.Valid()
    ensures out.Valid() && out.rows == img.rows && out.cols == img.cols
    ensures forall r, c :: 0 <= r < img.rows && 0 <= c < img.cols ==>
              out.pixels[r][c] == if lab.labelOf(r, c) == i then 255 else img.pixels[r][c]
  {
    Image(img.rows, img.cols,
      seq(img.rows, r requires 0 <= r < img.rows =>
        seq(img.cols, c requires 0 <= c < img.cols =>
          if lab.labelOf(r, c) == i then 255 else img.pixels[r][c])))
  }

  /** removeSmallComponents: paint every component of area at least minSize white on a black image. */
  method RemoveSmallComponents(binImg: Image, lab: Labelling, minSize: int) returns (clean: Image)
    requires binImg.Valid()
    ensures CleanOf(clean, binImg.rows, binImg.cols, lab, minSize)
  {
    var rows, cols := binImg.rows, binImg.cols;
    clean := Zeros(rows, cols);
    var i := 1;
    while i < |lab.areas|
      invariant 1 <= i && (i <= |lab.areas| || i == 1)
      invariant clean.Valid() && clean.rows == rows && clean.cols == cols
      invariant forall r, c :: 0 <= r < rows && 0 <= c < cols ==>
                  clean.pixels[r][c] == if KeptPixel(lab, minSize, i, r, c) then 255 else 0
    {
      if lab.areas[i] >= minSize {
        clean := SetLabel(clean, lab, i);
      }
      i := i + 1;
    }
  }

  lemma CleanBinary(out: Image, rows: nat, cols: nat, lab: Labelling, minSize: int)
    requires CleanOf(out, rows, cols, lab, minSize)
    ensures IsBinary(out)
  {
  }

  /** The cleaned image is binary and its foreground lies inside the labelled image's foreground. */
  lemma CleanSubset(binImg: Image, lab: Labelling, minSize: int, clean: Image)
    requires binImg.Valid() && LabelsImage(binImg, lab)
    requires CleanOf(clean, binImg.rows, binImg.cols, lab, minSize)
    ensures clean.Valid() && IsBinary(clean)
    ensures forall r, c :: 0 <= r < binImg.rows && 0 <= c < binImg.cols ==>
              (clean.pixels[r][c] == 255 ==> binImg.pixels[r][c] != 0)
  {
  }

  /** When no component is smaller than minSize, every foreground pixel survives. */
  lemma CleanKeepsLarge(binImg: Image, lab: Labelling, minSize: int, clean: Image)
    requires binImg.Valid() && LabelsImage(binImg, lab)
    requires forall l :: 1 <= l < |lab.areas| ==> lab.areas[l] >= minSize
    requires CleanOf(clean, binImg.rows, binImg.cols, lab, minSize)
    ensures forall r, c :: 0 <= r < binImg.rows && 0 <= c < binImg.cols ==>
              (clean.pixels[r][c] == 255 <==> binImg.pixels[r][c] != 0)
  {
  }

  // ---------------------------------------------------------------------------
  // resizeToMaxWidth / resizeToMinWidth and charImgProcess

  /**
   * cv::resize to a positive size. The interpolated value of target pixel
   * (r, c) is sample(src, size, r, c).
   */
  function Resize(img: Image, s: Size, sample: (Image, Size, nat, nat) -> Byte): (out: Image)
    requires s.width > 0 && s.height > 0
    ensures out.Valid() && out.rows == s.height && out.cols == s.width
  {
    Image(s.height, s.width,
      seq(s.height, r requires 0 <= r < s.height =>
        seq(s.width, c requires 0 <= c < s.width => sample(img, s, r, c))))
  }

  /** cv::resize fails on an empty source and on a target side that is not positive. */
  predicate ResizeAccepts(img: Image, s: Size)
  {
    !img.IsEmpty() && s.width > 0 && s.height > 0
  }

  /** resizeToMaxWidth: scale so that the longer side becomes maxWidth. */
  function ResizeToMaxWidth(img: Image, maxWidth: int, sample: (Image, Size, nat, nat) -> Byte): (r: Result<Image, ImageError>)
    requires img.Valid()
    ensures r.Ok? <==> !img.IsEmpty() && ResizeAccepts(img, ResizeToMaxWidthSize(img.cols, img.rows, maxWidth))
    ensures r.Err? ==> r.error == ResizeFailed
    ensures r.Ok? ==> r.value.Valid() && 0 < r.value.rows <= maxWidth && 0 < r.value.cols <= maxWidth
    ensures r.Ok? ==> r.value.rows == maxWidth || r.value.cols == maxWidth
  {
    if img.IsEmpty() then Err(ResizeFailed)
    else
      var s := ResizeToMaxWidthSize(img.cols, img.rows, maxWidth);
      if !ResizeAccepts(img, s) then Err(ResizeFailed) else Ok(Resize(img, s, sample))
  }

  /** resizeToMinWidth: scale so that the shorter side becomes minWidth. */
  function ResizeToMinWidth(img: Image, minWidth: int, sample: (Image, Size, nat, nat) -> Byte): (r: Result<Image, ImageError>)
    requires img.Valid()
    ensures r.Ok? <==> !img.IsEmpty() && minWidth > 0
    ensures r.Err? ==> r.error == ResizeFailed
    ensures r.Ok? ==> r.value.Valid() && r.value.rows >= minWidth && r.value.cols >= minWidth
    ensures r.Ok? ==> r.value.rows == minWidth || r.value.cols == minWidth
  {
    if img.IsEmpty() then Err(ResizeFailed)
    else
      var s := ResizeToMinWidthSize(img.cols, img.rows, minWidth);
      if !ResizeAccepts(img, s) then Err(ResizeFailed) else Ok(Resize(img, s, sample))
  }

  /**
   * Scaling to a longer side of maxWidth succeeds exactly when maxWidth is
   * positive and the shorter side does not truncate to 0, that is when
   * shorter * maxWidth >= longer.
   */
  /** A truncated quotient q of x by h is positive exactly when x >= h. */
  lemma QuotientPositive(q: int, x: int, h: int)
    requires h > 0 && q * h <= x < (q + 1) * h
    ensures q > 0 <==> x >= h
  {
    if q > 0 {
      MulMonotone(1, q, h);
    } else if q < 0 {
      MulMonotone(0, -(q + 1), h);
      assert (q + 1) * h == -(-(q + 1) * h);
    }
  }

  lemma MaxWidthAccepted(w: int, h: int, maxWidth: int)
    requires w > 0 && h > 0
    ensures (var s := ResizeToMaxWidthSize(w, h, maxWidth); s.width > 0 && s.height > 0)
            <==> maxWidth > 0 && Min(w, h) * maxWidth >= Max(w, h)
  {
    var s := ResizeToMaxWidthSize(w, h, maxWidth);
    if maxWidth > 0 {
      QuotientPositive(s.width, w * maxWidth, Max(w, h));
      QuotientPositive(s.height, h * maxWidth, Max(w, h));
    }
  }

  /** connectedComponentsWithStats labels the foreground of every binary image it is given. */
  ghost predicate LabelsForeground(components: Image -> Labelling)
  {
    forall b: Image :: b.Valid() && IsBinary(b) ==> LabelsImage(b, components(b))
  }

  /**
   * The tail of charImgProcess from the padded image, given the percentile
   * bins: stretch, binarise at Otsu + 10 and clean components smaller than 3
   * pixels. The result's foreground lies inside the binarised foreground.
   */
  ghost predicate CleanedChain(out: Image, padded: Image, minGray: int, maxGray: int,
                               otsu: Image -> Byte, components: Image -> Labelling, size: nat)
    requires padded.Valid() && padded.rows == size && padded.cols == size
  {
    var stretched := StretchImage(padded, minGray, maxGray);
    var binary := BinarizeByOtsu(stretched, otsu(stretched), 10);
    CleanOf(out, size, size, components(binary), 3) &&
    forall i, j :: 0 <= i < size && 0 <= j < size ==>
      (out.pixels[i][j] == 255 ==> binary.pixels[i][j] == 255)
  }

  /** Cleaning the binarised image with a foreground labelling gives the chain's result. */
  lemma ForegroundKept(padded: Image, minGray: int, maxGray: int, otsu: Image -> Byte,
                       components: Image -> Labelling, size: nat, binary: Image, cleaned: Image)
    requires padded.Valid() && padded.rows == size && padded.cols == size && LabelsForeground(components)
    requires binary == BinarizeByOtsu(StretchImage(padded, minGray, maxGray), otsu(StretchImage(padded, minGray, maxGray)), 10)
    requires CleanOf(cleaned, size, size, components(binary), 3)
    ensures IsBinary(cleaned) && CleanedChain(cleaned, padded, minGray, maxGray, otsu, components, size)
  {
    CleanBinary(cleaned, size, size, components(binary), 3);
    CleanSubset(binary, components(binary), 3, cleaned);
  }

  /**
   * The per-character normalisation chain of charImgProcess (constants 0.05,
   * 0.95, 10 and 3): every foreground pixel of the result is a foreground
   * pixel of the binarised image.
   */
  method CharImgProcess(charImg: Image, imgeSize: int, sample: (Image, Size, nat, nat) -> Byte,
                        otsu: Image -> Byte, components: Image -> Labelling)
    returns (r: Result<Image, ImageError>)
    requires charImg.Valid() && LabelsForeground(components)
    ensures r.Ok? <==> ResizeToMaxWidth(charImg, imgeSize, sample).Ok?
    ensures r.Err? ==> r.error == ResizeFailed
    ensures r.Ok? ==> r.value.Valid() && r.value.rows == imgeSize && r.value.cols == imgeSize
    ensures r.Ok? ==> IsBinary(r.value)
    ensures r.Ok? ==>
              var padded := PadToSquareAvgMin(ResizeToMaxWidth(charImg, imgeSize, sample).value, imgeSize);
              padded.Ok? &&
              exists minGray, maxGray ::
                PercentileSpec(Cdf(Histogram(Flatten(padded.value.pixels))), 0.05, 0.95, minGray, maxGray) &&
                CleanedChain(r.value, padded.value, minGray, maxGray, otsu, components, imgeSize)
  {
    var resized := ResizeToMaxWidth(charImg, imgeSize, sample);
    if resized.Err? {
      return Err(ResizeFailed);
    }
    var padded := PadToSquareAvgMin(resized.value, imgeSize);
    if padded.Err? {
      assert false;
      return Err(BorderNegative);
    }
    var stretched := StretchGrayPercentile(padded.value, 0.05, 0.95);
    ghost var minGray, maxGray :|
      PercentileSpec(Cdf(Histogram(Flatten(padded.value.pixels))), 0.05, 0.95, minGray, maxGray) &&
      stretched == StretchImage(padded.value, minGray, maxGray);
    var binary := BinarizeByOtsu(stretched, otsu(stretched), 10);
    var cleaned := RemoveSmallComponents(binary, components(binary), 3);
    ForegroundKept(padded.value, minGray, maxGray, otsu, components, imgeSize, binary, cleaned);
    r := Ok(cleaned);
  }
}
