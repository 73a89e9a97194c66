/**
 * Colour analysis of album covers (server/images.go): the per-channel average and the most
 * common quantised colour of an image (`ComputeAverageColor`, `absDiff`, `isGrayscale`), and
 * the choice of the smallest cover image (`FindSmallestImage`). An image is its rows of pixels,
 * each pixel the 8-bit channels that `RGBA() >> 8` yields.
 */
module ImageColors {
  import opened Wrappers
  import opened ColorHex

  datatype Pixel = Pixel(r: Byte, g: Byte, b: Byte)

  datatype Channel = Red | Green | Blue

  function Value(p: Pixel, c: Channel): Byte
  {
    match c
    case Red => p.r
    case Green => p.g
    case Blue => p.b
  }

  /** The pixels in the order the nested `y`/`x` loops visit them: row after row. */
  function Flatten(img: seq<seq<Pixel>>): (ps: seq<Pixel>)
  {
    if img == [] then [] else Flatten(img[..|img| - 1]) + img[|img| - 1]
  }

  /** The sum of one channel over some pixels (`totalR`, `totalG`, `totalB`). */
  function Sum(ps: seq<Pixel>, c: Channel): nat
  {
    if ps == [] then 0 else Sum(ps[..|ps| - 1], c) + Value(ps[|ps| - 1], c)
  }

  /** The least value of a channel over non-empty pixels. */
  function MinValue(ps: seq<Pixel>, c: Channel): (m: Byte)
    requires ps != []
    ensures forall i :: 0 <= i < |ps| ==> m <= Value(ps[i], c)
    ensures exists i :: 0 <= i < |ps| && m == Value(ps[i], c)
  {
    var n := |ps| - 1;
    if n == 0 then Value(ps[0], c)
    else
      var m := MinValue(ps[..n], c);
      assert forall i :: 0 <= i < n ==> ps[..n][i] == ps[i];
      if Value(ps[n], c) < m then Value(ps[n], c) else m
  }

  /** The greatest value of a channel over non-empty pixels. */
  function MaxValue(ps: seq<Pixel>, c: Channel): (m: Byte)
    requires ps != []
    ensures forall i :: 0 <= i < |ps| ==> Value(ps[i], c) <= m
    ensures exists i :: 0 <= i < |ps| && m == Value(ps[i], c)
  {
    var n := |ps| - 1;
    if n == 0 then Value(ps[0], c)
    else
      var m := MaxValue(ps[..n], c);
      assert forall i :: 0 <= i < n ==> ps[..n][i] == ps[i];
      if Value(ps[n], c) > m then Value(ps[n], c) else m
  }

  lemma {:induction false} SumBounds(ps: seq<Pixel>, c: Channel, lo: int, hi: int)
    requires forall i :: 0 <= i < |ps| ==> lo <= Value(ps[i], c) <= hi
    ensures |ps| * lo <= Sum(ps, c) <= |ps| * hi
  {
    if ps != [] {
      var n := |ps| - 1;
      assert forall i :: 0 <= i < n ==> ps[..n][i] == ps[i];
      SumBounds(ps[..n], c, lo, hi);
      NextMultiple(n, lo);
      NextMultiple(n, hi);
    }
  }

  lemma NextMultiple(k: int, v: int)
    ensures (k + 1) * v == k * v + v
  {
  }

  lemma MultiplyMonotone(a: int, b: int, n: nat)
    ensures a <= b ==> a * n <= b * n
  {
    assert b * n - a * n == (b - a) * n;
  }

  lemma QuotientAtLeast(total: int, n: int, lo: int)
    requires n > 0 && n * lo <= total
    ensures lo <= total / n
  {
    var q := total / n;
    assert total == q * n + total % n;
    NextMultiple(q, n);
    MultiplyMonotone(q + 1, lo, n);
  }

  lemma QuotientAtMost(total: int, n: int, hi: int)
    requires n > 0 && total <= n * hi
    ensures total / n <= hi
  {
    var q := total / n;
    assert total == q * n + total % n;
    NextMultiple(hi, n);
    MultiplyMonotone(hi + 1, q, n);
  }

  /** The `avgR`/`avgG`/`avgB` of a channel lies between the channel's least and greatest value. */
  lemma {:induction false} AverageBetween(ps: seq<Pixel>, c: Channel)
    requires ps != []
    ensures MinValue(ps, c) <= Sum(ps, c) / |ps| <= MaxValue(ps, c)
  {
    SumBounds(ps, c, MinValue(ps, c), MaxValue(ps, c));
    QuotientAtLeast(Sum(ps, c), |ps|, MinValue(ps, c));
    QuotientAtMost(Sum(ps, c), |ps|, MaxValue(ps, c));
  }

  /** `v >> 3 << 3`: the channel rounded down to a multiple of 8. */
  function Quantize(v: Byte): (q: Byte)
    ensures q % 8 == 0 && q <= v < q + 8
  {
    v / 8 * 8
  }

  /** The histogram key of a pixel. */
  function Bucket(p: Pixel): Color
  {
    Color(Quantize(p.r), Quantize(p.g), Quantize(p.b))
  }

  /** `colorCounts` after the given pixels: `colorCounts[key]++`, a missing key counting as 0. */
  function Histogram(ps: seq<Pixel>): map<Color, nat>
  {
    if ps == [] then map[]
    else
      var h := Histogram(ps[..|ps| - 1]);
      var key := Bucket(ps[|ps| - 1]);
      h[key := (if key in h then h[key] else 0) + 1]
  }

  /** The sum of the counts of a histogram. */
  ghost function Total(h: map<Color, nat>): nat
    decreases |h|
  {
    if h == map[] then 0
    else
      var k :| k in h;
      h[k] + Total(h - {k})
  }

  lemma {:induction false} TotalRemove(h: map<Color, nat>, k: Color)
    requires k in h
    ensures Total(h) == h[k] + Total(h - {k})
    decreases |h|
  {
    var k' :| k' in h && Total(h) == h[k'] + Total(h - {k'});
    if k' != k {
      assert (h - {k'}) - {k} == (h - {k}) - {k'};
      TotalRemove(h - {k'}, k);
      TotalRemove(h - {k}, k');
    }
  }

  lemma TotalUpdate(h: map<Color, nat>, k: Color, v: nat)
    ensures Total(h[k := v]) == Total(h) - (if k in h then h[k] else 0) + v
  {
    TotalRemove(h[k := v], k);
    assert h[k := v] - {k} == h - {k};
    if k in h {
      TotalRemove(h, k);
    } else {
      assert h - {k} == h;
    }
  }

  /** Every pixel lands in exactly one bucket: the counts add up to the number of pixels, none is 0. */
  lemma {:induction false} HistogramCounts(ps: seq<Pixel>)
    ensures Total(Histogram(ps)) == |ps|
    ensures forall k :: k in Histogram(ps) ==> Histogram(ps)[k] > 0
    ensures forall i :: 0 <= i < |ps| ==> Bucket(ps[i]) in Histogram(ps)
  {
    if ps != [] {
      var n := |ps| - 1;
      var h := Histogram(ps[..n]);
      var key := Bucket(ps[n]);
      HistogramCounts(ps[..n]);
      TotalUpdate(h, key, (if key in h then h[key] else 0) + 1);
      assert forall i :: 0 <= i < n ==> ps[..n][i] == ps[i];
    }
  }

  /** `absDiff`. */
  function AbsDiff(a: int, b: int): int
  {
    if a > b then a - b else b - a
  }

  /** `absDiff` is a distance: symmetric, non-negative, and zero exactly on equal arguments. */
  lemma AbsDiffIsDistance(a: int, b: int)
    ensures AbsDiff(a, b) == AbsDiff(b, a) >= 0
    ensures AbsDiff(a, b) == 0 <==> a == b
  {
  }

  const GrayscaleThreshold: int := 40

  /** `isGrayscale`: all three pairwise channel differences are below 40. */
  predicate IsGrayscale(c: Color)
  {
    AbsDiff(c.r, c.g) < GrayscaleThreshold &&
    AbsDiff(c.g, c.b) < GrayscaleThreshold &&
    AbsDiff(c.b, c.r) < GrayscaleThreshold
  }

  /** A colour is grey exactly when its channels spread over less than 40. */
  lemma GrayscaleBySpread(c: Color)
    ensures IsGrayscale(c) <==>
      var hi := if c.r >= c.g && c.r >= c.b then c.r else if c.g >= c.b then c.g else c.b;
      var lo := if c.r <= c.g && c.r <= c.b then c.r else if c.g <= c.b then c.g else c.b;
      hi - lo < GrayscaleThreshold
  {
  }

  /** A histogram key with a positive count, grey or not as `grey` says. */
  ghost predicate Candidate(h: map<Color, nat>, k: Color, grey: bool)
  {
    k in h && h[k] > 0 && IsGrayscale(k) == grey
  }

  /** `c` is a key of the given kind whose count no key of that kind exceeds. */
  ghost predicate MostCommonOfKind(h: map<Color, nat>, c: Color, grey: bool)
  {
    Candidate(h, c, grey) && forall k :: Candidate(h, k, grey) ==> h[k] <= h[c]
  }

  /**
   * The common colour rule: the most common non-grey bucket when some non-grey bucket holds
   * more than 20 pixels, otherwise the most common grey bucket, otherwise black. Ties between
   * equally common buckets are not decided.
   */
  ghost predicate IsCommonColor(h: map<Color, nat>, c: Color)
  {
    if exists k :: Candidate(h, k, false) && h[k] > 20 then MostCommonOfKind(h, c, false)
    else if exists k :: Candidate(h, k, true) then MostCommonOfKind(h, c, true)
    else c == Color(0, 0, 0)
  }

  /**
   * The `range colorCounts` loop and the choice after it. The iteration order of a Go map is
   * unspecified, so the next key is chosen arbitrarily; whatever the order, the result
   * satisfies the common colour rule.
   */
  method MostCommonColor(colorCounts: map<Color, nat>) returns (common: Color)
    ensures IsCommonColor(colorCounts, common)
  {
    var commonColor := Color(0, 0, 0);
    var commonColorCount := 0;
    var commonGrayscaleColor := Color(0, 0, 0);
    var commonGrayscaleColorCount := 0;
    var remaining := colorCounts.Keys;
    while remaining != {}
      invariant remaining <= colorCounts.Keys
      invariant commonColorCount == 0 ==> commonColor == Color(0, 0, 0)
      invariant commonColorCount > 0 ==>
        Candidate(colorCounts, commonColor, false) && colorCounts[commonColor] == commonColorCount
      invariant forall k :: Candidate(colorCounts, k, false) && k !in remaining ==> colorCounts[k] <= commonColorCount
      invariant commonGrayscaleColorCount == 0 ==> commonGrayscaleColor == Color(0, 0, 0)
      invariant commonGrayscaleColorCount > 0 ==>
        Candidate(colorCounts, commonGrayscaleColor, true) &&
        colorCounts[commonGrayscaleColor] == commonGrayscaleColorCount
      invariant forall k :: Candidate(colorCounts, k, true) && k !in remaining ==>
        colorCounts[k] <= commonGrayscaleColorCount
      decreases |remaining|
    {
      var color :| color in remaining;
      var count := colorCounts[color];
      if count > commonColorCount && !IsGrayscale(color) {
        commonColor := color;
        commonColorCount := count;
      }
      if count > commonGrayscaleColorCount && IsGrayscale(color) {
        commonGrayscaleColor := color;
        commonGrayscaleColorCount := count;
      }
      remaining := remaining - {color};
    }
    if commonColorCount > 20 {
      common := commonColor;
    } else {
      common := commonGrayscaleColor;
    }
  }

  /** One more pixel adds its channels to the sums and one to the count of its bucket. */
  lemma AccumulateStep(ps: seq<Pixel>, p: Pixel)
    ensures Sum(ps + [p], Red) == Sum(ps, Red) + p.r
    ensures Sum(ps + [p], Green) == Sum(ps, Green) + p.g
    ensures Sum(ps + [p], Blue) == Sum(ps, Blue) + p.b
    ensures var h := Histogram(ps); var key := Bucket(p);
      Histogram(ps + [p]) == h[key := (if key in h then h[key] else 0) + 1]
  {
    assert (ps + [p])[..|ps|] == ps;
  }

  /** One more row appends its pixels to those already visited. */
  lemma FlattenStep(img: seq<seq<Pixel>>, y: nat)
    requires y < |img|
    ensures Flatten(img[..y + 1]) == Flatten(img[..y]) + img[y]
  {
    assert img[..y + 1][..y] == img[..y];
  }

  /**
   * `ComputeAverageColor`: the nested loops accumulate the channel totals, the pixel count and
   * the histogram of quantised colours; the average is the truncated quotient of each total by
   * the count (at least one pixel is required, the division fails otherwise), and the common
   * colour follows the common colour rule.
   */
  method ComputeAverageColor(img: seq<seq<Pixel>>) returns (avgColor: Color, commonColor: Color)
    requires Flatten(img) != []
    ensures var ps := Flatten(img);
      && avgColor == Color(Sum(ps, Red) / |ps|, Sum(ps, Green) / |ps|, Sum(ps, Blue) / |ps|)
      && MinValue(ps, Red) <= avgColor.r <= MaxValue(ps, Red)
      && MinValue(ps, Green) <= avgColor.g <= MaxValue(ps, Green)
      && MinValue(ps, Blue) <= avgColor.b <= MaxValue(ps, Blue)
      && IsCommonColor(Histogram(ps), commonColor)
  {
    var totalR, totalG, totalB := 0, 0, 0;
    var count := 0;
    var colorCounts: map<Color, nat> := map[];
    for y := 0 to |img|
      invariant var ps := Flatten(img[..y]);
        && totalR == Sum(ps, Red) && totalG == Sum(ps, Green) && totalB == Sum(ps, Blue)
        && count == |ps| && colorCounts == Histogram(ps)
    {
      ghost var done := Flatten(img[..y]);
      var row := img[y];
      assert done + row[..0] == done;
      for x := 0 to |row|
        invariant var ps := done + row[..x];
          && totalR == Sum(ps, Red) && totalG == Sum(ps, Green) && totalB == Sum(ps, Blue)
          && count == |ps| && colorCounts == Histogram(ps)
      {
        var pixel := row[x];
        AccumulateStep(done + row[..x], pixel);
        assert done + row[..x + 1] == (done + row[..x]) + [pixel];
        totalR := totalR + pixel.r;
        totalG := totalG + pixel.g;
        totalB := totalB + pixel.b;
        count := count + 1;
        var key := Bucket(pixel);
        colorCounts := colorCounts[key := (if key in colorCounts then colorCounts[key] else 0) + 1];
      }
      assert row[..|row|] == row;
      FlattenStep(img, y);
    }
    assert img[..|img|] == img;
    ghost var ps := Flatten(img);
    var avgR := totalR / count;
    var avgG := totalG / count;
    var avgB := totalB / count;
    avgColor := Color(avgR, avgG, avgB);
    AverageBetween(ps, Red);
    AverageBetween(ps, Green);
    AverageBetween(ps, Blue);
    commonColor := MostCommonColor(colorCounts);
  }

  /** A `SpotifyImage`: its URL and its declared dimensions. */
  datatype SpotifyImage = SpotifyImage(url: string, height: int, width: int)

  /** The area the search compares: `Width * Height` (0 when either side is 0). */
  function Area(img: SpotifyImage): int
  {
    img.width * img.height
  }

  /** Image `i` has a positive area, no image has a smaller positive one, and none before it as small. */
  predicate EarliestSmallestPositive(images: seq<SpotifyImage>, i: int)
    requires 0 <= i < |images|
  {
    && Area(images[i]) > 0
    && (forall j :: 0 <= j < |images| && Area(images[j]) > 0 ==> Area(images[i]) <= Area(images[j]))
    && (forall j :: 0 <= j < i && Area(images[j]) > 0 ==> Area(images[i]) < Area(images[j]))
  }

  /**
   * `FindSmallestImage`: nothing for no images; otherwise the earliest image of least positive
   * area, unless the first image's area is negative or no image has a positive area, in which
   * case the first image. A single image is returned as it is.
   */
  method FindSmallestImage(images: seq<SpotifyImage>) returns (r: Option<SpotifyImage>)
    ensures r.None? <==> images == []
    ensures |images| == 1 ==> r == Some(images[0])
    ensures r.Some? ==>
      if Area(images[0]) >= 0 && exists i :: 0 <= i < |images| && Area(images[i]) > 0
      then exists i :: 0 <= i < |images| && r.value == images[i] && EarliestSmallestPositive(images, i)
      else r.value == images[0]
  {
    if |images| == 0 {
      return None;
    }
    if |images| == 1 {
      return Some(images[0]);
    }
    var smallestImage := images[0];
    ghost var smallestIndex := 0;
    var smallestArea := 0;
    assert images[0].width == 0 || images[0].height == 0 ==> Area(images[0]) == 0;
    if images[0].width != 0 && images[0].height != 0 {
      smallestArea := images[0].width * images[0].height;
    }
    for k := 1 to |images|
      invariant 0 <= smallestIndex < k && smallestImage == images[smallestIndex]
      invariant smallestArea == Area(images[smallestIndex])
      invariant smallestArea <= 0 ==> smallestIndex == 0
      invariant Area(images[0]) < 0 ==> smallestArea < 0
      invariant smallestArea == 0 ==> forall j :: 0 <= j < k ==> Area(images[j]) <= 0
      invariant smallestArea > 0 ==>
        && (forall j :: 0 <= j < k && Area(images[j]) > 0 ==> smallestArea <= Area(images[j]))
        && (forall j :: 0 <= j < smallestIndex && Area(images[j]) > 0 ==> smallestArea < Area(images[j]))
    {
      var img := images[k];
      assert img.width == 0 || img.height == 0 ==> Area(img) == 0;
      if img.width != 0 && img.height != 0 {
        var area := img.width * img.height;
        if area > 0 && (smallestArea == 0 || area < smallestArea) {
          smallestArea := area;
          smallestImage := img;
          smallestIndex := k;
        }
      }
    }
    r := Some(smallestImage);
    if smallestArea > 0 {
      assert EarliestSmallestPositive(images, smallestIndex);
    }
  }
}
