/** Full-resolution verification of a found placement (image_analysis.py,
    lines 149-161): the region of the original at the location is sliced out,
    its per-channel absolute difference to the subset is histogrammed, and the
    histogram gives the square sum that decides the match. */
module Verification {
  import opened Grid
  import opened Scaling
  import opened Surface

  type Byte = x: int | 0 <= x < 256

  datatype Pixel = Pixel(red: Byte, green: Byte, blue: Byte)

  /** A decoded RGB image. `pixels[y][x]` is the pixel in row y and column x:
      the layout of `np.array(image)`, whose shape is (height, width, 3). */
  datatype Picture = Picture(size: Size, pixels: seq<seq<Pixel>>)

  predicate WellFormed(p: Picture)
  {
    |p.pixels| == p.size.height &&
    forall y :: 0 <= y < |p.pixels| ==> |p.pixels[y]| == p.size.width
  }

  /** numpy's treatment of a slice bound past the end of an axis. */
  function Clamp(i: nat, n: nat): nat
  {
    if i < n then i else n
  }

  function Min(a: nat, b: nat): nat
  {
    if a < b then a else b
  }

  /** `np.array(p)[r0 : r1, c0 : c1]`, read back as an image by
      `Image.fromarray`: bounds past the end are cut off, so the slice may be
      smaller than asked for (or empty), and it never fails. */
  function Slice(p: Picture, r0: nat, r1: nat, c0: nat, c1: nat): (q: Picture)
    requires WellFormed(p)
    requires r0 <= r1 && c0 <= c1
    ensures WellFormed(q)
    ensures q.size.height == Clamp(r1, p.size.height) - Clamp(r0, p.size.height)
    ensures q.size.width == Clamp(c1, p.size.width) - Clamp(c0, p.size.width)
    ensures r1 <= p.size.height && c1 <= p.size.width ==> q.size == Size(c1 - c0, r1 - r0)
    ensures forall y, x :: 0 <= y < q.size.height && 0 <= x < q.size.width ==>
              r0 + y < p.size.height && c0 + x < p.size.width &&
              q.pixels[y][x] == p.pixels[r0 + y][c0 + x]
  {
    var height, width := p.size.height, p.size.width;
    var rows := p.pixels[Clamp(r0, height)..Clamp(r1, height)];
    var lo, hi := Clamp(c0, width), Clamp(c1, width);
    Picture(Size(hi - lo, |rows|), seq(|rows|, y requires 0 <= y < |rows| => rows[y][lo..hi]))
  }

  /** Lines 149-152 as written: the row range is as long as the subset's
      `size[0]` (its width) and the column range as long as its `size[1]`
      (its height). */
  function RegionAsWritten(original: Picture, loc: Location, extent: Size): Picture
    requires WellFormed(original)
  {
    Slice(original, loc.row, loc.row + extent.width, loc.col, loc.col + extent.height)
  }

  /** Inside the original, the region as written is `extent` with width and
      height swapped, so it has the subset's shape only when the subset is
      square. */
  lemma RegionExtentTransposed(original: Picture, loc: Location, extent: Size)
    requires WellFormed(original)
    requires loc.row + extent.width <= original.size.height
    requires loc.col + extent.height <= original.size.width
    ensures RegionAsWritten(original, loc, extent).size == Size(extent.height, extent.width)
    ensures RegionAsWritten(original, loc, extent).size == extent <==> extent.width == extent.height
  {
  }

  /** With the region inside the original, the area compared is the top-left
      square of side min(width, height) of the subset, whatever its shape. */
  lemma ComparedAreaIsSquare(original: Picture, loc: Location, subset: Picture)
    requires WellFormed(original) && WellFormed(subset)
    requires loc.row + subset.size.width <= original.size.height
    requires loc.col + subset.size.height <= original.size.width
    ensures var m := Min(subset.size.width, subset.size.height);
            Difference(RegionAsWritten(original, loc, subset.size), subset).size == Size(m, m)
  {
  }

  function AbsDiff(a: Byte, b: Byte): Byte
  {
    if a < b then b - a else a - b
  }

  function PixelDifference(p: Pixel, q: Pixel): Pixel
  {
    Pixel(AbsDiff(p.red, q.red), AbsDiff(p.green, q.green), AbsDiff(p.blue, q.blue))
  }

  /** `ImageChops.difference(a, b)`: per channel absolute difference over the
      area both images cover (the imaging library cuts the result to the
      smaller width and the smaller height). */
  function Difference(a: Picture, b: Picture): (d: Picture)
    requires WellFormed(a) && WellFormed(b)
    ensures WellFormed(d)
    ensures d.size == Size(Min(a.size.width, b.size.width), Min(a.size.height, b.size.height))
    ensures forall y, x :: 0 <= y < d.size.height && 0 <= x < d.size.width ==>
              d.pixels[y][x] == PixelDifference(a.pixels[y][x], b.pixels[y][x])
  {
    var width, height := Min(a.size.width, b.size.width), Min(a.size.height, b.size.height);
    Picture(Size(width, height),
      seq(height, y requires 0 <= y < height =>
        seq(width, x requires 0 <= x < width => PixelDifference(a.pixels[y][x], b.pixels[y][x]))))
  }

  // ---------------------------------------------------------------------
  // Histogram and square sum

  /** Number of bins of an RGB histogram: 256 per channel, red, green, blue. */
  const Bins: nat := 768

  function Square(v: int): nat
  {
    v * v
  }

  /** The histogram bin each channel sample of each pixel falls into. */
  function Samples(ps: seq<Pixel>): (bins: seq<int>)
    ensures |bins| == 3 * |ps|
    ensures forall i :: 0 <= i < |bins| ==> 0 <= bins[i] < Bins
  {
    if ps == [] then []
    else
      var p := ps[|ps| - 1];
      Samples(ps[..|ps| - 1]) + [p.red, 256 + p.green, 512 + p.blue]
  }

  /** `histogram()` of an RGB image whose samples fall into `bins`. */
  function Histogram(bins: seq<int>): (h: seq<nat>)
    requires forall i :: 0 <= i < |bins| ==> 0 <= bins[i] < Bins
    ensures |h| == Bins
  {
    if bins == [] then seq(Bins, _ => 0)
    else
      var h := Histogram(bins[..|bins| - 1]);
      var b := bins[|bins| - 1];
      h[b := h[b] + 1]
  }

  /** Line 157: `sum(value * ((index % 256) ** 2) for index, value in enumerate(h))`. */
  function WeightedSquareSum(h: seq<nat>): nat
  {
    if h == [] then 0
    else WeightedSquareSum(h[..|h| - 1]) + h[|h| - 1] * Square((|h| - 1) % 256)
  }

  /** Reference definition: the sum over every pixel of the squares of its three
      channel values. */
  function ChannelSquares(ps: seq<Pixel>): nat
  {
    if ps == [] then 0
    else
      var p := ps[|ps| - 1];
      ChannelSquares(ps[..|ps| - 1]) + Square(p.red) + Square(p.green) + Square(p.blue)
  }

  /** The sum of the squared channel values a sequence of bin indices records. */
  function BinSquares(bins: seq<int>): nat
  {
    if bins == [] then 0 else BinSquares(bins[..|bins| - 1]) + Square(bins[|bins| - 1] % 256)
  }

  /** The square sum of lines 156-157 for a subset and the region it is
      compared with. */
  function SquareSum(region: Picture, subset: Picture): nat
    requires WellFormed(region) && WellFormed(subset)
  {
    WeightedSquareSum(Histogram(Samples(Flatten(Difference(region, subset).pixels))))
  }

  lemma {:induction false} WeightedSquareSumOfZeros(h: seq<nat>)
    requires forall i :: 0 <= i < |h| ==> h[i] == 0
    ensures WeightedSquareSum(h) == 0
  {
    if h != [] {
      WeightedSquareSumOfZeros(h[..|h| - 1]);
    }
  }

  /** One more sample in bin b adds (b mod 256)^2 to the weighted sum. */
  lemma {:induction false} WeightedSquareSumBump(h: seq<nat>, b: nat)
    requires b < |h|
    ensures WeightedSquareSum(h[b := h[b] + 1]) == WeightedSquareSum(h) + Square(b % 256)
  {
    var n := |h|;
    var h' := h[b := h[b] + 1];
    if b == n - 1 {
      assert h'[..n - 1] == h[..n - 1];
    } else {
      assert h'[..n - 1] == h[..n - 1][b := h[b] + 1];
      WeightedSquareSumBump(h[..n - 1], b);
    }
  }

  lemma {:induction false} HistogramSum(bins: seq<int>)
    requires forall i :: 0 <= i < |bins| ==> 0 <= bins[i] < Bins
    ensures WeightedSquareSum(Histogram(bins)) == BinSquares(bins)
  {
    if bins == [] {
      WeightedSquareSumOfZeros(seq(Bins, _ => 0));
    } else {
      var init := bins[..|bins| - 1];
      HistogramSum(init);
      WeightedSquareSumBump(Histogram(init), bins[|bins| - 1]);
    }
  }

  lemma {:induction false} BinSquaresAppend(a: seq<int>, b: seq<int>)
    ensures BinSquares(a + b) == BinSquares(a) + BinSquares(b)
  {
    if b != [] {
      assert (a + b)[..|a + b| - 1] == a + b[..|b| - 1];
      BinSquaresAppend(a, b[..|b| - 1]);
    } else {
      assert a + b == a;
    }
  }

  lemma {:induction false} SamplesSquares(ps: seq<Pixel>)
    ensures BinSquares(Samples(ps)) == ChannelSquares(ps)
  {
    if ps != [] {
      var p := ps[|ps| - 1];
      var tail := [p.red, 256 + p.green, 512 + p.blue];
      SamplesSquares(ps[..|ps| - 1]);
      BinSquaresAppend(Samples(ps[..|ps| - 1]), tail);
      assert (256 + p.green) % 256 == p.green && (512 + p.blue) % 256 == p.blue;
      assert tail[..2] == [p.red, 256 + p.green] && tail[..2][..1] == [p.red] && [p.red][..0] == [];
      assert BinSquares([p.red]) == Square(p.red);
      assert BinSquares(tail[..2]) == Square(p.red) + Square(p.green);
      assert BinSquares(tail) == Square(p.red) + Square(p.green) + Square(p.blue);
    }
  }

  /** The histogram-weighted sum of line 157 is the sum, over every channel
      sample of the pixels, of the sample's square. */
  lemma SquareSumIdentity(ps: seq<Pixel>)
    ensures WeightedSquareSum(Histogram(Samples(ps))) == ChannelSquares(ps)
  {
    HistogramSum(Samples(ps));
    SamplesSquares(ps);
  }

  lemma {:induction false} ChannelSquaresOfBlack(ps: seq<Pixel>)
    requires forall i :: 0 <= i < |ps| ==> ps[i] == Pixel(0, 0, 0)
    ensures ChannelSquares(ps) == 0
  {
    if ps != [] {
      ChannelSquaresOfBlack(ps[..|ps| - 1]);
    }
  }

  lemma {:induction false} FlattenMembers<T>(m: seq<seq<T>>, v: T)
    requires v in Flatten(m)
    ensures exists r :: 0 <= r < |m| && v in m[r]
  {
    if v !in m[0] {
      FlattenMembers(m[1..], v);
      var r :| 0 <= r < |m[1..]| && v in m[1..][r];
      assert v in m[r + 1];
    }
  }

  /** A region that agrees with the subset on the area both cover gives a
      square sum of 0. */
  lemma AgreeingRegionSumsToZero(region: Picture, subset: Picture)
    requires WellFormed(region) && WellFormed(subset)
    requires forall y, x ::
               0 <= y < Min(region.size.height, subset.size.height) &&
               0 <= x < Min(region.size.width, subset.size.width) ==>
               region.pixels[y][x] == subset.pixels[y][x]
    ensures SquareSum(region, subset) == 0
  {
    var d := Difference(region, subset);
    var ps := Flatten(d.pixels);
    forall i | 0 <= i < |ps| ensures ps[i] == Pixel(0, 0, 0) {
      FlattenMembers(d.pixels, ps[i]);
      var y :| 0 <= y < |d.pixels| && ps[i] in d.pixels[y];
      var x :| 0 <= x < |d.pixels[y]| && d.pixels[y][x] == ps[i];
    }
    ChannelSquaresOfBlack(ps);
    SquareSumIdentity(ps);
  }

  // ---------------------------------------------------------------------
  // The match decision

  /** The global `RMS` of line 18. */
  const RmsThreshold: nat := 50

  /** `RMS > sqrt(square_sum / pixels)` of lines 158 and 161, in integers. */
  predicate IsMatch(squareSum: nat, pixelCount: int)
  {
    squareSum < RmsThreshold * RmsThreshold * pixelCount
  }

  /** The integer test is the source's test on the root mean square: for the
      non-negative root `rms` of square_sum / pixels, the pair matches iff
      rms < 50. An rms of exactly 50 is not a match. */
  lemma MatchIffRmsBelowThreshold(squareSum: nat, pixelCount: nat, rms: real)
    requires pixelCount > 0 && rms >= 0.0
    requires rms * rms == squareSum as real / pixelCount as real
    ensures IsMatch(squareSum, pixelCount) <==> (RmsThreshold as real) > rms
    ensures rms == 50.0 ==> !IsMatch(squareSum, pixelCount)
  {
    var n, s := pixelCount as real, squareSum as real;
    var mean := s / n;
    assert mean * n == s;
    if rms < 50.0 {
      assert rms * rms <= rms * 50.0 < 2500.0 || rms == 0.0;
      assert mean < 2500.0;
      assert s < 2500.0 * n;
    } else {
      assert rms * rms >= rms * 50.0 >= 2500.0;
      assert s >= 2500.0 * n;
    }
  }
}
