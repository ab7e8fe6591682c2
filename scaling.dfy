/** The size-aware downscaling of a pair before the correlation search and the
    mapping of the found location back to full resolution (image_analysis.py,
    `process_queue`, lines 114-128 and 141-142). The float ratio of the source
    is modelled as an exact fraction; `int(...)` of a non-negative value is
    the floor. */
module Scaling {
  import opened Arith

  /** PIL's `size`: `size[0]` is the width, `size[1]` the height. */
  datatype Size = Size(width: nat, height: nat)

  /** The source names the bound compared with `size[0]` `max_length` and the
      one compared with `size[1]` `max_width`; both are 640. */
  const MaxLength: Positive := 640
  const MaxWidth: Positive := 640

  /** The test of line 114. */
  predicate Oversized(s: Size)
  {
    s.width > MaxLength || s.height > MaxWidth
  }

  /** A non-negative rational num / den. */
  datatype Ratio = Ratio(num: Positive, den: Positive)

  /** `ratio == 1` */
  predicate IsOne(r: Ratio)
  {
    r.num == r.den
  }

  /** Lines 114-115 and 128: `min(max_length / w, max_width / h)` for an
      oversized original (Python's `min` keeps the first of two equal ones),
      1 otherwise. */
  function RatioFor(s: Size): (r: Ratio)
    requires s.width >= 1 && s.height >= 1
    // the ratio is one exactly when no downscaling is needed, and below one otherwise
    ensures IsOne(r) <==> !Oversized(s)
    ensures Oversized(s) ==> r.num < r.den
    // it is the smaller of the two quotients: scaled by it, both sides fit
    ensures r.num * s.width <= MaxLength * r.den && r.num * s.height <= MaxWidth * r.den
    ensures Oversized(s) ==>
              r.num * s.width == MaxLength * r.den || r.num * s.height == MaxWidth * r.den
  {
    if Oversized(s) then
      if MaxLength * s.height <= MaxWidth * s.width then Ratio(MaxLength, s.width)
      else Ratio(MaxWidth, s.height)
    else Ratio(1, 1)
  }

  /** `int(ratio * x)`, the resized extent of lines 119-124. */
  function Scale(x: nat, r: Ratio): nat
  {
    (r.num * x) / r.den
  }

  /** `int(y / ratio)`, the rescaled coordinate of line 142. */
  function Rescale(y: nat, r: Ratio): nat
  {
    (y * r.den) / r.num
  }

  /** The size an image is resized to (lines 119-124). */
  function WorkingSize(s: Size, r: Ratio): Size
  {
    Size(Scale(s.width, r), Scale(s.height, r))
  }

  /** A ratio of one leaves extents and coordinates unchanged; this is why the
      source skips both the resize and the rescale when it is one. */
  lemma UnitRatioIsIdentity(r: Ratio, x: nat)
    requires IsOne(r)
    ensures Scale(x, r) == x && Rescale(x, r) == x
  {
    DivCancel(r.num, x);
  }

  /** The downscaled original fits the 640 x 640 bound, and its long side (in
      the sense of the two quotients) lands exactly on it. */
  lemma {:induction false} WorkingSizeFits(s: Size)
    requires s.width >= 1 && s.height >= 1
    requires Oversized(s)
    ensures WorkingSize(s, RatioFor(s)).width <= MaxLength
    ensures WorkingSize(s, RatioFor(s)).height <= MaxWidth
    ensures WorkingSize(s, RatioFor(s)).width == MaxLength ||
            WorkingSize(s, RatioFor(s)).height == MaxWidth
  {
    var r := RatioFor(s);
    DivAtMost(r.num * s.width, MaxLength, r.den);
    DivAtMost(r.num * s.height, MaxWidth, r.den);
    if r.num * s.width == MaxLength * r.den {
      DivCancel(r.den, MaxLength);
    } else {
      DivCancel(r.den, MaxWidth);
    }
  }

  lemma ScaleMono(x: nat, y: nat, r: Ratio)
    requires x <= y
    ensures Scale(x, r) <= Scale(y, r)
  {
    MulMono(x, y, r.num);
    DivMono(r.num * x, r.num * y, r.den);
  }

  /** Both images of a pair are resized by the original's ratio, so a subset
      smaller than the original is still no larger than it after resizing. */
  lemma SubsetStaysWithin(original: Size, subset: Size, r: Ratio)
    requires subset.width < original.width && subset.height < original.height
    ensures WorkingSize(subset, r).width <= WorkingSize(original, r).width
    ensures WorkingSize(subset, r).height <= WorkingSize(original, r).height
  {
    ScaleMono(subset.width, original.width, r);
    ScaleMono(subset.height, original.height, r);
  }

  /** Rescaling a working-resolution coordinate and scaling it back gives the
      coordinate or the one before it: the floor loses less than one step. */
  lemma {:induction false} RescaleRoundTrip(y: nat, r: Ratio)
    requires r.num <= r.den
    ensures y - 1 <= Scale(Rescale(y, r), r) <= y
  {
    var x := Rescale(y, r);
    var z := Scale(x, r);
    // x * num <= y * den < x * num + num
    DivBracket(y * r.den, r.num);
    assert x * r.num == r.num * x;
    // z * den <= num * x <= y * den
    DivAtMost(r.num * x, y, r.den);
    // num * x > y * den - num >= (y - 1) * den
    MulSucc(y - 1, r.den);
    DivAtLeast(r.num * x, y - 1, r.den);
  }

  /** A coordinate inside the downscaled extent maps back inside the full
      extent, so the region taken at full resolution starts inside the image. */
  lemma {:induction false} RescaleInside(y: nat, d: nat, r: Ratio)
    requires y < Scale(d, r)
    ensures Rescale(y, r) < d
  {
    DivBracket(r.num * d, r.den);
    MulMono(y + 1, Scale(d, r), r.den);
    MulSucc(y, r.den);
    // y * den < num * d
    DivBracket(y * r.den, r.num);
    assert Rescale(y, r) * r.num <= y * r.den < d * r.num;
    MulCancelLt(Rescale(y, r), d, r.num);
  }
}
