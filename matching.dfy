/** The analysis of one pair, the body of `process_queue` between taking the
    pair off the queue and stepping the progress bar (image_analysis.py,
    lines 112-161): the size gate, the resize decision, the best location on
    the correlation surface, its mapping back to full resolution, and the
    square-sum test of the region found there. */
module Matching {
  import opened Arith
  import opened Grid
  import opened Scaling
  import opened Surface
  import opened Verification

  /** What the analysis of one pair concludes: either the pair was not
      compared, or the location used, the square sum and the decision. */
  datatype Verdict = Skipped | Compared(location: Location, squareSum: nat, matched: bool)

  /** An image as `Image.open` decodes it: a positive size and pixels of it. */
  predicate Decoded(p: Picture)
  {
    WellFormed(p) && p.size.width >= 1 && p.size.height >= 1
  }

  /** Line 112: the subset is strictly narrower and strictly lower. */
  predicate IsCandidate(original: Size, subset: Size)
  {
    subset.width < original.width && subset.height < original.height
  }

  /** Lines 141-142: a location found at a ratio other than one is divided by
      it, coordinate by coordinate. */
  function FullResolution(found: Location, ratio: Ratio): Location
  {
    if !IsOne(ratio) then Location(Rescale(found.row, ratio), Rescale(found.col, ratio)) else found
  }

  /** Lines 112-161 for the pair (original, subset). `surface` is what
      `match_template` returns for the pair's grey images at working
      resolution; the pictures are the full-resolution images, which the
      source reopens after a downscaled search. `match_template` gives a
      surface of `TemplateShape`; the function accepts any non-empty one, and
      a best location outside the original gives an empty region, square sum
      0 and a match (see `FullResolutionLocationFits` and
      `DownscaledLocationInside` for the surfaces the library produces). */
  function Analyse(original: Picture, subset: Picture, surface: seq<seq<int>>): (v: Verdict)
    requires Decoded(original) && Decoded(subset) && IsSurface(surface)
    // only a strictly smaller subset is compared; every other pair gives no result
    ensures v.Compared? <==> IsCandidate(original.size, subset.size)
    // the location is the surface's first maximum, mapped back exactly when
    // the original is larger than 640 in either dimension
    ensures v.Compared? && !Oversized(original.size) ==> v.location == BestLocation(surface)
    ensures v.Compared? && Oversized(original.size) ==>
              v.location == Location(Rescale(BestLocation(surface).row, RatioFor(original.size)),
                                     Rescale(BestLocation(surface).col, RatioFor(original.size)))
    // the square sum is the sum of squared channel differences between the
    // region there and the subset
    ensures v.Compared? ==>
              v.squareSum ==
              ChannelSquares(Flatten(Difference(RegionAsWritten(original, v.location, subset.size), subset).pixels))
    // the decision is rms < 50, that is square_sum < 2500 * width * height
    ensures v.Compared? ==>
              (v.matched <==> v.squareSum < 2500 * (subset.size.width * subset.size.height))
  {
    if IsCandidate(original.size, subset.size) then
      var ratio := RatioFor(original.size);
      var location := FullResolution(BestLocation(surface), ratio);
      var region := RegionAsWritten(original, location, subset.size);
      var squareSum := SquareSum(region, subset);
      var pixelCount := subset.size.width * subset.size.height;
      SquareSumIdentity(Flatten(Difference(region, subset).pixels));
      assert IsMatch(squareSum, pixelCount) <==> squareSum < 2500 * pixelCount;
      Compared(location, squareSum, IsMatch(squareSum, pixelCount))
    else
      Skipped
  }

  /** A region that agrees with the subset wherever the two overlap scores 0
      and is a match. */
  lemma AgreeingRegionMatches(original: Picture, subset: Picture, surface: seq<seq<int>>)
    requires Decoded(original) && Decoded(subset) && IsSurface(surface)
    requires IsCandidate(original.size, subset.size)
    requires var region := RegionAsWritten(original, Analyse(original, subset, surface).location, subset.size);
             forall y, x ::
               0 <= y < Min(region.size.height, subset.size.height) &&
               0 <= x < Min(region.size.width, subset.size.width) ==>
               region.pixels[y][x] == subset.pixels[y][x]
    ensures Analyse(original, subset, surface).squareSum == 0
    ensures Analyse(original, subset, surface).matched
  {
    var v := Analyse(original, subset, surface);
    var region := RegionAsWritten(original, v.location, subset.size);
    AgreeingRegionSumsToZero(region, subset);
    SquareSumIdentity(Flatten(Difference(region, subset).pixels));
    MulMono(1, subset.size.width, subset.size.height);
  }

  /** An exact crop found by the surface at full resolution (the scenario of
      an original of at most 640 x 640 containing the subset's pixels at the
      best location) is reported as a match with square sum 0, whatever the
      subset's shape: the region as written agrees with the subset wherever
      the two overlap. */
  lemma ExactCropMatches(original: Picture, subset: Picture, surface: seq<seq<int>>)
    requires Decoded(original) && Decoded(subset) && IsSurface(surface)
    requires IsCandidate(original.size, subset.size) && !Oversized(original.size)
    requires var at := BestLocation(surface);
             at.row + subset.size.height <= original.size.height &&
             at.col + subset.size.width <= original.size.width &&
             forall y, x :: 0 <= y < subset.size.height && 0 <= x < subset.size.width ==>
               original.pixels[at.row + y][at.col + x] == subset.pixels[y][x]
    ensures Analyse(original, subset, surface) == Compared(BestLocation(surface), 0, true)
  {
    var at := BestLocation(surface);
    var region := RegionAsWritten(original, at, subset.size);
    assert forall y, x ::
             0 <= y < Min(region.size.height, subset.size.height) &&
             0 <= x < Min(region.size.width, subset.size.width) ==>
             region.pixels[y][x] == subset.pixels[y][x];
    AgreeingRegionMatches(original, subset, surface);
  }

  /** The shape `match_template` gives for a template inside an image:
      one score for every placement of the template. */
  predicate TemplateShape(surface: seq<seq<int>>, image: Size, template: Size)
  {
    template.width <= image.width && template.height <= image.height &&
    |surface| == image.height - template.height + 1 &&
    Rectangular(surface, image.width - template.width + 1)
  }

  /** Searched at the original's own resolution, the location leaves room for
      the whole subset. */
  lemma FullResolutionLocationFits(original: Picture, subset: Picture, surface: seq<seq<int>>)
    requires Decoded(original) && Decoded(subset) && IsSurface(surface)
    requires IsCandidate(original.size, subset.size) && !Oversized(original.size)
    requires TemplateShape(surface, original.size, subset.size)
    ensures Analyse(original, subset, surface).location.row + subset.size.height <= original.size.height
    ensures Analyse(original, subset, surface).location.col + subset.size.width <= original.size.width
  {
    BestLocationIsFirstMaximum(surface);
  }

  /** Searched at working resolution, the rescaled location still lies inside
      the full-resolution original, so the region taken there is not empty. */
  lemma DownscaledLocationInside(original: Picture, subset: Picture, surface: seq<seq<int>>)
    requires Decoded(original) && Decoded(subset) && IsSurface(surface)
    requires IsCandidate(original.size, subset.size) && Oversized(original.size)
    requires var ratio := RatioFor(original.size);
             var small := WorkingSize(subset.size, ratio);
             small.width >= 1 && small.height >= 1 &&
             TemplateShape(surface, WorkingSize(original.size, ratio), small)
    ensures Analyse(original, subset, surface).location.row < original.size.height
    ensures Analyse(original, subset, surface).location.col < original.size.width
  {
    var ratio := RatioFor(original.size);
    var found := BestLocation(surface);
    BestLocationIsFirstMaximum(surface);
    RescaleInside(found.row, original.size.height, ratio);
    RescaleInside(found.col, original.size.width, ratio);
  }
}
