# Subset-image matching engine, modelled in Dafny

`image_analysis.py` finds, in a directory of JPEG images, the pairs where one
image is a cropped (and possibly rescaled) part of another. Its window is a
presentation layer. Its core is a small matching engine, modelled here:

- **search** (`listing.dfy`, `pairs.dfy`, `session.dfy`): the directory listing
  is filtered to names ending in `.JPG` or `.jpg`. Fewer than two images stop
  the search. Otherwise every ordered pair of distinct names is queued by two
  nested loops.
- **process_queue** (`matching.dfy`, `scaling.dfy`, `surface.dfy`,
  `verification.dfy`, `session.dfy`): each timer tick takes one pair off the
  queue. A subset that is strictly smaller than the original in both
  dimensions is searched for on the correlation surface. The search is
  downscaled when the original exceeds 640 in either dimension. The surface's
  first maximum in row-major order is the location, mapped back to full
  resolution when the search was downscaled. The region of the original at
  that location is compared with the subset by a histogram of absolute
  channel differences. The pair matches when the root mean square is below 50.
  Progress steps by one per pair, and the stepper reschedules itself while
  pairs remain.

Module layout: `Arith` (division facts), `Grid` (row-major flattening),
`Listing`, `Pairs`, `Scaling`, `Surface`, `Verification`, `Matching`,
`Session`. `Session.ImageAnalysis` is the class whose fields the source
updates in place: the queue, the progress count, the results table, and
whether a tick is scheduled. Everything else is pure.

Modelling choices that follow the code:

- The float ratio `min(640 / w, 640 / h)` is an exact fraction `Ratio`.
  `int(ratio * x)` is `Scale` and `int(y / ratio)` is `Rescale`, both floors.
- The region of lines 149-152 is sliced as written. Its row range has the
  subset's width (`size[0]`) and its column range the subset's height
  (`size[1]`). `RegionExtentTransposed` shows the result: inside the image the
  region has the subset's shape only when the subset is square. numpy's
  slicing clamps bounds past the end, and `Slice` does the same. The
  difference image covers the area both images share, as the imaging library's
  `ImageChops.difference` does. Together these mean that only the top-left
  square of side min(w, h) of the subset is compared
  (`ComparedAreaIsSquare`), while line 158 still divides the square sum by
  w * h. An exact crop of any shape therefore scores 0 (`ExactCropMatches`).
- The decision `RMS > sqrt(square_sum / (w * h))` is the integer test
  `square_sum < 2500 * w * h`. `MatchIffRmsBelowThreshold` proves over the
  reals that the two agree, and that an rms of exactly 50 is not a match.
- An image that cannot be opened raises inside `process_queue`. The pair has
  already left the queue. Progress does not step, nothing is rescheduled, and
  the buttons stay disabled. `Tick` models this as the phase `Halted`.
- Scaling a location and then rescaling it need not give it back or the one
  before it: at ratio 1/3, location 2 scales to 0 and rescales to 0. What holds
  is the other composition, `RescaleRoundTrip`.
- The code never checks that the region lies inside the original: numpy clamps
  the slice and the comparison runs over what remains.

## Model

| member | source | states |
|---|---|---|
| `Listing.ImageNameCases` | image_analysis.py:68-73 | a listing entry is kept exactly when its name ends in ".JPG" or ".jpg" |
| `Listing.OtherSpellingsExcluded` | image_analysis.py:68-73 | names ending in ".jpeg", ".JPEG" or ".Jpg" are never kept (the suffix test is case-sensitive) |
| `Listing.ImageNamesMembers` | image_analysis.py:73 | a name is in the image list iff it is in the listing and has a supported extension |
| `Listing.ImageNamesAppend` | image_analysis.py:73 | filtering distributes over concatenation, so listing order is preserved |
| `Listing.ImageNamesSingle` | image_analysis.py:73 | a single entry is kept alone or dropped |
| `Listing.ImageNamesShorter` | image_analysis.py:73 | the filter never adds entries, and every kept entry is an image name |
| `Listing.ImageNamesDistinct` | image_analysis.py:73 | distinct directory entries give distinct image names |
| `Pairs.EnumeratePairs` | image_analysis.py:84-89 | the nested loops build exactly the queue `OrderedPairs(images)` |
| `Pairs.PairMembers` | image_analysis.py:86-89 | a pair is queued iff both names are images and they differ |
| `Pairs.NoSelfPair` | image_analysis.py:88 | no queued pair has the form (x, x) |
| `Pairs.PairsDistinct` | image_analysis.py:84-89 | for distinct names no pair is queued twice, so each pair is processed at most once |
| `Pairs.PairCount` | image_analysis.py:84-89 | for distinct names the queue holds exactly n * (n - 1) pairs |
| `Pairs.PairAt` | image_analysis.py:86-89 | outer-then-inner order: (images[i], images[j]) sits at position i * (n - 1) + (j if j < i else j - 1) |
| `Scaling.RatioFor` | image_analysis.py:114-128 | the ratio is one iff neither side of the original exceeds 640; otherwise it is below one, both sides fit 640 when scaled by it, and it equals one of the two quotients |
| `Scaling.UnitRatioIsIdentity` | image_analysis.py:127-142 | at ratio one, scaling and rescaling change nothing |
| `Scaling.WorkingSizeFits` | image_analysis.py:115-121 | a downscaled original fits 640 x 640 and meets the bound on one side |
| `Scaling.SubsetStaysWithin` | image_analysis.py:119-124 | a subset smaller than the original is no larger than it after both are scaled by the original's ratio |
| `Scaling.RescaleRoundTrip` | image_analysis.py:142 | scaling a rescaled working coordinate gives it back or the one before it |
| `Scaling.RescaleInside` | image_analysis.py:142 | a coordinate inside the downscaled extent rescales to one inside the full extent |
| `Surface.FirstMax` | image_analysis.py:138 | `np.argmax`: an in-range index whose score is the maximum and strictly above every earlier score |
| `Surface.UnravelInverse` | image_analysis.py:138 | `unravel_index` gives row < rows, col < cols and row * cols + col = the flat index |
| `Surface.RavelUnravel` | image_analysis.py:138 | unravelling row * cols + col gives (row, col) back |
| `Surface.BestLocationIsFirstMaximum` | image_analysis.py:136-138 | the location lies on the surface, is the argmax index unravelled, holds the maximum, and every cell before it in row-major order scores strictly less |
| `Verification.Slice` | image_analysis.py:149-152 | numpy slicing with clamped bounds: the slice's size and that each of its pixels is the original's pixel at the offset position |
| `Verification.RegionExtentTransposed` | image_analysis.py:149-152 | inside the image the region as written has width and height of the subset swapped; it has the subset's shape iff the subset is square |
| `Verification.ComparedAreaIsSquare` | image_analysis.py:149-156 | with the region inside the original, the difference image, and so the area compared, is the min(w, h) x min(w, h) top-left square, whatever the subset's shape |
| `Verification.Difference` | image_analysis.py:156 | the difference image covers the shared area and holds the per-channel absolute differences |
| `Verification.SquareSumIdentity` | image_analysis.py:156-157 | the histogram-weighted sum of (index mod 256)^2 equals the sum of the squares of all channel samples |
| `Verification.AgreeingRegionSumsToZero` | image_analysis.py:153-157 | a region equal to the subset on the shared area gives square sum 0 |
| `Verification.MatchIffRmsBelowThreshold` | image_analysis.py:158-161 | square_sum < 2500 * w * h iff the root mean square is below the threshold 50 of line 18; an rms of exactly 50 is not a match |
| `Matching.Analyse` | image_analysis.py:112-161 | only strictly smaller subsets are compared; the location is the first maximum, rescaled iff the original is oversized; the square sum is the sum of squared channel differences over the region; the pair matches iff it is below 2500 * w * h |
| `Matching.AgreeingRegionMatches` | image_analysis.py:149-161 | a region that agrees with the subset on the shared area scores 0 and matches |
| `Matching.ExactCropMatches` | image_analysis.py:112-161 | an exact crop of any shape at the surface's best location, at full resolution, is a match with square sum 0 |
| `Matching.FullResolutionLocationFits` | image_analysis.py:136-152 | searched at full resolution, the location leaves room for the whole subset |
| `Matching.DownscaledLocationInside` | image_analysis.py:141-152 | after a downscaled search, the rescaled location lies inside the full-resolution original |
| `Session.ImageAnalysis.Search` | image_analysis.py:64-102 | an unreadable directory or fewer than two images change nothing; otherwise a fresh queue of all n * (n - 1) pairs without repeats, progress 0, no results, a tick scheduled |
| `Session.ImageAnalysis.Tick` | image_analysis.py:104-177 | exactly the queue head is removed and never met again; a failed open halts without stepping; otherwise progress steps by one, a result is added only for a match, and a tick is rescheduled iff pairs remain; progress + remaining = total is kept |

## Left out

- The tkinter window, dialogs, results-table rendering, status text and progress-bar widget: presentation only. The buttons' enabled state appears only as the phase that `Search` requires.
- `os.listdir`, `Image.open` and `os.path.join`: file I/O. The listing is an input and the directory is a map from names to decoded pictures. A name missing from the map is an image that cannot be opened.
- `resize(..., ANTIALIAS)`, `convert('L')` and `match_template`: foreign resampling, colour conversion and normalized cross-correlation. The correlation surface is an input grid of integer scores, so floating-point scores and NaN are not modelled.
- IEEE rounding of `ratio * size` and `loc / ratio`: the ratio is an exact fraction, so a float product that rounds just below an integer is not modelled.
- `sqrt`: the decision is stated in integers and related to the real root by a lemma.
- `time()` and `master.after`: the clock and the event loop. One `Tick` call is one timer firing, and elapsed time is not reported.
- The results table's row identifiers, taken from the progress value: results are a sequence of pairs.
- Images that are not RGB (for example greyscale JPEGs): every picture has three channels. The imaging library would refuse to compare such an image with the RGB region.
- Decoding that fails after a file opens: only a failed open is modelled.
- Reopening the files after a downscaled search: the reopened images hold the same pixels as the first open, so `Analyse` reads each picture once.
- A subset that a downscale shrinks to zero width or height: what the imaging library and `match_template` do with it is foreign behaviour, and `Analyse` takes whatever non-empty surface it is given.
- `Analyse` and `Tick` do not require the surface to have `match_template`'s shape (`TemplateShape`): any non-empty surface is accepted, and one whose best location lies outside the original gives an empty region, square sum 0 and a match. The library's surfaces never do that (`FullResolutionLocationFits`, `DownscaledLocationInside`).
