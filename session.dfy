/** The stateful part of `imageAnalysis` (image_analysis.py): `search` builds
    a fresh pair queue and schedules the stepper; each call of
    `process_queue` takes one pair off the queue, analyses it, records it if
    it matches, steps the progress and reschedules itself while pairs remain.
    The GUI event loop is left to the caller: one call of `Tick` is one run of
    `process_queue` fired by the timer. */
module Session {
  import opened Arith
  import opened Listing
  import opened Pairs
  import opened Surface
  import opened Verification
  import opened Matching

  /** What `os.listdir` gives for the search directory. */
  datatype DirectoryListing = Unreadable | Entries(names: seq<string>)

  /** The images of the directory that `Image.open` can decode, by name. */
  type Directory = map<string, Picture>

  predicate Decodable(dir: Directory)
  {
    forall name :: name in dir ==> Decoded(dir[name])
  }

  /** Whether a run of `process_queue` is pending on the timer. `Halted` is
      the state an exception inside `process_queue` leaves behind: nothing is
      rescheduled and the buttons stay disabled. */
  datatype Phase = Idle | Scheduled | Halted

  datatype SearchOutcome = InvalidDirectory | NotEnoughImages | Started(pairCount: nat)

  datatype TickOutcome = OpenFailed(pair: Pair) | Analysed(pair: Pair, verdict: Verdict)

  class ImageAnalysis {
    /** `self.queue`, head first. */
    var queue: seq<Pair>
    /** The progress bar's maximum, the queue size when the search started. */
    var total: nat
    /** Pairs fully processed: the progress bar's steps. */
    var progress: nat
    /** The rows of the results table: (original, subset) per match, in order. */
    var results: seq<Pair>
    var phase: Phase
    /** Every pair the current search put on the queue. */
    ghost var Enumerated: seq<Pair>

    ghost predicate Valid()
      reads this
    {
      total == |Enumerated| &&
      |queue| <= total && queue == Enumerated[total - |queue|..] &&
      // progress + remaining = total pairs; a halted tick took a pair without stepping
      progress + |queue| + (if phase == Halted then 1 else 0) == total &&
      (phase == Scheduled ==> queue != []) &&
      // only processed pairs are ever reported, and no pair pairs an image with itself
      (forall p :: p in results ==> p in Enumerated[..progress]) &&
      (forall k :: 0 <= k < |Enumerated| ==> Enumerated[k].0 != Enumerated[k].1) &&
      // no pair is queued twice, so each pair is processed at most once
      NoRepeats(Enumerated)
    }

    /** The window before any search. */
    constructor ()
      ensures Valid()
      ensures queue == [] && total == 0 && progress == 0 && results == [] && phase == Idle
    {
      queue, total, progress, results, phase := [], 0, 0, [], Idle;
      Enumerated := [];
    }

    /** `search` (lines 64-102), once the search button is enabled. The listing
        of a directory holds each name once. */
    method Search(listing: DirectoryListing) returns (outcome: SearchOutcome)
      requires Valid() && phase == Idle
      requires listing.Entries? ==> Distinct(listing.names)
      modifies this
      ensures Valid()
      // an unreadable directory, or fewer than two images, stops before any queue is built
      ensures listing.Unreadable? ==> outcome == InvalidDirectory && unchanged(this)
      ensures listing.Entries? && |ImageNames(listing.names)| < 2 ==>
                outcome == NotEnoughImages && unchanged(this)
      // otherwise a fresh queue of all n * (n - 1) ordered pairs, and no results yet
      ensures listing.Entries? && |ImageNames(listing.names)| >= 2 ==>
                var n := |ImageNames(listing.names)|;
                outcome == Started(n * (n - 1)) &&
                queue == OrderedPairs(ImageNames(listing.names)) && Enumerated == queue &&
                total == |queue| == n * (n - 1) &&
                progress == 0 && results == [] && phase == Scheduled
    {
      if listing.Unreadable? {
        return InvalidDirectory;
      }
      var images := ImageNames(listing.names);
      if |images| < 2 {
        return NotEnoughImages;
      }
      var pairs := EnumeratePairs(images);
      ImageNamesDistinct(listing.names);
      PairCount(images);
      NoSelfPair(images);
      PairsDistinct(images);
      assert NoRepeats(pairs);
      MulMono(2, |images|, |images| - 1);
      queue, Enumerated := pairs, pairs;
      results := [];
      total, progress := |pairs|, 0;
      phase := Scheduled;
      outcome := Started(|pairs|);
    }

    /** One run of `process_queue` (lines 104-177). `dir` is what the
        directory holds and `surface` is what `match_template` returns for
        the pair at the head of the queue: the caller supplies a surface of
        `TemplateShape` for the subset inside the original at working size.
        Any other non-empty surface is accepted too, and a best location
        outside the original then gives an empty region and square sum 0. */
    method Tick(dir: Directory, surface: seq<seq<int>>) returns (outcome: TickOutcome)
      requires Valid() && phase == Scheduled
      requires Decodable(dir) && IsSurface(surface)
      modifies this
      ensures Valid()
      // exactly the head of the queue is taken
      ensures queue == old(queue)[1..] && total == old(total) && Enumerated == old(Enumerated)
      // the pair taken is never met again
      ensures old(queue)[0] !in queue
      // an image that cannot be opened raises: no step, no result, no reschedule
      ensures var pair := old(queue)[0];
              pair.0 !in dir || pair.1 !in dir ==>
                outcome == OpenFailed(pair) && phase == Halted &&
                progress == old(progress) && results == old(results)
      // otherwise one step; a result only for a match; rescheduled while pairs remain
      ensures var pair := old(queue)[0];
              pair.0 in dir && pair.1 in dir ==>
                var verdict := Analyse(dir[pair.0], dir[pair.1], surface);
                outcome == Analysed(pair, verdict) &&
                progress == old(progress) + 1 &&
                results == old(results) + (if verdict.Compared? && verdict.matched then [pair] else []) &&
                phase == (if queue == [] then Idle else Scheduled)
    {
      var pair := queue[0];
      assert pair == Enumerated[progress];
      ghost var start := total - |queue|;
      TakenNotAgain(Enumerated, start);
      assert queue[1..] == Enumerated[start + 1..];
      queue := queue[1..];
      if pair.0 !in dir || pair.1 !in dir {
        phase := Halted;
        return OpenFailed(pair);
      }
      var original, subset := dir[pair.0], dir[pair.1];
      var verdict := Analyse(original, subset, surface);
      if verdict.Compared? && verdict.matched {
        results := results + [pair];
      }
      assert Enumerated[..progress + 1] == Enumerated[..progress] + [pair];
      progress := progress + 1;
      phase := if queue == [] then Idle else Scheduled;
      outcome := Analysed(pair, verdict);
    }
  }
}
