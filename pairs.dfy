/** The work queue of a search: every ordered pair of distinct image names,
    built by two nested loops over the image list (image_analysis.py,
    `search`, lines 84-89). The first name of a pair is the original, the
    second the candidate subset. */
module Pairs {
  import opened Arith

  /** (original name, subset name), as the tuple `(i, j)` put on the queue. */
  type Pair = (string, string)

  predicate Distinct(names: seq<string>)
  {
    forall i, j :: 0 <= i < j < |names| ==> names[i] != names[j]
  }

  /** What the inner loop appends for the outer name `x` after visiting `js`. */
  function Row(x: string, js: seq<string>): seq<Pair>
  {
    if js == [] then []
    else Row(x, js[..|js| - 1]) + (if x != js[|js| - 1] then [(x, js[|js| - 1])] else [])
  }

  /** What the outer loop has put on the queue after visiting `xs`. */
  function Rows(xs: seq<string>, all: seq<string>): seq<Pair>
  {
    if xs == [] then [] else Rows(xs[..|xs| - 1], all) + Row(xs[|xs| - 1], all)
  }

  /** The whole queue for an image list. */
  function OrderedPairs(images: seq<string>): seq<Pair>
  {
    Rows(images, images)
  }

  /** The nested loops of lines 86-89. */
  method EnumeratePairs(images: seq<string>) returns (queue: seq<Pair>)
    ensures queue == OrderedPairs(images)
  {
    queue := [];
    for a := 0 to |images|
      invariant queue == Rows(images[..a], images)
    {
      var i := images[a];
      for b := 0 to |images|
        invariant queue == Rows(images[..a], images) + Row(i, images[..b])
      {
        var j := images[b];
        if i != j {
          queue := queue + [(i, j)];
        }
        assert images[..b + 1][..b] == images[..b];
      }
      assert images[..a + 1][..a] == images[..a];
      assert images[..|images|] == images;
    }
    assert images[..|images|] == images;
  }

  // ---------------------------------------------------------------------
  // What is on the queue

  lemma {:induction false} RowMembers(x: string, js: seq<string>, p: Pair)
    ensures p in Row(x, js) <==> p.0 == x && p.1 in js && p.1 != x
  {
    if js != [] {
      var init := js[..|js| - 1];
      RowMembers(x, init, p);
      assert js == init + [js[|js| - 1]];
    }
  }

  lemma {:induction false} RowsMembers(xs: seq<string>, all: seq<string>, p: Pair)
    ensures p in Rows(xs, all) <==> p.0 in xs && p.1 in all && p.0 != p.1
  {
    if xs != [] {
      var init := xs[..|xs| - 1];
      RowsMembers(init, all, p);
      RowMembers(xs[|xs| - 1], all, p);
      assert xs == init + [xs[|xs| - 1]];
    }
  }

  /** A pair is queued exactly when both names are images and they differ; in
      particular no pair (x, x) is ever queued. */
  lemma PairMembers(images: seq<string>, p: Pair)
    ensures p in OrderedPairs(images) <==> p.0 in images && p.1 in images && p.0 != p.1
  {
    RowsMembers(images, images, p);
  }

  lemma NoSelfPair(images: seq<string>)
    ensures forall k :: 0 <= k < |OrderedPairs(images)| ==>
              OrderedPairs(images)[k].0 != OrderedPairs(images)[k].1
  {
    forall k | 0 <= k < |OrderedPairs(images)|
      ensures OrderedPairs(images)[k].0 != OrderedPairs(images)[k].1
    {
      PairMembers(images, OrderedPairs(images)[k]);
    }
  }

  /** No entry of `ps` occurs twice. */
  predicate NoRepeats(ps: seq<Pair>)
  {
    forall a, b :: 0 <= a < b < |ps| ==> ps[a] != ps[b]
  }

  lemma AppendNoRepeats(u: seq<Pair>, v: seq<Pair>)
    requires NoRepeats(u) && NoRepeats(v)
    requires forall p :: p in u ==> p !in v
    ensures NoRepeats(u + v)
  {
    forall a, b | 0 <= a < b < |u + v|
      ensures (u + v)[a] != (u + v)[b]
    {
      if b < |u| {
        assert (u + v)[a] == u[a] && (u + v)[b] == u[b];
      } else if a >= |u| {
        assert (u + v)[a] == v[a - |u|] && (u + v)[b] == v[b - |u|];
      } else {
        assert (u + v)[a] == u[a] && (u + v)[b] == v[b - |u|];
        assert u[a] in u && v[b - |u|] in v;
      }
    }
  }

  lemma {:induction false} RowNoRepeats(x: string, js: seq<string>)
    requires Distinct(js)
    ensures NoRepeats(Row(x, js))
  {
    if js != [] {
      var init, last := js[..|js| - 1], js[|js| - 1];
      assert Distinct(init);
      RowNoRepeats(x, init);
      RowMembers(x, init, (x, last));
      assert last !in init;
      AppendNoRepeats(Row(x, init), if x != last then [(x, last)] else []);
    }
  }

  lemma {:induction false} RowsNoRepeats(xs: seq<string>, all: seq<string>)
    requires Distinct(xs) && Distinct(all)
    ensures NoRepeats(Rows(xs, all))
  {
    if xs != [] {
      var init, last := xs[..|xs| - 1], xs[|xs| - 1];
      assert Distinct(init);
      RowsNoRepeats(init, all);
      RowNoRepeats(last, all);
      assert last !in init;
      forall p | p in Rows(init, all)
        ensures p !in Row(last, all)
      {
        RowsMembers(init, all, p);
        RowMembers(last, all, p);
      }
      AppendNoRepeats(Rows(init, all), Row(last, all));
    }
  }

  /** For distinct names no pair is queued twice, so each pair is analysed at
      most once. */
  lemma PairsDistinct(images: seq<string>)
    requires Distinct(images)
    ensures forall a, b :: 0 <= a < b < |OrderedPairs(images)| ==>
              OrderedPairs(images)[a] != OrderedPairs(images)[b]
  {
    RowsNoRepeats(images, images);
  }

  /** In a queue without repeats, the entry at `start` does not occur after it. */
  lemma TakenNotAgain(ps: seq<Pair>, start: nat)
    requires NoRepeats(ps) && start < |ps|
    ensures ps[start] !in ps[start + 1..]
  {
    forall k | start + 1 <= k < |ps|
      ensures ps[k] != ps[start]
    {
    }
  }

  // ---------------------------------------------------------------------
  // How many, and in which order

  lemma {:induction false} RowLength(x: string, js: seq<string>)
    requires Distinct(js)
    ensures |Row(x, js)| == |js| - (if x in js then 1 else 0)
  {
    if js != [] {
      var init := js[..|js| - 1];
      RowLength(x, init);
      assert js == init + [js[|js| - 1]];
      assert js[|js| - 1] !in init;
    }
  }

  lemma {:induction false} RowsLength(xs: seq<string>, all: seq<string>)
    requires Distinct(all)
    requires forall k :: 0 <= k < |xs| ==> xs[k] in all
    ensures |Rows(xs, all)| == |xs| * (|all| - 1)
  {
    if xs != [] {
      var init, last, width := xs[..|xs| - 1], xs[|xs| - 1], |all| - 1;
      assert forall k :: 0 <= k < |init| ==> init[k] == xs[k];
      RowsLength(init, all);
      assert last in all;
      RowLength(last, all);
      MulSucc(|init|, width);
    }
  }

  /** For distinct names the queue holds exactly n * (n - 1) pairs. */
  lemma PairCount(images: seq<string>)
    requires Distinct(images)
    ensures |OrderedPairs(images)| == |images| * (|images| - 1)
  {
    RowsLength(images, images);
  }

  /** Position of the inner name `j` within the row of the outer name `i`:
      the row skips the diagonal. */
  function Skip(i: nat, j: nat): nat
    requires i != j
  {
    if j < i then j else j - 1
  }

  lemma {:induction false} RowOfAbsent(x: string, js: seq<string>)
    requires x !in js
    ensures |Row(x, js)| == |js|
    ensures forall j :: 0 <= j < |js| ==> Row(x, js)[j] == (x, js[j])
  {
    if js != [] {
      var init := js[..|js| - 1];
      RowOfAbsent(x, init);
    }
  }

  lemma {:induction false} RowAt(js: seq<string>, i: nat, j: nat)
    requires Distinct(js)
    requires i < |js| && j < |js| && i != j
    ensures |Row(js[i], js)| == |js| - 1
    ensures Row(js[i], js)[Skip(i, j)] == (js[i], js[j])
  {
    RowLength(js[i], js);
    var x, n := js[i], |js|;
    var init := js[..n - 1];
    assert Distinct(init);
    if j == n - 1 {
      assert x in init by { assert init[i] == x; }
      RowLength(x, init);
    } else if i == n - 1 {
      assert x !in init;
      RowOfAbsent(x, init);
      assert init[j] == js[j];
    } else {
      assert init[i] == x && init[j] == js[j];
      RowAt(init, i, j);
    }
  }

  lemma {:induction false} RowsAt(xs: seq<string>, all: seq<string>, i: nat, s: nat)
    requires Distinct(all)
    requires forall k :: 0 <= k < |xs| ==> xs[k] in all
    requires i < |xs| && s < |all| - 1
    ensures |Row(xs[i], all)| == |all| - 1
    ensures i * (|all| - 1) + s < |Rows(xs, all)|
    ensures Rows(xs, all)[i * (|all| - 1) + s] == Row(xs[i], all)[s]
  {
    var init, last, width := xs[..|xs| - 1], xs[|xs| - 1], |all| - 1;
    assert forall k :: 0 <= k < |init| ==> init[k] == xs[k];
    RowLength(xs[i], all);
    RowsLength(init, all);
    RowLength(last, all);
    MulSucc(|init|, width);
    if i < |xs| - 1 {
      MulMono(i + 1, |init|, width);
      MulSucc(i, width);
      RowsAt(init, all, i, s);
    }
  }

  /** Outer-then-inner order: the pair (images[i], images[j]) sits at
      position i * (n - 1) + Skip(i, j) of the queue. */
  lemma PairAt(images: seq<string>, i: nat, j: nat)
    requires Distinct(images)
    requires i < |images| && j < |images| && i != j
    ensures i * (|images| - 1) + Skip(i, j) < |OrderedPairs(images)|
    ensures OrderedPairs(images)[i * (|images| - 1) + Skip(i, j)] == (images[i], images[j])
  {
    RowAt(images, i, j);
    RowsAt(images, images, i, Skip(i, j));
  }
}
