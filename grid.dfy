/** Two-dimensional grids stored as a sequence of rows, and their row-major
    flattening (numpy's C order). Both the correlation surface and the pixel
    buffers of the images are grids. */
module Grid {

  /** Every row has `cols` entries and there is at least one row and one column. */
  predicate Rectangular<T>(m: seq<seq<T>>, cols: nat)
  {
    |m| > 0 && cols > 0 && forall r :: 0 <= r < |m| ==> |m[r]| == cols
  }

  /** The cells of `m` in row-major order. */
  function Flatten<T>(m: seq<seq<T>>): (flat: seq<T>)
  {
    if m == [] then [] else m[0] + Flatten(m[1..])
  }

  /** Flattening a grid of `rows` x `cols` gives `rows * cols` cells. */
  lemma {:induction false} FlattenLength<T>(m: seq<seq<T>>, cols: nat)
    requires forall r :: 0 <= r < |m| ==> |m[r]| == cols
    ensures |Flatten(m)| == |m| * cols
  {
    if m != [] {
      FlattenLength(m[1..], cols);
      assert |m| * cols == cols + (|m| - 1) * cols;
    }
  }

  /** Cell (r, c) of a grid with `cols` columns sits at index r * cols + c of
      its flattening. */
  lemma {:induction false} FlattenAt<T>(m: seq<seq<T>>, cols: nat, r: nat, c: nat)
    requires forall i :: 0 <= i < |m| ==> |m[i]| == cols
    requires r < |m| && c < cols
    ensures r * cols + c < |Flatten(m)| && Flatten(m)[r * cols + c] == m[r][c]
  {
    FlattenLength(m, cols);
    if r > 0 {
      FlattenAt(m[1..], cols, r - 1, c);
      assert r * cols + c == cols + ((r - 1) * cols + c);
      assert m[1..][r - 1] == m[r];
    }
  }
}
