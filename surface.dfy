/** Choosing the best placement on the correlation surface (image_analysis.py,
    line 138): `np.argmax` of the flattened surface, turned back into a
    (row, column) position by `np.unravel_index`. The surface itself is
    produced by `match_template` from the pair's working-resolution grey
    images; here it is an input, a rectangular grid of ordered scores. */
module Surface {
  import opened Arith
  import opened Grid

  /** A (row, column) offset into a grid, as returned by `unravel_index`. */
  datatype Location = Location(row: nat, col: nat)

  /** A non-empty rectangular grid of scores. */
  predicate IsSurface(m: seq<seq<int>>)
  {
    |m| > 0 && Rectangular(m, |m[0]|)
  }

  /** `np.argmax` of a flat sequence: the index of the first maximum. */
  function FirstMax(s: seq<int>): (k: nat)
    requires |s| > 0
    ensures k < |s|
    ensures forall i :: 0 <= i < |s| ==> s[i] <= s[k]
    ensures forall i :: 0 <= i < k ==> s[i] < s[k]
  {
    if |s| == 1 then 0
    else
      var k := FirstMax(s[..|s| - 1]);
      if s[|s| - 1] > s[k] then |s| - 1 else k
  }

  /** `np.unravel_index(k, (rows, cols))` */
  function Unravel(k: nat, cols: Positive): Location
  {
    Location(k / cols, k % cols)
  }

  /** Unravelling inverts row-major indexing, in both directions. */
  lemma UnravelInverse(k: nat, rows: nat, cols: Positive)
    requires k < rows * cols
    ensures Unravel(k, cols).row < rows && Unravel(k, cols).col < cols
    ensures Unravel(k, cols).row * cols + Unravel(k, cols).col == k
  {
    DivBelow(k, rows - 1, cols);
    assert k == (k / cols) * cols + k % cols;
  }

  lemma RavelUnravel(r: nat, c: nat, cols: Positive)
    requires c < cols
    ensures Unravel(r * cols + c, cols) == Location(r, c)
  {
    MulSucc(r, cols);
    DivBelow(r * cols + c, r, cols);
    DivAtLeast(r * cols + c, r, cols);
    assert r * cols + c == ((r * cols + c) / cols) * cols + (r * cols + c) % cols;
  }

  /** Line 138 on a surface. */
  function BestLocation(m: seq<seq<int>>): Location
    requires IsSurface(m)
  {
    FlattenLength(m, |m[0]|);
    Unravel(FirstMax(Flatten(m)), |m[0]|)
  }

  /** Row-major order of two cells agrees with the order of their flat indices. */
  lemma RowMajorOrder(r: nat, c: nat, r': nat, c': nat, cols: nat)
    requires c < cols && c' < cols
    requires r < r' || (r == r' && c < c')
    ensures r * cols + c < r' * cols + c'
  {
    if r < r' {
      MulMono(r + 1, r', cols);
      MulSucc(r, cols);
    }
  }

  /** The chosen location lies on the surface, holds its maximum score, and
      every cell before it in row-major order scores strictly less: it is the
      first maximum, lowest row first, then lowest column. */
  lemma BestLocationIsFirstMaximum(m: seq<seq<int>>)
    requires IsSurface(m)
    ensures BestLocation(m).row < |m| && BestLocation(m).col < |m[0]|
    ensures |Flatten(m)| == |m| * |m[0]| && |Flatten(m)| > 0
    ensures BestLocation(m).row * |m[0]| + BestLocation(m).col == FirstMax(Flatten(m))
    ensures forall r, c :: 0 <= r < |m| && 0 <= c < |m[0]| ==>
              m[r][c] <= m[BestLocation(m).row][BestLocation(m).col]
    ensures forall r, c ::
              (0 <= r < |m| && 0 <= c < |m[0]| &&
               (r < BestLocation(m).row || (r == BestLocation(m).row && c < BestLocation(m).col))) ==>
              m[r][c] < m[BestLocation(m).row][BestLocation(m).col]
  {
    var cols := |m[0]|;
    var flat := Flatten(m);
    FlattenLength(m, cols);
    var k := FirstMax(flat);
    var loc := BestLocation(m);
    UnravelInverse(k, |m|, cols);
    FlattenAt(m, cols, loc.row, loc.col);
    assert flat[k] == m[loc.row][loc.col];
    forall r, c | 0 <= r < |m| && 0 <= c < cols
      ensures m[r][c] <= m[loc.row][loc.col]
      ensures r < loc.row || (r == loc.row && c < loc.col) ==> m[r][c] < m[loc.row][loc.col]
    {
      FlattenAt(m, cols, r, c);
      if r < loc.row || (r == loc.row && c < loc.col) {
        RowMajorOrder(r, c, loc.row, loc.col, cols);
      }
    }
  }
}
