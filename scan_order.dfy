/**
 * The order in which the conversions visit a width x height grid: the outer
 * loop over rows `y`, the inner loop over columns `x`.
 */
module ScanOrder {

  /** The coordinates `(x, y)` of row `y`, left to right. */
  function Row(width: nat, y: int): seq<(int, int)> {
    seq(width, x => (x, y))
  }

  /** Rows `0 .. height - 1` one after the other. */
  function RowMajor(width: nat, height: nat): seq<(int, int)>
    decreases height
  {
    if height == 0 then [] else RowMajor(width, height - 1) + Row(width, height - 1)
  }

  /** `p` comes strictly before `q` in row-major order. */
  predicate Before(p: (int, int), q: (int, int)) {
    p.1 < q.1 || (p.1 == q.1 && p.0 < q.0)
  }

  /**
   * The row-major scan visits every cell of the grid, only cells of the grid,
   * in strictly increasing row-major order, hence each cell exactly once.
   */
  lemma {:induction false} RowMajorVisitsEachCellOnce(width: nat, height: nat)
    ensures |RowMajor(width, height)| == width * height
    ensures forall k :: 0 <= k < |RowMajor(width, height)| ==>
              0 <= RowMajor(width, height)[k].0 < width && 0 <= RowMajor(width, height)[k].1 < height
    ensures forall x, y :: 0 <= x < width && 0 <= y < height ==> (x, y) in RowMajor(width, height)
    ensures forall i, j :: 0 <= i < j < |RowMajor(width, height)| ==>
              Before(RowMajor(width, height)[i], RowMajor(width, height)[j])
  {
    if height > 0 {
      RowMajorVisitsEachCellOnce(width, height - 1);
      var prefix, row := RowMajor(width, height - 1), Row(width, height - 1);
      var s := RowMajor(width, height);
      assert s == prefix + row;
      assert |s| == width * (height - 1) + width;
      forall x, y | 0 <= x < width && 0 <= y < height
        ensures (x, y) in s
      {
        if y < height - 1 {
          assert (x, y) in prefix;
        } else {
          assert row[x] == (x, y);
        }
      }
      forall i, j | 0 <= i < j < |s|
        ensures Before(s[i], s[j])
      {
        if j < |prefix| {
          assert s[i] == prefix[i] && s[j] == prefix[j];
        } else if i >= |prefix| {
          assert s[i] == row[i - |prefix|] && s[j] == row[j - |prefix|];
        } else {
          assert s[i] == prefix[i] && s[j] == row[j - |prefix|];
        }
      }
    }
  }
}
