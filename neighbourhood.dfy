/** The 8-neighbourhood of a grid cell and the two statistics both thinning algorithms
    test: the foreground-neighbour count B and the 0-to-1 transition count A. */
module Neighbourhood {
  import opened Raster

  /** p2 .. p9 of an interior cell, clockwise from north: north, north-east, east,
      south-east, south, south-west, west, north-west (y grows downwards). */
  function Neighbours(g: Grid, x: int, y: int): (p: seq<int>)
    requires Rectangular(g) && Interior(g, x, y)
    ensures |p| == 8
  {
    [g[x][y - 1], g[x + 1][y - 1], g[x + 1][y], g[x + 1][y + 1],
     g[x][y + 1], g[x - 1][y + 1], g[x - 1][y], g[x - 1][y - 1]]
  }

  /** B: the sum of the neighbour values, the foreground-neighbour count on a 0/1 grid. */
  function Sum(p: seq<int>): int
  {
    if p == [] then 0 else Sum(p[..|p| - 1]) + p[|p| - 1]
  }

  /** Whether the circular walk steps from 0 to 1 between positions `i` and `i + 1 (mod |p|)`. */
  predicate RiseAt(p: seq<int>, i: int)
    requires 0 <= i < |p|
  {
    p[i] == 0 && p[(i + 1) % |p|] == 1
  }

  /** The number of 0-to-1 steps among the first `k` positions of the circular walk. */
  function Rises(p: seq<int>, k: nat): (n: nat)
    requires k <= |p|
    ensures n <= k
  {
    if k == 0 then 0 else Rises(p, k - 1) + (if RiseAt(p, k - 1) then 1 else 0)
  }

  /** `getTransitions`: A, the number of 0-to-1 steps walking p2, p3, ..., p9 and back to p2. */
  function Transitions(p: seq<int>): (n: nat)
    ensures n <= |p|
  {
    Rises(p, |p|)
  }

  /** The eight neighbour reads `{grid[x][y-1], grid[x+1][y-1], ...}` of the source. */
  method ReadNeighbours(grid: array2<int>, x: int, y: int) returns (p: seq<int>)
    requires 1 <= x < grid.Length0 - 1 && 1 <= y < grid.Length1 - 1
    ensures p == Neighbours(Snapshot(grid), x, y)
  {
    p := [grid[x, y - 1], grid[x + 1, y - 1], grid[x + 1, y], grid[x + 1, y + 1],
          grid[x, y + 1], grid[x - 1, y + 1], grid[x - 1, y], grid[x - 1, y - 1]];
  }

  /** The counting loop inside each Zhang-Suen sub-pass: it adds up the neighbours and counts
      the rises, comparing p[7] with p[0] on the last step; the result is B and A. */
  method CountNeighbourhood(p: seq<int>) returns (neighbors: int, transitions: nat)
    requires |p| == 8
    ensures neighbors == Sum(p) && transitions == Transitions(p)
  {
    neighbors, transitions := 0, 0;
    var i := 0;
    while i < |p|
      invariant 0 <= i <= |p|
      invariant neighbors == Sum(p[..i]) && transitions == Rises(p, i)
    {
      assert p[..i + 1][..i] == p[..i];
      neighbors := neighbors + p[i];
      if i < 7 {
        if p[i] == 0 && p[i + 1] == 1 {
          transitions := transitions + 1;
        }
      } else {
        if p[7] == 0 && p[0] == 1 {
          transitions := transitions + 1;
        }
      }
      i := i + 1;
    }
    assert p[..|p|] == p;
  }

  /** Clearing the listed cells (`for (Point p : pixelsToDelete) grid[p.x][p.y] = 0`). */
  method DeleteAll(grid: array2<int>, cells: seq<(int, int)>)
    requires forall c :: c in cells ==> 0 <= c.0 < grid.Length0 && 0 <= c.1 < grid.Length1
    modifies grid
    ensures forall x, y :: 0 <= x < grid.Length0 && 0 <= y < grid.Length1 ==>
              grid[x, y] == if (x, y) in cells then 0 else old(grid[x, y])
  {
    var i := 0;
    while i < |cells|
      invariant 0 <= i <= |cells|
      invariant forall x, y :: 0 <= x < grid.Length0 && 0 <= y < grid.Length1 ==>
                  grid[x, y] == if (x, y) in cells[..i] then 0 else old(grid[x, y])
    {
      grid[cells[i].0, cells[i].1] := 0;
      assert forall c :: c in cells[..i + 1] <==> c in cells[..i] || c == cells[i];
      i := i + 1;
    }
    assert cells[..|cells|] == cells;
  }

  /** A neighbourhood with no rise at all is uniform: on 0/1 values, A = 0 exactly when all
      eight neighbours are equal. */
  lemma {:induction false} NoTransitionsIffUniform(p: seq<int>)
    requires |p| > 0 && forall i :: 0 <= i < |p| ==> p[i] == 0 || p[i] == 1
    ensures Transitions(p) == 0 <==> forall i :: 0 <= i < |p| ==> p[i] == p[0]
  {
    if forall i :: 0 <= i < |p| ==> p[i] == p[0] {
      NoRiseInUniform(p, |p|);
    } else {
      var j :| 0 <= j < |p| && p[j] != p[0];
      var i := FindRise(p, j);
      RiseCounted(p, i, |p|);
    }
  }

  lemma {:induction false} NoRiseInUniform(p: seq<int>, k: nat)
    requires 0 < |p| && k <= |p| && forall i :: 0 <= i < |p| ==> p[i] == p[0]
    ensures Rises(p, k) == 0
  {
    if k > 0 {
      NoRiseInUniform(p, k - 1);
      assert p[k % |p|] == p[0];
    }
  }

  /** A rise at position `i < k` makes the count of the first `k` positions positive. */
  lemma {:induction false} RiseCounted(p: seq<int>, i: nat, k: nat)
    requires i < k <= |p| && RiseAt(p, i)
    ensures Rises(p, k) > 0
  {
    if k - 1 != i {
      RiseCounted(p, i, k - 1);
    }
  }

  /** On 0/1 values, two different neighbours force a rise somewhere on the circle. */
  lemma FindRise(p: seq<int>, j: nat) returns (i: nat)
    requires j < |p| && p[j] != p[0]
    requires forall k :: 0 <= k < |p| ==> p[k] == 0 || p[k] == 1
    ensures i < |p| && RiseAt(p, i)
  {
    if p[0] == 0 {
      // walk back from the 1 at j to the last 0 before it
      i := LastZeroBefore(p, j);
    } else {
      // walk from the 0 at j to the end of the circle, which returns to the 1 at position 0
      i := FirstZeroRun(p, j);
    }
  }

  /** `p[0] == 0` and `p[j] == 1`: some position before `j` rises. */
  lemma {:induction false} LastZeroBefore(p: seq<int>, j: nat) returns (i: nat)
    requires 0 < j < |p| && p[0] == 0 && p[j] == 1
    requires forall k :: 0 <= k < |p| ==> p[k] == 0 || p[k] == 1
    ensures i < j && RiseAt(p, i)
  {
    if p[j - 1] == 0 {
      i := j - 1;
      assert (i + 1) % |p| == j;
    } else {
      i := LastZeroBefore(p, j - 1);
    }
  }

  /** `p[0] == 1` and `p[j] == 0`: some position from `j` on rises, wrapping round to 0. */
  lemma {:induction false} FirstZeroRun(p: seq<int>, j: nat) returns (i: nat)
    requires 0 < j < |p| && p[0] == 1 && p[j] == 0
    requires forall k :: 0 <= k < |p| ==> p[k] == 0 || p[k] == 1
    ensures j <= i < |p| && RiseAt(p, i)
    decreases |p| - j
  {
    if j == |p| - 1 {
      i := j;
      assert (i + 1) % |p| == 0;
    } else if p[j + 1] == 1 {
      i := j;
      assert (i + 1) % |p| == j + 1;
    } else {
      i := FirstZeroRun(p, j + 1);
    }
  }

  /** Clearing cells of a 0/1 grid never raises a neighbour count. */
  lemma NeighbourSumShrinks(g: Grid, r: Grid, x: int, y: int)
    requires Rectangular(g) && Binary(g) && Shrinks(g, r) && Interior(g, x, y)
    ensures Rectangular(r) && Interior(r, x, y)
    ensures Sum(Neighbours(r, x, y)) <= Sum(Neighbours(g, x, y))
  {
    ShrinksRectangular(g, r);
    var p, q := Neighbours(g, x, y), Neighbours(r, x, y);
    assert ColumnShrinks(g[x - 1], r[x - 1]) && ColumnShrinks(g[x], r[x]) && ColumnShrinks(g[x + 1], r[x + 1]);
    assert g[x - 1][y - 1] >= 0 && g[x][y - 1] >= 0 && g[x + 1][y - 1] >= 0;
    assert g[x - 1][y] >= 0 && g[x + 1][y] >= 0;
    assert g[x - 1][y + 1] >= 0 && g[x][y + 1] >= 0 && g[x + 1][y + 1] >= 0;
    SumPointwise(q, p);
  }

  /** Sums respect a pointwise order. */
  lemma {:induction false} SumPointwise(q: seq<int>, p: seq<int>)
    requires |q| == |p| && forall i :: 0 <= i < |p| ==> q[i] <= p[i]
    ensures Sum(q) <= Sum(p)
  {
    if p != [] {
      SumPointwise(q[..|q| - 1], p[..|p| - 1]);
    }
  }
}
