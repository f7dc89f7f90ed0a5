/** Zhang-Suen thinning: iterations of two sub-passes, each deciding every deletion against
    the grid as it stood before the sub-pass and applying them all after the scan, repeated
    until an iteration deletes nothing. */
module ZhangSuen {
  import opened Pixels
  import opened Raster
  import opened Binarization
  import opened Neighbourhood

  datatype Step = First | Second

  /** Whether the sub-pass `step` scanning `g` marks `(x, y)` for deletion: an interior object
      cell with 2 to 6 object neighbours, exactly one 0-to-1 transition, and (first sub-pass)
      P2*P4*P6 = 0 and P4*P6*P8 = 0, or (second sub-pass) P2*P4*P8 = 0 and P2*P6*P8 = 0. */
  predicate Deletable(g: Grid, x: int, y: int, step: Step)
    requires Rectangular(g)
  {
    Interior(g, x, y) && g[x][y] == 1 &&
    var p := Neighbours(g, x, y);
    2 <= Sum(p) <= 6 && Transitions(p) == 1 &&
    match step
    case First => p[0] * p[2] * p[4] == 0 && p[2] * p[4] * p[6] == 0
    case Second => p[0] * p[2] * p[6] == 0 && p[0] * p[4] * p[6] == 0
  }

  /** One sub-pass: every cell marked against `g` is cleared, all at once. */
  ghost function SubPass(g: Grid, step: Step): (r: Grid)
    requires Rectangular(g)
    ensures Rectangular(r) && Height(r) == Height(g)
    ensures Shrinks(g, r) && BorderKept(g, r)
  {
    seq(|g|, x requires 0 <= x < |g| =>
      seq(|g[x]|, y requires 0 <= y < |g[x]| => if Deletable(g, x, y, step) then 0 else g[x][y]))
  }

  /** One iteration of the outer loop: the first sub-pass, then the second on its result. */
  ghost function Iteration(g: Grid): (r: Grid)
    requires Rectangular(g)
    ensures Rectangular(r) && Height(r) == Height(g)
    ensures Shrinks(g, r) && BorderKept(g, r)
  {
    var h := SubPass(g, First);
    ShrinksTransitive(g, h, SubPass(h, Second));
    BorderKeptTransitive(g, h, SubPass(h, Second));
    SubPass(h, Second)
  }

  /** The thinned grid: iterations until one deletes nothing. The result only clears cells of
      `g`, keeps its border ring, and neither sub-pass would delete anything more from it. */
  ghost function Thin(g: Grid): (r: Grid)
    requires Rectangular(g)
    ensures Rectangular(r) && Height(r) == Height(g)
    ensures Shrinks(g, r) && BorderKept(g, r)
    ensures SubPass(r, First) == r && SubPass(r, Second) == r
    decreases Foreground(g)
  {
    var n := Iteration(g);
    if n == g then
      StableIteration(g);
      g
    else
      ForegroundShrinks(g, n);
      var r := Thin(n);
      ShrinksTransitive(g, n, r);
      BorderKeptTransitive(g, n, r);
      r
  }

  /** An iteration that changes nothing means neither sub-pass deletes anything. */
  lemma StableIteration(g: Grid)
    requires Rectangular(g) && Iteration(g) == g
    ensures SubPass(g, First) == g && SubPass(g, Second) == g
  {
    var h := SubPass(g, First);
    ForegroundShrinks(g, h);
    ForegroundShrinks(h, SubPass(h, Second));
  }

  /** What the outer loop learns from one iteration: it changed the grid exactly when one of
      its sub-passes deleted something, a change lowers the foreground count, and the thinned
      result is the same from before and after the iteration. */
  lemma IterationProgress(g: Grid)
    requires Rectangular(g)
    ensures Iteration(g) != g <==> SubPass(g, First) != g || SubPass(SubPass(g, First), Second) != SubPass(g, First)
    ensures Iteration(g) != g ==> Foreground(Iteration(g)) < Foreground(g)
    ensures Thin(Iteration(g)) == Thin(g)
    ensures Iteration(g) == g ==> Thin(g) == g
  {
    var h := SubPass(g, First);
    ForegroundShrinks(g, h);
    ForegroundShrinks(h, Iteration(g));
    ForegroundShrinks(g, Iteration(g));
  }

  /** The scan of one sub-pass: the cells it lists are exactly those marked against the grid
      as it stands, which the scan does not change. */
  method CollectDeletable(grid: array2<int>, step: Step) returns (toDelete: seq<(int, int)>)
    ensures forall c :: c in toDelete <==> Deletable(Snapshot(grid), c.0, c.1, step)
  {
    toDelete := [];
    var y := 1;
    while y < grid.Length1 - 1
      invariant 1 <= y && (grid.Length1 >= 2 ==> y <= grid.Length1 - 1)
      invariant forall c :: c in toDelete <==> Deletable(Snapshot(grid), c.0, c.1, step) && c.1 < y
    {
      toDelete := ScanRow(grid, y, step, toDelete);
      y := y + 1;
    }
  }

  /** The loop over `x` for row `y`: appends the row's listed cells, left to right. */
  method ScanRow(grid: array2<int>, y: int, step: Step, listed: seq<(int, int)>) returns (toDelete: seq<(int, int)>)
    requires 1 <= y < grid.Length1 - 1
    requires forall c :: c in listed <==> Deletable(Snapshot(grid), c.0, c.1, step) && c.1 < y
    ensures forall c :: c in toDelete <==> Deletable(Snapshot(grid), c.0, c.1, step) && c.1 < y + 1
  {
    ghost var g := Snapshot(grid);
    toDelete := listed;
    var x := 1;
    while x < grid.Length0 - 1
      invariant 1 <= x && (grid.Length0 >= 2 ==> x <= grid.Length0 - 1)
      invariant forall c :: c in toDelete <==> Deletable(g, c.0, c.1, step) && (c.1 < y || (c.1 == y && c.0 < x))
    {
      if grid[x, y] != 0 {
        var marked := CheckCell(grid, x, y, step);
        if marked {
          toDelete := toDelete + [(x, y)];
        }
      }
      x := x + 1;
    }
  }

  /** The body of the scan for one object cell: read p2 .. p9, count B and A, test the
      sub-pass's two products. */
  method CheckCell(grid: array2<int>, x: int, y: int, step: Step) returns (marked: bool)
    requires 1 <= x < grid.Length0 - 1 && 1 <= y < grid.Length1 - 1
    ensures marked == Deletable(Snapshot(grid), x, y, step)
  {
    var p := ReadNeighbours(grid, x, y);
    var neighbors, transitions := CountNeighbourhood(p);
    var pattern := match step
      case First => p[0] * p[2] * p[4] == 0 && p[2] * p[4] * p[6] == 0
      case Second => p[0] * p[2] * p[6] == 0 && p[0] * p[4] * p[6] == 0;
    marked := grid[x, y] == 1 && 2 <= neighbors <= 6 && transitions == 1 && pattern;
  }

  /** One sub-pass in place: scan, then clear the listed cells; reports whether any was listed. */
  method RunSubPass(grid: array2<int>, step: Step) returns (deleted: bool)
    modifies grid
    ensures Snapshot(grid) == SubPass(old(Snapshot(grid)), step)
    ensures deleted <==> Snapshot(grid) != old(Snapshot(grid))
  {
    ghost var g := Snapshot(grid);
    var toDelete := CollectDeletable(grid, step);
    DeleteAll(grid, toDelete);
    deleted := |toDelete| > 0;
    Extensionality(Snapshot(grid), SubPass(g, step));
    if deleted {
      var c := toDelete[0];
      assert Snapshot(grid)[c.0][c.1] == 0 != g[c.0][c.1];
    } else {
      Extensionality(Snapshot(grid), g);
    }
  }

  /** `applyZhangSuen`: binarize, thin, and draw the result in black and white. */
  method ApplyZhangSuen(img: array2<Argb>) returns (out: array2<Argb>)
    ensures fresh(out)
    ensures out.Length0 == img.Length0 && out.Length1 == img.Length1
    ensures Snapshot(out) == Rendered(Thin(Binarized(Snapshot(img))), img.Length0, img.Length1)
  {
    var width, height := img.Length0, img.Length1;
    var grid := Binarize(img);
    ghost var start := Snapshot(grid);
    var hasChanged := true;
    while hasChanged
      invariant grid.Length0 == width && grid.Length1 == height
      invariant Thin(Snapshot(grid)) == Thin(start)
      invariant !hasChanged ==> Snapshot(grid) == Thin(start)
      decreases Foreground(Snapshot(grid)), hasChanged
    {
      ghost var before := Snapshot(grid);
      hasChanged := false;
      var deleted := RunSubPass(grid, First);
      if deleted {
        hasChanged := true;
      }
      deleted := RunSubPass(grid, Second);
      if deleted {
        hasChanged := true;
      }
      IterationProgress(before);
    }
    out := ArrayToImage(grid, width, height);
    ArrayToImageRendered(grid, out);
  }

  /** A sub-pass deletes a cell only when it is an object cell with 2 to 6 object neighbours
      and exactly one transition; it never touches the border ring. */
  lemma SubPassDeletes(g: Grid, step: Step, x: int, y: int)
    requires Rectangular(g) && InBounds(g, x, y)
    ensures SubPass(g, step)[x][y] != g[x][y] <==> Deletable(g, x, y, step)
    ensures Deletable(g, x, y, step) ==>
              Interior(g, x, y) && g[x][y] == 1 && SubPass(g, step)[x][y] == 0 &&
              2 <= Sum(Neighbours(g, x, y)) <= 6 && Transitions(Neighbours(g, x, y)) == 1
  {
  }

  /** An object cell with at most one object neighbour survives thinning; an isolated point
      is never deleted. */
  lemma {:induction false} KeepsEndpoints(g: Grid, x: int, y: int)
    requires Rectangular(g) && Binary(g) && InBounds(g, x, y) && g[x][y] == 1
    requires Interior(g, x, y) ==> Sum(Neighbours(g, x, y)) <= 1
    ensures Thin(g)[x][y] == 1
    decreases Foreground(g)
  {
    var h := SubPass(g, First);
    SurvivesSubPass(g, First, x, y);
    ShrinksBinary(g, h);
    if Interior(g, x, y) {
      NeighbourSumShrinks(g, h, x, y);
    }
    SurvivesSubPass(h, Second, x, y);
    var n := Iteration(g);
    if n != g {
      ShrinksBinary(h, n);
      if Interior(g, x, y) {
        NeighbourSumShrinks(h, n, x, y);
      }
      ForegroundShrinks(g, n);
      KeepsEndpoints(n, x, y);
    }
  }

  lemma SurvivesSubPass(g: Grid, step: Step, x: int, y: int)
    requires Rectangular(g) && InBounds(g, x, y) && g[x][y] == 1
    requires Interior(g, x, y) ==> Sum(Neighbours(g, x, y)) <= 1
    ensures SubPass(g, step)[x][y] == 1
  {
  }
}
