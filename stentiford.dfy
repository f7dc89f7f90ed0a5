/** Stentiford thinning: rounds of four directional template passes (north, south, east,
    west), each scanning the grid left by the previous template and clearing its cells right
    after its scan, repeated until a round deletes nothing. The connectivity test keeps the
    polarity of the source: a cell is eligible only when its transition count is NOT 1. */
module Stentiford {
  import opened Pixels
  import opened Raster
  import opened Binarization
  import opened Neighbourhood

  /** `isEndpoint`: at most one object neighbour. */
  predicate IsEndpoint(p: seq<int>)
  {
    Sum(p) <= 1
  }

  /** `preservesConnectivity`, as written: true when the transition count differs from 1. */
  predicate PreservesConnectivity(p: seq<int>)
  {
    Transitions(p) != 1
  }

  /** `matchesTemplate`: template 0 (north), 1 (south), 2 (east) or 3 (west) over
      p2 .. p9 = p[0] .. p[7]; any other index matches nothing. */
  predicate MatchesTemplate(p: seq<int>, t: int)
    requires |p| == 8
  {
    var p2, p3, p4, p5, p6, p7, p8, p9 := p[0], p[1], p[2], p[3], p[4], p[5], p[6], p[7];
    if t == 0 then
      p2 == 0 && p6 == 1 && (p4 == 1 || p5 == 1 || p8 == 1 || p7 == 1) && (p4 == 1 || p2 == 1 || p8 == 1 || p9 == 1)
    else if t == 1 then
      p6 == 0 && p2 == 1 && (p8 == 1 || p9 == 1 || p4 == 1 || p3 == 1) && (p8 == 1 || p6 == 1 || p4 == 1 || p5 == 1)
    else if t == 2 then
      p4 == 0 && p8 == 1 && (p2 == 1 || p3 == 1 || p6 == 1 || p5 == 1) && (p2 == 1 || p9 == 1 || p6 == 1 || p7 == 1)
    else if t == 3 then
      p8 == 0 && p4 == 1 && (p6 == 1 || p7 == 1 || p2 == 1 || p9 == 1) && (p6 == 1 || p5 == 1 || p2 == 1 || p3 == 1)
    else
      false
  }

  /** Whether template `t`, scanning `g`, lists `(x, y)`: an interior non-zero cell that is not
      an endpoint, passes the connectivity test and matches the template. */
  predicate Eligible(g: Grid, x: int, y: int, t: int)
    requires Rectangular(g)
  {
    Interior(g, x, y) && g[x][y] != 0 &&
    var p := Neighbours(g, x, y);
    !IsEndpoint(p) && PreservesConnectivity(p) && MatchesTemplate(p, t)
  }

  /** One template pass: every cell listed against `g` is cleared, all at once. */
  ghost function TemplatePass(g: Grid, t: int): (r: Grid)
    requires Rectangular(g)
    ensures Rectangular(r) && Height(r) == Height(g)
    ensures Shrinks(g, r) && BorderKept(g, r)
  {
    seq(|g|, x requires 0 <= x < |g| =>
      seq(|g[x]|, y requires 0 <= y < |g[x]| => if Eligible(g, x, y, t) then 0 else g[x][y]))
  }

  /** Templates 0 .. k-1 applied in order, each to the grid the previous one left. */
  ghost function Passes(g: Grid, k: nat): (r: Grid)
    requires Rectangular(g) && k <= 4
    ensures Rectangular(r) && Height(r) == Height(g)
    ensures Shrinks(g, r) && BorderKept(g, r)
  {
    if k == 0 then
      ShrinksReflexive(g);
      g
    else
      var h := Passes(g, k - 1);
      ShrinksTransitive(g, h, TemplatePass(h, k - 1));
      BorderKeptTransitive(g, h, TemplatePass(h, k - 1));
      TemplatePass(h, k - 1)
  }

  lemma ShrinksReflexive(g: Grid)
    requires Rectangular(g)
    ensures Shrinks(g, g) && BorderKept(g, g)
  {
  }

  /** One round of the outer loop: all four templates. */
  ghost function Round(g: Grid): (r: Grid)
    requires Rectangular(g)
  {
    Passes(g, 4)
  }

  /** The thinned grid: rounds until one deletes nothing. The result only clears cells of `g`,
      keeps its border ring, and no template would delete anything more from it. */
  ghost function Thin(g: Grid): (r: Grid)
    requires Rectangular(g)
    ensures Rectangular(r) && Height(r) == Height(g)
    ensures Shrinks(g, r) && BorderKept(g, r)
    ensures forall t :: 0 <= t < 4 ==> TemplatePass(r, t) == r
    decreases Foreground(g)
  {
    var n := Round(g);
    if n == g then
      StableRound(g, 4);
      g
    else
      ForegroundShrinks(g, n);
      var r := Thin(n);
      ShrinksTransitive(g, n, r);
      BorderKeptTransitive(g, n, r);
      r
  }

  /** If the first `k` templates together change nothing, none of them changes anything. */
  lemma {:induction false} StableRound(g: Grid, k: nat)
    requires Rectangular(g) && k <= 4 && Passes(g, k) == g
    ensures forall t :: 0 <= t < k ==> TemplatePass(g, t) == g
  {
    if k > 0 {
      StablePass(g, k - 1);
      StableRound(g, k - 1);
    }
  }

  /** If templates 0 .. k change nothing, then neither do templates 0 .. k-1, nor template k. */
  lemma StablePass(g: Grid, k: nat)
    requires Rectangular(g) && k < 4 && Passes(g, k + 1) == g
    ensures Passes(g, k) == g && TemplatePass(g, k) == g
  {
    var h := Passes(g, k);
    assert TemplatePass(h, k) == g;
    ForegroundShrinks(g, h);
    ForegroundShrinks(h, g);
  }

  /** After templates 0 .. k-1 and then template k: the grid changed since the start of the
      round exactly when it had already changed or template k deleted something. */
  lemma PassProgress(g: Grid, k: nat)
    requires Rectangular(g) && k < 4
    ensures Passes(g, k + 1) != g <==> Passes(g, k) != g || TemplatePass(Passes(g, k), k) != Passes(g, k)
  {
    var h := Passes(g, k);
    ForegroundShrinks(g, h);
    ForegroundShrinks(h, Passes(g, k + 1));
  }

  /** What the outer loop learns from one round. */
  lemma RoundProgress(g: Grid)
    requires Rectangular(g)
    ensures Round(g) != g ==> Foreground(Round(g)) < Foreground(g)
    ensures Thin(Round(g)) == Thin(g)
    ensures Round(g) == g ==> Thin(g) == g
  {
    ForegroundShrinks(g, Round(g));
  }

  /** `isEndpoint`, `preservesConnectivity` and `matchesTemplate` as the scan calls them on the grid. */
  method CheckCell(grid: array2<int>, x: int, y: int, t: int) returns (eligible: bool)
    requires 1 <= x < grid.Length0 - 1 && 1 <= y < grid.Length1 - 1 && grid[x, y] != 0
    ensures eligible == Eligible(Snapshot(grid), x, y, t)
  {
    var p := ReadNeighbours(grid, x, y);
    var neighbors := p[0] + p[1] + p[2] + p[3] + p[4] + p[5] + p[6] + p[7];
    SumOfEight(p);
    if neighbors <= 1 {
      return false;
    }
    var transitions := GetTransitions(p);
    if transitions == 1 {
      return false;
    }
    eligible := MatchesTemplate(p, t);
  }

  /** The sum of eight values, written out. */
  lemma SumOfEight(p: seq<int>)
    requires |p| == 8
    ensures Sum(p) == p[0] + p[1] + p[2] + p[3] + p[4] + p[5] + p[6] + p[7]
  {
    assert p[..1][..0] == [];
    assert Sum(p[..1]) == p[0];
    assert p[..2][..1] == p[..1];
    assert Sum(p[..2]) == Sum(p[..1]) + p[1];
    assert p[..3][..2] == p[..2];
    assert Sum(p[..3]) == Sum(p[..2]) + p[2];
    assert p[..4][..3] == p[..3];
    assert Sum(p[..4]) == Sum(p[..3]) + p[3];
    assert p[..5][..4] == p[..4];
    assert Sum(p[..5]) == Sum(p[..4]) + p[4];
    assert p[..6][..5] == p[..5];
    assert Sum(p[..6]) == Sum(p[..5]) + p[5];
    assert p[..7][..6] == p[..6];
    assert Sum(p[..7]) == Sum(p[..6]) + p[6];
  }

  /** `getTransitions`: the counting loop over the circular walk, `p[(i + 1) % 8]`. */
  method GetTransitions(p: seq<int>) returns (transitions: nat)
    requires |p| == 8
    ensures transitions == Transitions(p)
  {
    transitions := 0;
    var i := 0;
    while i < |p|
      invariant 0 <= i <= |p| && transitions == Rises(p, i)
    {
      if p[i] == 0 && p[(i + 1) % 8] == 1 {
        transitions := transitions + 1;
      }
      i := i + 1;
    }
  }

  /** The scan of one template: the cells it lists are exactly the eligible ones of the grid
      as it stands, which the scan does not change. */
  method CollectEligible(grid: array2<int>, t: int) returns (toDelete: seq<(int, int)>)
    ensures forall c :: c in toDelete <==> Eligible(Snapshot(grid), c.0, c.1, t)
  {
    toDelete := [];
    var y := 1;
    while y < grid.Length1 - 1
      invariant 1 <= y && (grid.Length1 >= 2 ==> y <= grid.Length1 - 1)
      invariant forall c :: c in toDelete <==> Eligible(Snapshot(grid), c.0, c.1, t) && c.1 < y
    {
      toDelete := ScanRow(grid, y, t, toDelete);
      y := y + 1;
    }
  }

  /** The loop over `x` for row `y`: appends the row's listed cells, left to right. */
  method ScanRow(grid: array2<int>, y: int, t: int, listed: seq<(int, int)>) returns (toDelete: seq<(int, int)>)
    requires 1 <= y < grid.Length1 - 1
    requires forall c :: c in listed <==> Eligible(Snapshot(grid), c.0, c.1, t) && c.1 < y
    ensures forall c :: c in toDelete <==> Eligible(Snapshot(grid), c.0, c.1, t) && c.1 < y + 1
  {
    ghost var g := Snapshot(grid);
    toDelete := listed;
    var x := 1;
    while x < grid.Length0 - 1
      invariant 1 <= x && (grid.Length0 >= 2 ==> x <= grid.Length0 - 1)
      invariant forall c :: c in toDelete <==> Eligible(g, c.0, c.1, t) && (c.1 < y || (c.1 == y && c.0 < x))
    {
      if grid[x, y] != 0 {
        var eligible := CheckCell(grid, x, y, t);
        if eligible {
          toDelete := toDelete + [(x, y)];
        }
      }
      x := x + 1;
    }
  }

  /** One template in place: scan, then clear the listed cells; reports whether any was listed. */
  method RunTemplate(grid: array2<int>, t: int) returns (deleted: bool)
    modifies grid
    ensures Snapshot(grid) == TemplatePass(old(Snapshot(grid)), t)
    ensures deleted <==> Snapshot(grid) != old(Snapshot(grid))
  {
    ghost var g := Snapshot(grid);
    var toDelete := CollectEligible(grid, t);
    DeleteAll(grid, toDelete);
    deleted := |toDelete| > 0;
    Extensionality(Snapshot(grid), TemplatePass(g, t));
    if deleted {
      var c := toDelete[0];
      assert Snapshot(grid)[c.0][c.1] == 0 != g[c.0][c.1];
    } else {
      Extensionality(Snapshot(grid), g);
    }
  }

  /** `applyStentiford`: binarize, thin, and draw the result in black and white. */
  method ApplyStentiford(img: array2<Argb>) returns (out: array2<Argb>)
    ensures fresh(out)
    ensures out.Length0 == img.Length0 && out.Length1 == img.Length1
    ensures Snapshot(out) == Rendered(Thin(Binarized(Snapshot(img))), img.Length0, img.Length1)
  {
    var width, height := img.Length0, img.Length1;
    var grid := Binarize(img);
    ghost var start := Snapshot(grid);
    var hasChanged := true;
    while hasChanged
      invariant grid.Length0 == width && grid.Length1 == height
      invariant Thin(Snapshot(grid)) == Thin(start)
      invariant !hasChanged ==> Snapshot(grid) == Thin(start)
      decreases Foreground(Snapshot(grid)), hasChanged
    {
      ghost var before := Snapshot(grid);
      hasChanged := false;
      var templateIndex := 0;
      while templateIndex < 4
        invariant 0 <= templateIndex <= 4
        invariant grid.Length0 == width && grid.Length1 == height
        invariant Snapshot(grid) == Passes(before, templateIndex)
        invariant hasChanged <==> Snapshot(grid) != before
      {
        PassProgress(before, templateIndex);
        var deleted := RunTemplate(grid, templateIndex);
        if deleted {
          hasChanged := true;
        }
        templateIndex := templateIndex + 1;
      }
      RoundProgress(before);
    }
    out := ArrayToImage(grid, width, height);
    ArrayToImageRendered(grid, out);
  }

  /** A template pass deletes exactly the eligible cells: never an endpoint, never a cell whose
      transition count is 1, never a cell that does not match the template, never the border. */
  lemma TemplatePassDeletes(g: Grid, t: int, x: int, y: int)
    requires Rectangular(g) && InBounds(g, x, y)
    ensures TemplatePass(g, t)[x][y] != g[x][y] <==> Eligible(g, x, y, t)
    ensures TemplatePass(g, t)[x][y] != g[x][y] ==>
              Interior(g, x, y) && TemplatePass(g, t)[x][y] == 0 &&
              Sum(Neighbours(g, x, y)) >= 2 && Transitions(Neighbours(g, x, y)) != 1 &&
              MatchesTemplate(Neighbours(g, x, y), t)
  {
  }

  /** An object cell with at most one object neighbour survives thinning; an isolated point
      is never deleted. */
  lemma {:induction false} KeepsEndpoints(g: Grid, x: int, y: int)
    requires Rectangular(g) && Binary(g) && InBounds(g, x, y) && g[x][y] == 1
    requires Interior(g, x, y) ==> Sum(Neighbours(g, x, y)) <= 1
    ensures Thin(g)[x][y] == 1
    decreases Foreground(g)
  {
    EndpointSurvivesRound(g, x, y);
    var n := Round(g);
    assert Interior(n, x, y) <==> Interior(g, x, y);
    if n != g {
      ForegroundShrinks(g, n);
      KeepsEndpoints(n, x, y);
    }
  }

  /** An object cell of a 0/1 grid with at most one object neighbour. */
  ghost predicate EndpointCell(g: Grid, x: int, y: int)
    requires Rectangular(g)
  {
    Binary(g) && InBounds(g, x, y) && g[x][y] == 1 &&
    (Interior(g, x, y) ==> Sum(Neighbours(g, x, y)) <= 1)
  }

  /** An endpoint survives a round of the four templates and stays an endpoint. */
  lemma EndpointSurvivesRound(g: Grid, x: int, y: int)
    requires Rectangular(g) && EndpointCell(g, x, y)
    ensures EndpointCell(Round(g), x, y)
  {
    var h1 := TemplatePass(g, 0);
    EndpointSurvivesPass(g, 0, x, y);
    var h2 := TemplatePass(h1, 1);
    EndpointSurvivesPass(h1, 1, x, y);
    var h3 := TemplatePass(h2, 2);
    EndpointSurvivesPass(h2, 2, x, y);
    var h4 := TemplatePass(h3, 3);
    EndpointSurvivesPass(h3, 3, x, y);
    assert Passes(g, 1) == h1;
    assert Passes(g, 2) == h2;
    assert Passes(g, 3) == h3;
    assert Round(g) == Passes(g, 4) == h4;
  }

  /** An endpoint survives one template pass and stays an endpoint. */
  lemma EndpointSurvivesPass(g: Grid, t: int, x: int, y: int)
    requires Rectangular(g) && EndpointCell(g, x, y)
    ensures EndpointCell(TemplatePass(g, t), x, y)
  {
    var n := TemplatePass(g, t);
    assert !Eligible(g, x, y, t);
    ShrinksBinary(g, n);
    if Interior(g, x, y) {
      NeighbourSumShrinks(g, n, x, y);
    }
  }

  /** The connectivity test as written lets the north template delete a junction cell whose
      transition count is 3: on this 5x5 grid the pixel at (1, 1) touches the rest of the object
      only through (2, 2), and after the pass it has no object neighbour left. */
  lemma PolarityCanIsolate()
    ensures var g := [[0, 0, 0, 0, 0], [0, 1, 0, 0, 0], [0, 0, 1, 1, 0], [0, 0, 1, 0, 0], [0, 0, 0, 0, 0]];
            var r := TemplatePass(g, 0);
            Transitions(Neighbours(g, 2, 2)) == 3 && Sum(Neighbours(g, 1, 1)) == 1 &&
            r[2][2] == 0 && r[1][1] == 1 && Sum(Neighbours(r, 1, 1)) == 0
  {
    var g := [[0, 0, 0, 0, 0], [0, 1, 0, 0, 0], [0, 0, 1, 1, 0], [0, 0, 1, 0, 0], [0, 0, 0, 0, 0]];
    var p := Neighbours(g, 2, 2);
    assert p == [0, 0, 1, 0, 1, 0, 0, 1];
    assert Rises(p, 1) == 0 && Rises(p, 2) == 1 && Rises(p, 3) == 1 && Rises(p, 4) == 2;
    assert Rises(p, 5) == 2 && Rises(p, 6) == 2 && Rises(p, 7) == 3 && Rises(p, 8) == 3;
    SumOfEight(p);
    SumOfEight(Neighbours(g, 1, 1));
    assert Eligible(g, 2, 2, 0);
    var r := TemplatePass(g, 0);
    SumOfEight(Neighbours(r, 1, 1));
  }

  /** North and south, and east and west, are the same template turned half a circle: turning
      the neighbourhood by 180 degrees maps p2..p5 onto p6..p9. */
  lemma TemplatesOpposite(p: seq<int>)
    requires |p| == 8
    ensures MatchesTemplate(p[4..] + p[..4], 0) == MatchesTemplate(p, 1)
    ensures MatchesTemplate(p[4..] + p[..4], 2) == MatchesTemplate(p, 3)
    ensures !(MatchesTemplate(p, 0) && MatchesTemplate(p, 1))
    ensures !(MatchesTemplate(p, 2) && MatchesTemplate(p, 3))
  {
  }
}
