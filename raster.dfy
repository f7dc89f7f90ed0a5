/** Rasters as values: images and binary grids indexed `[x][y]`, column by column, the way
    `new int[width][height]` is indexed in the source. */
module Raster {
  import opened Pixels

  type Image = seq<seq<Argb>>

  /** An occupancy grid: 1 is foreground (object), 0 background. */
  type Grid = seq<seq<int>>

  function Height<T>(g: seq<seq<T>>): nat
  {
    if |g| == 0 then 0 else |g[0]|
  }

  /** Every column has the same height. */
  ghost predicate Rectangular<T>(g: seq<seq<T>>)
  {
    forall x :: 0 <= x < |g| ==> |g[x]| == Height(g)
  }

  predicate InBounds<T>(g: seq<seq<T>>, x: int, y: int)
  {
    0 <= x < |g| && 0 <= y < Height(g)
  }

  /** Strictly inside the one-pixel border ring: the scans `x = 1 .. width-2`, `y = 1 .. height-2`. */
  predicate Interior<T>(g: seq<seq<T>>, x: int, y: int)
  {
    1 <= x < |g| - 1 && 1 <= y < Height(g) - 1
  }

  /** The value held by a two-dimensional array, read `[x][y]`. */
  ghost function Snapshot<T>(a: array2<T>): (g: seq<seq<T>>)
    reads a
    ensures |g| == a.Length0 && Rectangular(g)
    ensures a.Length0 > 0 ==> Height(g) == a.Length1
    ensures forall x, y :: 0 <= x < a.Length0 && 0 <= y < a.Length1 ==> g[x][y] == a[x, y]
  {
    seq(a.Length0, x requires 0 <= x < a.Length0 reads a =>
      seq(a.Length1, y requires 0 <= y < a.Length1 reads a => a[x, y]))
  }

  /** Two rectangular rasters of one shape that agree cell by cell are equal. */
  lemma Extensionality<T>(g: seq<seq<T>>, h: seq<seq<T>>)
    requires Rectangular(g) && Rectangular(h) && |g| == |h| && Height(g) == Height(h)
    requires forall x, y :: InBounds(g, x, y) ==> g[x][y] == h[x][y]
    ensures g == h
  {
    forall x | 0 <= x < |g|
      ensures g[x] == h[x]
    {
      forall y | 0 <= y < |g[x]|
        ensures g[x][y] == h[x][y]
      {
        assert InBounds(g, x, y);
      }
    }
  }

  /** Every cell holds 0 or 1. */
  ghost predicate Binary(g: Grid)
  {
    forall x, y :: 0 <= x < |g| && 0 <= y < |g[x]| ==> g[x][y] == 0 || g[x][y] == 1
  }

  /** The number of non-zero cells of one column. */
  function ColumnForeground(c: seq<int>): nat
  {
    if c == [] then 0 else ColumnForeground(c[..|c| - 1]) + (if c[|c| - 1] != 0 then 1 else 0)
  }

  /** The number of non-zero cells of a grid: the measure that every thinning round decreases. */
  function Foreground(g: Grid): nat
  {
    if g == [] then 0 else Foreground(g[..|g| - 1]) + ColumnForeground(g[|g| - 1])
  }

  /** `d` is `c` with some cells cleared to 0 and nothing else changed. */
  ghost predicate ColumnShrinks(c: seq<int>, d: seq<int>)
  {
    |d| == |c| && forall y :: 0 <= y < |c| ==> d[y] == c[y] || d[y] == 0
  }

  /** `r` is `g` with some cells cleared to 0: no foreground is ever added and no value altered. */
  ghost predicate Shrinks(g: Grid, r: Grid)
  {
    |r| == |g| && forall x :: 0 <= x < |g| ==> ColumnShrinks(g[x], r[x])
  }

  /** `r` has the shape of `g` and the same border ring. */
  ghost predicate BorderKept(g: Grid, r: Grid)
    requires Rectangular(g)
  {
    |r| == |g| && (forall x :: 0 <= x < |g| ==> |r[x]| == |g[x]|) &&
    forall x, y :: InBounds(g, x, y) && !Interior(g, x, y) ==> r[x][y] == g[x][y]
  }

  lemma ShrinksTransitive(a: Grid, b: Grid, c: Grid)
    requires Shrinks(a, b) && Shrinks(b, c)
    ensures Shrinks(a, c)
  {
    forall x | 0 <= x < |a|
      ensures ColumnShrinks(a[x], c[x])
    {
      assert ColumnShrinks(a[x], b[x]) && ColumnShrinks(b[x], c[x]);
    }
  }

  lemma BorderKeptTransitive(a: Grid, b: Grid, c: Grid)
    requires Rectangular(a) && Rectangular(b)
    requires BorderKept(a, b) && BorderKept(b, c)
    ensures BorderKept(a, c)
  {
    assert Height(a) == Height(b);
    forall x, y | InBounds(a, x, y) && !Interior(a, x, y)
      ensures c[x][y] == a[x][y]
    {
      assert InBounds(b, x, y) && !Interior(b, x, y);
    }
  }

  lemma ShrinksRectangular(g: Grid, r: Grid)
    requires Rectangular(g) && Shrinks(g, r)
    ensures Rectangular(r) && Height(r) == Height(g)
  {
    if |g| > 0 {
      assert ColumnShrinks(g[0], r[0]);
      forall x | 0 <= x < |r|
        ensures |r[x]| == Height(r)
      {
        assert ColumnShrinks(g[x], r[x]);
      }
    }
  }

  /** Clearing cells never raises the count, and clearing at least one non-zero cell lowers it. */
  lemma {:induction false} ColumnForegroundShrinks(c: seq<int>, d: seq<int>)
    requires ColumnShrinks(c, d)
    ensures ColumnForeground(d) <= ColumnForeground(c)
    ensures d != c ==> ColumnForeground(d) < ColumnForeground(c)
  {
    if c != [] {
      var n := |c| - 1;
      assert ColumnShrinks(c[..n], d[..n]);
      ColumnForegroundShrinks(c[..n], d[..n]);
      if d != c && d[..n] == c[..n] {
        assert d[n] != c[n];
      }
      if d[..n] != c[..n] {
        assert d != c;
      }
    }
  }

  /** The thinning rounds' measure: a grid that shrinks to a different grid has fewer foreground cells. */
  lemma {:induction false} ForegroundShrinks(g: Grid, r: Grid)
    requires Shrinks(g, r)
    ensures Foreground(r) <= Foreground(g)
    ensures r != g ==> Foreground(r) < Foreground(g)
  {
    if g != [] {
      var n := |g| - 1;
      assert Shrinks(g[..n], r[..n]);
      ForegroundShrinks(g[..n], r[..n]);
      ColumnForegroundShrinks(g[n], r[n]);
      if r != g && r[..n] == g[..n] {
        assert r[n] != g[n];
      }
      if r[..n] != g[..n] {
        assert r != g;
      }
    }
  }

  /** Clearing cells of a 0/1 grid leaves a 0/1 grid. */
  lemma ShrinksBinary(g: Grid, r: Grid)
    requires Binary(g) && Shrinks(g, r)
    ensures Binary(r)
  {
    forall x, y | 0 <= x < |r| && 0 <= y < |r[x]|
      ensures r[x][y] == 0 || r[x][y] == 1
    {
      assert ColumnShrinks(g[x], r[x]);
    }
  }
}
