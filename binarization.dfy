/** Conversion between images and occupancy grids: the threshold that produces the grid the
    thinning algorithms work on, and the rendering of a grid back into black and white. */
module Binarization {
  import opened Pixels
  import opened Raster

  /** The fixed grey level below which a pixel is object. */
  const Threshold: int := 128

  /** The grey level of a pixel: the floor of the mean of red, green and blue (alpha is ignored). */
  function Gray(p: Argb): (level: int)
    ensures 0 <= level <= 255
  {
    (ChannelOf(p, Red) + ChannelOf(p, Green) + ChannelOf(p, Blue)) / 3
  }

  /** The grid cell of one pixel: 1 (object) when darker than the threshold, 0 (background) otherwise. */
  function Ink(p: Argb): (cell: int)
    ensures cell == 0 || cell == 1
  {
    if Gray(p) < Threshold then 1 else 0
  }

  /** The pixel of one grid cell: 1 is opaque black, anything else opaque white. */
  function Render(cell: int): Argb
  {
    if cell == 1 then Black else White
  }

  /** The grid the thinning algorithms start from. */
  ghost function Binarized(img: Image): (g: Grid)
    ensures |g| == |img| && forall x :: 0 <= x < |g| ==> |g[x]| == |img[x]|
  {
    seq(|img|, x requires 0 <= x < |img| => seq(|img[x]|, y requires 0 <= y < |img[x]| => Ink(img[x][y])))
  }

  /** The image drawn from the first `width` columns and `height` rows of a grid. */
  ghost function Rendered(g: Grid, width: nat, height: nat): (img: Image)
    requires Rectangular(g) && width <= |g| && (width == 0 || height <= Height(g))
    ensures |img| == width && forall x :: 0 <= x < width ==> |img[x]| == height
  {
    seq(width, x requires 0 <= x < width => seq(height, y requires 0 <= y < height => Render(g[x][y])))
  }

  /** `binarize`: one cell per pixel, 1 exactly where the pixel's grey level is below 128. */
  method Binarize(img: array2<Argb>) returns (grid: array2<int>)
    ensures fresh(grid)
    ensures grid.Length0 == img.Length0 && grid.Length1 == img.Length1
    ensures Snapshot(grid) == Binarized(Snapshot(img))
  {
    var width, height := img.Length0, img.Length1;
    grid := new int[width, height];
    var y := 0;
    while y < height
      invariant 0 <= y <= height
      invariant forall i, j :: 0 <= i < width && 0 <= j < y ==> grid[i, j] == Ink(img[i, j])
    {
      var x := 0;
      while x < width
        invariant 0 <= x <= width
        invariant forall i, j :: 0 <= i < width && 0 <= j < y ==> grid[i, j] == Ink(img[i, j])
        invariant forall i :: 0 <= i < x ==> grid[i, y] == Ink(img[i, y])
      {
        var rgb := img[x, y];
        var r: int := ChannelOf(rgb, Red);
        var g: int := ChannelOf(rgb, Green);
        var b: int := ChannelOf(rgb, Blue);
        var gray := (r + g + b) / 3;
        if gray < Threshold {
          grid[x, y] := 1;
        } else {
          grid[x, y] := 0;
        }
        x := x + 1;
      }
      y := y + 1;
    }
    Extensionality(Snapshot(grid), Binarized(Snapshot(img)));
  }

  /** `arrayToImage`: a `width` by `height` image, black where the grid holds 1 and white elsewhere. */
  method ArrayToImage(grid: array2<int>, width: nat, height: nat) returns (img: array2<Argb>)
    requires width <= grid.Length0 && height <= grid.Length1
    ensures fresh(img)
    ensures img.Length0 == width && img.Length1 == height
    ensures forall x, y :: 0 <= x < width && 0 <= y < height ==>
              img[x, y] == if grid[x, y] == 1 then Black else White
  {
    img := new Argb[width, height];
    var y := 0;
    while y < height
      invariant 0 <= y <= height
      invariant forall i, j :: 0 <= i < width && 0 <= j < y ==> img[i, j] == Render(grid[i, j])
    {
      var x := 0;
      while x < width
        invariant 0 <= x <= width
        invariant forall i, j :: 0 <= i < width && 0 <= j < y ==> img[i, j] == Render(grid[i, j])
        invariant forall i :: 0 <= i < x ==> img[i, y] == Render(grid[i, y])
      {
        if grid[x, y] == 1 {
          img[x, y] := Black;
        } else {
          img[x, y] := White;
        }
        x := x + 1;
      }
      y := y + 1;
    }
  }

  /** The drawn image, as a value: the rendering of the grid's snapshot. */
  lemma ArrayToImageRendered(grid: array2<int>, img: array2<Argb>)
    requires img.Length0 == grid.Length0 && img.Length1 == grid.Length1
    requires forall x, y :: 0 <= x < img.Length0 && 0 <= y < img.Length1 ==> img[x, y] == Render(grid[x, y])
    ensures Snapshot(img) == Rendered(Snapshot(grid), grid.Length0, grid.Length1)
  {
    Extensionality(Snapshot(img), Rendered(Snapshot(grid), grid.Length0, grid.Length1));
  }

  /** The binarized grid has the image's shape, holds only 0 and 1, and holds 1 exactly where
      the pixel's grey level is below the threshold. */
  lemma BinarizedCells(img: Image)
    requires Rectangular(img)
    ensures Rectangular(Binarized(img)) && Binary(Binarized(img))
    ensures |img| > 0 ==> Height(Binarized(img)) == Height(img)
    ensures forall x, y :: InBounds(img, x, y) ==> (Binarized(img)[x][y] == 1 <==> Gray(img[x][y]) < Threshold)
  {
    var g := Binarized(img);
    forall x, y | InBounds(g, x, y)
      ensures g[x][y] == 0 || g[x][y] == 1
    {
      var cell := Ink(img[x][y]);
    }
  }

  /** The threshold read as an inequality on the channel sum: object exactly when r + g + b < 384. */
  lemma InkIsDark(p: Argb)
    ensures Ink(p) == 1 <==> ChannelOf(p, Red) + ChannelOf(p, Green) + ChannelOf(p, Blue) < 3 * Threshold
  {
  }

  /** The boundary of the threshold: a grey level of 127 is object, 128 is background. */
  lemma ThresholdBoundary(p: Argb)
    ensures Gray(p) == 127 ==> Ink(p) == 1
    ensures Gray(p) == 128 ==> Ink(p) == 0
    ensures Ink(Pack(255, 127, 127, 127)) == 1 && Ink(Pack(255, 128, 128, 128)) == 0
    ensures Ink(Pack(0, 127, 128, 128)) == 1 && Ink(Pack(0, 128, 128, 128)) == 0
  {
    UnpackPack(255, 127, 127, 127);
    UnpackPack(255, 128, 128, 128);
    UnpackPack(0, 127, 128, 128);
    UnpackPack(0, 128, 128, 128);
  }

  /** Rendering is opaque, and binarizing a rendered cell gives back 1 for 1 and 0 for anything else. */
  lemma InkOfRender(cell: int)
    ensures ChannelOf(Render(cell), Alpha) == 255
    ensures Ink(Render(cell)) == if cell == 1 then 1 else 0
  {
    if cell == 1 {
      assert Render(cell) == Pack(255, 0, 0, 0);
      UnpackPack(255, 0, 0, 0);
    } else {
      assert Render(cell) == Pack(255, 255, 255, 255);
      UnpackPack(255, 255, 255, 255);
    }
  }

  /** Round trip: binarizing the rendering of a 0/1 grid gives back the grid. */
  lemma BinarizeRendered(g: Grid)
    requires Rectangular(g) && Binary(g)
    ensures Binarized(Rendered(g, |g|, Height(g))) == g
  {
    var back := Binarized(Rendered(g, |g|, Height(g)));
    forall x, y | InBounds(g, x, y)
      ensures back[x][y] == g[x][y]
    {
      InkOfRender(g[x][y]);
    }
    Extensionality(back, g);
  }
}
