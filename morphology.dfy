/** Per-channel grey-level morphology: erosion and dilation over the 3x3 neighbourhood. Each of
    alpha, red, green and blue is treated on its own, so colours are not kept together. */
module Morphology {
  import opened Pixels
  import opened Raster

  datatype Operation = Erosion | Dilation

  /** The accumulator's starting value: 255 for a minimum, 0 for a maximum. */
  function Start(op: Operation): Byte
  {
    if op == Erosion then 255 else 0
  }

  /** One accumulation step: `Math.min` for erosion, `Math.max` for dilation. */
  function Combine(op: Operation, acc: Byte, v: Byte): Byte
  {
    if op == Erosion then (if v < acc then v else acc) else (if v > acc then v else acc)
  }

  /** The 3x3 neighbourhood of an interior pixel in the order the source visits it:
      `ky` from -1 to 1 outside, `kx` from -1 to 1 inside. */
  function Window(img: Image, x: int, y: int): (w: seq<Argb>)
    requires Rectangular(img) && Interior(img, x, y)
    ensures |w| == 9
  {
    seq(9, k requires 0 <= k < 9 => img[x + Dx(k)][y + Dy(k)])
  }

  /** The horizontal offset `kx` of the window's `k`-th pixel. */
  function Dx(k: nat): int { k % 3 - 1 }

  /** The vertical offset `ky` of the window's `k`-th pixel. */
  function Dy(k: nat): int { k / 3 - 1 }

  /** Channel `c` of the pixels `ps` folded with `op`, starting from `Start(op)`. */
  function Extreme(op: Operation, ps: seq<Argb>, c: Channel): Byte
  {
    if ps == [] then Start(op) else Combine(op, Extreme(op, ps[..|ps| - 1], c), ChannelOf(ps[|ps| - 1], c))
  }

  /** The pixel at `(x, y)` after erosion or dilation: border pixels keep their value, an
      interior pixel takes, channel by channel, the extreme over its window. */
  function MorphPixel(img: Image, op: Operation, x: int, y: int): Argb
    requires Rectangular(img) && InBounds(img, x, y)
  {
    if Interior(img, x, y) then
      var w := Window(img, x, y);
      Pack(Extreme(op, w, Alpha), Extreme(op, w, Red), Extreme(op, w, Green), Extreme(op, w, Blue))
    else
      img[x][y]
  }

  /** The whole image after erosion or dilation. */
  ghost function Morph(img: Image, op: Operation): (r: Image)
    requires Rectangular(img)
    ensures |r| == |img| && Rectangular(r) && Height(r) == Height(img)
  {
    seq(|img|, x requires 0 <= x < |img| =>
      seq(Height(img), y requires 0 <= y < Height(img) => MorphPixel(img, op, x, y)))
  }

  /** The four accumulators hold the folds of the first `n` pixels of `w`. */
  ghost predicate Folded(op: Operation, w: seq<Argb>, n: int, a: Byte, r: Byte, g: Byte, b: Byte)
  {
    0 <= n <= |w| &&
    a == Extreme(op, w[..n], Alpha) && r == Extreme(op, w[..n], Red) &&
    g == Extreme(op, w[..n], Green) && b == Extreme(op, w[..n], Blue)
  }

  /** The inner 3x3 loops of the source for one interior pixel: four accumulators, one per
      channel, each folded over the window with `Math.min` or `Math.max`. */
  method WindowExtreme(src: array2<Argb>, x: int, y: int, op: Operation) returns (rgb: Argb)
    requires 1 <= x < src.Length0 - 1 && 1 <= y < src.Length1 - 1
    ensures rgb == MorphPixel(Snapshot(src), op, x, y)
  {
    ghost var w := Window(Snapshot(src), x, y);
    var accA, accR, accG, accB := Start(op), Start(op), Start(op), Start(op);
    assert w[..0] == [];
    var ky := -1;
    while ky <= 1
      invariant -1 <= ky <= 2
      invariant Folded(op, w, 3 * (ky + 1), accA, accR, accG, accB)
    {
      accA, accR, accG, accB := WindowRow(src, x, y, ky, op, w, accA, accR, accG, accB);
      ky := ky + 1;
    }
    rgb := Pack(accA, accR, accG, accB);
    FoldedWindow(Snapshot(src), op, x, y, accA, accR, accG, accB);
  }

  /** The loop over `kx` for one row `ky` of the window `w`. */
  method WindowRow(src: array2<Argb>, x: int, y: int, ky: int, op: Operation, ghost w: seq<Argb>,
                   a0: Byte, r0: Byte, g0: Byte, b0: Byte)
    returns (accA: Byte, accR: Byte, accG: Byte, accB: Byte)
    requires 1 <= x < src.Length0 - 1 && 1 <= y < src.Length1 - 1 && -1 <= ky <= 1
    requires w == Window(Snapshot(src), x, y)
    requires Folded(op, w, 3 * (ky + 1), a0, r0, g0, b0)
    ensures Folded(op, w, 3 * (ky + 2), accA, accR, accG, accB)
  {
    accA, accR, accG, accB := a0, r0, g0, b0;
    var kx := -1;
    while kx <= 1
      invariant -1 <= kx <= 2
      invariant Folded(op, w, 3 * (ky + 1) + kx + 1, accA, accR, accG, accB)
    {
      var rgb := src[x + kx, y + ky];
      WindowStep(src, x, y, ky, kx, op, w, accA, accR, accG, accB);
      accA := Combine(op, accA, ChannelOf(rgb, Alpha));
      accR := Combine(op, accR, ChannelOf(rgb, Red));
      accG := Combine(op, accG, ChannelOf(rgb, Green));
      accB := Combine(op, accB, ChannelOf(rgb, Blue));
      kx := kx + 1;
    }
  }

  /** Folding in the pixel the source reads at offset `(kx, ky)`, which is the window's
      `3 * (ky + 1) + (kx + 1)`-th, advances the fold by one. */
  lemma WindowStep(src: array2<Argb>, x: int, y: int, ky: int, kx: int, op: Operation, w: seq<Argb>,
                   a: Byte, r: Byte, g: Byte, b: Byte)
    requires 1 <= x < src.Length0 - 1 && 1 <= y < src.Length1 - 1
    requires -1 <= ky <= 1 && -1 <= kx <= 1
    requires w == Window(Snapshot(src), x, y)
    requires Folded(op, w, 3 * (ky + 1) + kx + 1, a, r, g, b)
    ensures var rgb := src[x + kx, y + ky];
            Folded(op, w, 3 * (ky + 1) + kx + 2, Combine(op, a, ChannelOf(rgb, Alpha)), Combine(op, r, ChannelOf(rgb, Red)),
                   Combine(op, g, ChannelOf(rgb, Green)), Combine(op, b, ChannelOf(rgb, Blue)))
  {
    var k := 3 * (ky + 1) + kx + 1;
    assert Dx(k) == kx && Dy(k) == ky;
    FoldStep(op, w, k, src[x + kx, y + ky], a, r, g, b);
  }

  /** Once the whole window is folded, the packed accumulators are the rewritten pixel. */
  lemma FoldedWindow(img: Image, op: Operation, x: int, y: int, a: Byte, r: Byte, g: Byte, b: Byte)
    requires Rectangular(img) && Interior(img, x, y)
    requires Folded(op, Window(img, x, y), 9, a, r, g, b)
    ensures Pack(a, r, g, b) == MorphPixel(img, op, x, y)
  {
    var w := Window(img, x, y);
    assert w[..9] == w;
  }

  /** Folding one more pixel into each accumulator. */
  lemma FoldStep(op: Operation, w: seq<Argb>, n: int, rgb: Argb, a: Byte, r: Byte, g: Byte, b: Byte)
    requires Folded(op, w, n, a, r, g, b) && n < |w| && w[n] == rgb
    ensures Folded(op, w, n + 1, Combine(op, a, ChannelOf(rgb, Alpha)), Combine(op, r, ChannelOf(rgb, Red)),
                   Combine(op, g, ChannelOf(rgb, Green)), Combine(op, b, ChannelOf(rgb, Blue)))
  {
    assert w[..n + 1][..n] == w[..n];
  }

  /** `applyErosion` (`op == Erosion`) and `applyDilation` (`op == Dilation`): the output
      starts as a copy of the source, then every interior pixel is rewritten from the source. */
  method Apply(src: array2<Argb>, op: Operation) returns (dst: array2<Argb>)
    ensures fresh(dst)
    ensures dst.Length0 == src.Length0 && dst.Length1 == src.Length1
    ensures Snapshot(dst) == Morph(Snapshot(src), op)
  {
    var width, height := src.Length0, src.Length1;
    dst := new Argb[width, height]((i, j) requires 0 <= i < width && 0 <= j < height reads src => src[i, j]);
    ghost var img := Snapshot(src);
    var y := 1;
    while y < height - 1
      invariant 1 <= y && (height >= 2 ==> y <= height - 1)
      invariant forall i, j :: 0 <= i < width && 0 <= j < height ==>
                  dst[i, j] == if j < y then MorphPixel(img, op, i, j) else src[i, j]
    {
      var x := 1;
      while x < width - 1
        invariant 1 <= x && (width >= 2 ==> x <= width - 1)
        invariant forall i, j :: 0 <= i < width && 0 <= j < height ==>
                    dst[i, j] == if j < y || (j == y && i < x) then MorphPixel(img, op, i, j) else src[i, j]
      {
        var rgb := WindowExtreme(src, x, y, op);
        dst[x, y] := rgb;
        x := x + 1;
      }
      y := y + 1;
    }
    Extensionality(Snapshot(dst), Morph(img, op));
  }

  /** `applyErosion`. */
  method ApplyErosion(src: array2<Argb>) returns (dst: array2<Argb>)
    ensures fresh(dst)
    ensures dst.Length0 == src.Length0 && dst.Length1 == src.Length1
    ensures Snapshot(dst) == Morph(Snapshot(src), Erosion)
  {
    dst := Apply(src, Erosion);
  }

  /** `applyDilation`. */
  method ApplyDilation(src: array2<Argb>) returns (dst: array2<Argb>)
    ensures fresh(dst)
    ensures dst.Length0 == src.Length0 && dst.Length1 == src.Length1
    ensures Snapshot(dst) == Morph(Snapshot(src), Dilation)
  {
    dst := Apply(src, Dilation);
  }

  /** `e` lies on the side of `v` that the operation moves towards: below for erosion, above for dilation. */
  predicate Bounds(op: Operation, e: int, v: int)
  {
    if op == Erosion then e <= v else e >= v
  }

  /** The fold of a non-empty sequence of pixels is the extreme of the channel: a minimum
      (erosion) or maximum (dilation) that one of the pixels attains. */
  lemma ExtremeIsAttained(op: Operation, ps: seq<Argb>, c: Channel)
    requires |ps| > 0
    ensures forall k :: 0 <= k < |ps| ==> Bounds(op, Extreme(op, ps, c), ChannelOf(ps[k], c))
    ensures exists k :: 0 <= k < |ps| && Extreme(op, ps, c) == ChannelOf(ps[k], c)
  {
    ExtremeBounds(op, ps, c);
    var k := ExtremeAttained(op, ps, c);
  }

  /** The fold lies on the operation's side of every channel value it has seen. */
  lemma {:induction false} ExtremeBounds(op: Operation, ps: seq<Argb>, c: Channel)
    ensures forall k :: 0 <= k < |ps| ==> Bounds(op, Extreme(op, ps, c), ChannelOf(ps[k], c))
  {
    if ps != [] {
      var n := |ps| - 1;
      var prev := ps[..n];
      ExtremeBounds(op, prev, c);
      var e := Extreme(op, ps, c);
      assert e == Combine(op, Extreme(op, prev, c), ChannelOf(ps[n], c));
      forall k | 0 <= k < n
        ensures Bounds(op, e, ChannelOf(ps[k], c))
      {
        assert ps[k] == prev[k];
      }
    }
  }

  /** The fold of a non-empty sequence is the channel value of one of its pixels, at index `k`. */
  lemma {:induction false} ExtremeAttained(op: Operation, ps: seq<Argb>, c: Channel) returns (k: nat)
    requires |ps| > 0
    ensures k < |ps| && Extreme(op, ps, c) == ChannelOf(ps[k], c)
  {
    var n := |ps| - 1;
    if n == 0 {
      k := 0;
      assert ps[..0] == [];
    } else {
      var prev := ps[..n];
      var j := ExtremeAttained(op, prev, c);
      if Extreme(op, ps, c) == ChannelOf(ps[n], c) {
        k := n;
      } else {
        k := j;
        assert prev[j] == ps[j];
      }
    }
  }

  /** Erosion: every channel of an interior pixel is the minimum of that channel over the
      source's 3x3 window, so it is at most the source's own value; border pixels are unchanged. */
  lemma ErosionIsWindowMinimum(img: Image, x: int, y: int, c: Channel)
    requires Rectangular(img) && InBounds(img, x, y)
    ensures !Interior(img, x, y) ==> MorphPixel(img, Erosion, x, y) == img[x][y]
    ensures Interior(img, x, y) ==>
              (forall k :: 0 <= k < 9 ==> ChannelOf(MorphPixel(img, Erosion, x, y), c) <= ChannelOf(Window(img, x, y)[k], c)) &&
              (exists k :: 0 <= k < 9 && ChannelOf(MorphPixel(img, Erosion, x, y), c) == ChannelOf(Window(img, x, y)[k], c))
    ensures ChannelOf(MorphPixel(img, Erosion, x, y), c) <= ChannelOf(img[x][y], c)
  {
    if Interior(img, x, y) {
      WindowExtremeChannel(img, Erosion, x, y, c);
    }
  }

  /** Dilation: every channel of an interior pixel is the maximum of that channel over the
      source's 3x3 window, so it is at least the source's own value; border pixels are unchanged. */
  lemma DilationIsWindowMaximum(img: Image, x: int, y: int, c: Channel)
    requires Rectangular(img) && InBounds(img, x, y)
    ensures !Interior(img, x, y) ==> MorphPixel(img, Dilation, x, y) == img[x][y]
    ensures Interior(img, x, y) ==>
              (forall k :: 0 <= k < 9 ==> ChannelOf(MorphPixel(img, Dilation, x, y), c) >= ChannelOf(Window(img, x, y)[k], c)) &&
              (exists k :: 0 <= k < 9 && ChannelOf(MorphPixel(img, Dilation, x, y), c) == ChannelOf(Window(img, x, y)[k], c))
    ensures ChannelOf(MorphPixel(img, Dilation, x, y), c) >= ChannelOf(img[x][y], c)
  {
    if Interior(img, x, y) {
      WindowExtremeChannel(img, Dilation, x, y, c);
    }
  }

  /** Channel `c` of a rewritten interior pixel is bounded by, and equal to one of, that channel
      over the window, whose centre is the source pixel. */
  lemma WindowExtremeChannel(img: Image, op: Operation, x: int, y: int, c: Channel)
    requires Rectangular(img) && Interior(img, x, y)
    ensures forall k :: 0 <= k < 9 ==> Bounds(op, ChannelOf(MorphPixel(img, op, x, y), c), ChannelOf(Window(img, x, y)[k], c))
    ensures exists k :: 0 <= k < 9 && ChannelOf(MorphPixel(img, op, x, y), c) == ChannelOf(Window(img, x, y)[k], c)
    ensures Window(img, x, y)[4] == img[x][y]
  {
    var w := Window(img, x, y);
    MorphChannel(img, op, x, y, c);
    ExtremeBounds(op, w, c);
    var k := ExtremeAttained(op, w, c);
    assert ChannelOf(MorphPixel(img, op, x, y), c) == ChannelOf(w[k], c);
  }

  /** Each channel of a rewritten pixel is its own fold: the packing keeps channels apart. */
  lemma MorphChannel(img: Image, op: Operation, x: int, y: int, c: Channel)
    requires Rectangular(img) && Interior(img, x, y)
    ensures ChannelOf(MorphPixel(img, op, x, y), c) == Extreme(op, Window(img, x, y), c)
  {
    var w := Window(img, x, y);
    UnpackPack(Extreme(op, w, Alpha), Extreme(op, w, Red), Extreme(op, w, Green), Extreme(op, w, Blue));
  }

  /** A uniform image is a fixed point of both operations. */
  lemma {:induction false} UniformFixed(img: Image, op: Operation, v: Argb)
    requires Rectangular(img)
    requires forall x, y :: InBounds(img, x, y) ==> img[x][y] == v
    ensures Morph(img, op) == img
  {
    forall x, y | InBounds(img, x, y)
      ensures Morph(img, op)[x][y] == img[x][y]
    {
      if Interior(img, x, y) {
        var w := Window(img, x, y);
        forall c: Channel
          ensures Extreme(op, w, c) == ChannelOf(v, c)
        {
          ExtremeIsAttained(op, w, c);
        }
        PackUnpack(v);
      }
    }
    Extensionality(Morph(img, op), img);
  }

  /** Erosion followed by dilation gives back a uniform image. */
  lemma ErodeDilateUniform(img: Image, v: Argb)
    requires Rectangular(img)
    requires forall x, y :: InBounds(img, x, y) ==> img[x][y] == v
    ensures Morph(Morph(img, Erosion), Dilation) == img
  {
    UniformFixed(img, Erosion, v);
    UniformFixed(img, Dilation, v);
  }

  /** Erosion never exceeds dilation, channel by channel. */
  lemma ErosionBelowDilation(img: Image, x: int, y: int, c: Channel)
    requires Rectangular(img) && InBounds(img, x, y)
    ensures ChannelOf(MorphPixel(img, Erosion, x, y), c) <= ChannelOf(MorphPixel(img, Dilation, x, y), c)
  {
    ErosionIsWindowMinimum(img, x, y, c);
    DilationIsWindowMaximum(img, x, y, c);
  }
}
