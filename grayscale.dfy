/**
 * `image_to_grayscale_critical`: each pixel's first three samples (R, G, B)
 * are replaced, in every channel slot of that pixel, by one luma value.
 */
module Grayscale {
  import opened Raster

  function Max(a: int, b: int): int {
    if a < b then b else a
  }

  /**
   * The luma of one pixel, 0.21 r + 0.71 g + 0.07 b cast to an unsigned byte.
   * The weights sum to 0.99, so the value never exceeds the brightest of the
   * three samples and the cast cannot overflow.
   */
  function Luma(r: Byte, g: Byte, b: Byte): (v: Byte)
    ensures v <= Max(r, Max(g, b))
  {
    (21 * r + 71 * g + 7 * b) / 100
  }

  /** The luma of pixel p, read from that pixel's own first three samples. */
  function PixelLuma(s: seq<Byte>, c: nat, p: nat): Byte
    requires c >= 3 && (p + 1) * c <= |s|
  {
    Luma(s[p * c], s[p * c + 1], s[p * c + 2])
  }

  /** The sample at index i lies in a pixel that ends inside the buffer. */
  lemma PixelFits(len: nat, c: nat, i: nat)
    requires c > 0 && len % c == 0 && i < len
    ensures (i / c + 1) * c <= len
  {
    assert len == (len / c) * c;
    assert i == (i / c) * c + i % c;
    if i / c >= len / c {
      MulMono(len / c, i / c, c);
      assert false;
    }
    MulMono(i / c + 1, len / c, c);
  }

  /** The grayscale image: every sample takes the luma of the pixel it belongs to. */
  function Grayscaled(s: seq<Byte>, c: nat): (r: seq<Byte>)
    requires c >= 3 && |s| % c == 0
    ensures |r| == |s|
  {
    seq(|s|, i requires 0 <= i < |s| => PixelFits(|s|, c, i); PixelLuma(s, c, i / c))
  }

  /** All c samples of pixel p hold the luma of that pixel's original R, G, B. */
  lemma GrayscaledPixel(s: seq<Byte>, c: nat, p: nat, j: nat)
    requires c >= 3 && |s| % c == 0 && (p + 1) * c <= |s| && j < c
    ensures p * c + j < |s|
    ensures Grayscaled(s, c)[p * c + j] == Luma(s[p * c], s[p * c + 1], s[p * c + 2])
  {
    DivModUnique(p, c, j);
  }

  /**
   * No other pixel influences a pixel's result: two buffers that agree on
   * the R, G, B of pixel p agree on every sample of p after the transform.
   */
  lemma GrayscaledLocal(s: seq<Byte>, t: seq<Byte>, c: nat, p: nat, j: nat)
    requires c >= 3 && |s| % c == 0 && |t| == |s| && (p + 1) * c <= |s| && j < c
    requires s[p * c] == t[p * c] && s[p * c + 1] == t[p * c + 1] && s[p * c + 2] == t[p * c + 2]
    ensures Grayscaled(s, c)[p * c + j] == Grayscaled(t, c)[p * c + j]
  {
    GrayscaledPixel(s, c, p, j);
    GrayscaledPixel(t, c, p, j);
  }

  /**
   * The sequential loop of `image_to_grayscale_critical`: i steps from pixel
   * start to pixel start, reads R, G, B, computes the luma once and stores it
   * into all c slots of the pixel.
   */
  method ToGrayscale(a: array<Byte>, w: nat, h: nat, c: nat)
    requires c >= 3 && a.Length == Size(w, h, c)
    modifies a
    ensures a.Length % c == 0 && a[..] == Grayscaled(old(a[..]), c)
  {
    var n := w * h * c;
    DivModUnique(w * h, c, 0);
    ghost var s := a[..];
    ghost var p := 0;
    var i := 0;
    while i < n
      invariant i == p * c && p <= w * h
      invariant forall m :: 0 <= m < i ==> a[m] == Grayscaled(s, c)[m]
      invariant forall m :: i <= m < n ==> a[m] == s[m]
      decreases n - i
    {
      if p >= w * h {
        MulMono(w * h, p, c);
        assert false;
      }
      MulMono(p + 1, w * h, c);
      var r, g, b := a[i], a[i + 1], a[i + 2];
      var gray := Luma(r, g, b);
      for j := 0 to c
        invariant forall m :: 0 <= m < i ==> a[m] == Grayscaled(s, c)[m]
        invariant forall m :: i <= m < i + j ==> a[m] == gray
        invariant forall m :: i + j <= m < n ==> a[m] == s[m]
      {
        a[i + j] := gray;
      }
      forall m | i <= m < i + c
        ensures a[m] == Grayscaled(s, c)[m]
      {
        GrayscaledPixel(s, c, p, m - i);
      }
      i := i + c;
      p := p + 1;
    }
  }
}
