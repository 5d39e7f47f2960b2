/**
 * `image_blur`: a 3 × 3 box blur written back into the same buffer, in
 * row-major order, for the samples of interior pixels only (rows 1 to
 * height - 2, columns 1 to width - 2). Because the pass is in place, the
 * window of a sample already holds the blurred values of the samples that
 * come before it in row-major order, and the original values of those after.
 */
module Blur {
  import opened Raster

  /** The sum of a window of samples. */
  function Sum(window: seq<Byte>): (t: nat)
    ensures t <= 255 * |window|
  {
    if |window| == 0 then 0 else Sum(window[..|window| - 1]) + window[|window| - 1]
  }

  /**
   * The blurred value of a 3 × 3 window: each sample weighted by 1/9, cast to
   * a byte, that is, the average of the nine samples truncated.
   */
  function Stencil(window: seq<Byte>): (v: Byte)
    requires |window| == 9
    ensures 9 * v <= Sum(window) < 9 * v + 9
  {
    Sum(window) / 9
  }

  /** A window whose samples are all at most m sums to at most m per sample. */
  lemma {:induction false} SumAtMost(window: seq<Byte>, m: nat)
    requires forall j :: 0 <= j < |window| ==> window[j] <= m
    ensures Sum(window) <= m * |window|
  {
    if |window| > 0 {
      var n := |window| - 1;
      SumAtMost(window[..n], m);
      assert m * n + m == m * |window|;
    }
  }

  /** Blurring never makes a sample brighter than the brightest sample of its window. */
  lemma StencilAtMost(window: seq<Byte>, m: nat)
    requires |window| == 9 && forall j :: 0 <= j < 9 ==> window[j] <= m
    ensures Stencil(window) <= m
  {
    SumAtMost(window, m);
  }

  /** The sample at index i belongs to a pixel of rows 1 .. h-2 and columns 1 .. w-2. */
  predicate IsInterior(w: nat, h: nat, c: nat, i: nat) {
    && w > 0 && c > 0
    && 1 <= Row(w, c, i) && Row(w, c, i) + 2 <= h
    && 1 <= Col(w, c, i) && Col(w, c, i) + 2 <= w
  }

  /** The index of the sample in the same channel, ky rows down and kx columns right of sample i. */
  function Neighbour(w: nat, h: nat, c: nat, i: nat, ky: int, kx: int): (n: nat)
    requires IsInterior(w, h, c, i) && -1 <= ky <= 1 && -1 <= kx <= 1
    ensures Row(w, c, n) == Row(w, c, i) + ky && Col(w, c, n) == Col(w, c, i) + kx
    ensures Chan(c, n) == Chan(c, i)
  {
    AtDecode(w, c, Row(w, c, i) + ky, Col(w, c, i) + kx, Chan(c, i));
    At(w, c, Row(w, c, i) + ky, Col(w, c, i) + kx, Chan(c, i))
  }

  /**
   * The nine neighbours of an interior sample are in the buffer, in the same
   * channel, and come before it in row-major order exactly when they lie in
   * the row above or to the left in the same row.
   */
  lemma NeighbourInBounds(w: nat, h: nat, c: nat, i: nat, ky: int, kx: int)
    requires i < Size(w, h, c) && IsInterior(w, h, c, i) && -1 <= ky <= 1 && -1 <= kx <= 1
    ensures Neighbour(w, h, c, i, ky, kx) < Size(w, h, c)
    ensures Chan(c, Neighbour(w, h, c, i, ky, kx)) == Chan(c, i)
    ensures Neighbour(w, h, c, i, ky, kx) < i <==> ky < 0 || (ky == 0 && kx < 0)
  {
    Decompose(w, h, c, i);
    var y, x, k := Row(w, c, i), Col(w, c, i), Chan(c, i);
    AtBounds(w, h, c, y + ky, x + kx, k);
    AtDecode(w, c, y + ky, x + kx, k);
    AtShift(w, c, y, x, k, ky, kx);
    var d: int := if ky == -1 then kx - w else if ky == 0 then kx else w + kx;
    assert d == ky * w + kx;
    if d < 0 {
      MulMono(1, -d, c);
    } else if d > 0 {
      MulMono(1, d, c);
    }
  }

  /** The 3 × 3 window of interior sample i in t, row by row as the kernel loops visit it. */
  function Window(t: seq<Byte>, w: nat, h: nat, c: nat, i: nat): (r: seq<Byte>)
    requires |t| == Size(w, h, c) && i < |t| && IsInterior(w, h, c, i)
    ensures |r| == 9
  {
    seq(9, j requires 0 <= j < 9 =>
      NeighbourInBounds(w, h, c, i, j / 3 - 1, j % 3 - 1);
      t[Neighbour(w, h, c, i, j / 3 - 1, j % 3 - 1)])
  }

  /**
   * The buffer after the in-place pass has visited samples 0 .. i-1 in
   * row-major order: each interior sample takes the stencil of its window
   * as the buffer stands when the pass reaches it; border samples are skipped.
   */
  function BlurUpTo(s: seq<Byte>, w: nat, h: nat, c: nat, i: nat): (t: seq<Byte>)
    requires |s| == Size(w, h, c) && i <= |s|
    ensures |t| == |s|
  {
    if i == 0 then s
    else
      var t := BlurUpTo(s, w, h, c, i - 1);
      if IsInterior(w, h, c, i - 1) then t[i - 1 := Stencil(Window(t, w, h, c, i - 1))] else t
  }

  /** The buffer after the whole pass. */
  function Blurred(s: seq<Byte>, w: nat, h: nat, c: nat): (r: seq<Byte>)
    requires |s| == Size(w, h, c)
    ensures |r| == |s|
  {
    BlurUpTo(s, w, h, c, |s|)
  }

  /** The pass has not yet touched sample j if it lies at or after i, and never touches a border sample. */
  lemma {:induction false} BlurUpToUnchanged(s: seq<Byte>, w: nat, h: nat, c: nat, i: nat, j: nat)
    requires |s| == Size(w, h, c) && i <= |s| && j < |s|
    requires j >= i || !IsInterior(w, h, c, j)
    ensures BlurUpTo(s, w, h, c, i)[j] == s[j]
  {
    if i > 0 {
      BlurUpToUnchanged(s, w, h, c, i - 1, j);
    }
  }

  /** Once the pass is past sample j, later steps never write j again. */
  lemma {:induction false} BlurUpToStable(s: seq<Byte>, w: nat, h: nat, c: nat, i: nat, m: nat, j: nat)
    requires |s| == Size(w, h, c) && j < i <= m <= |s|
    ensures BlurUpTo(s, w, h, c, m)[j] == BlurUpTo(s, w, h, c, i)[j]
  {
    if m > i {
      BlurUpToStable(s, w, h, c, i, m - 1, j);
    }
  }

  /**
   * Midway through the pass, every sample before the current one already
   * holds its final blurred value and every sample from the current one on
   * still holds its original value.
   */
  lemma BlurUpToSplit(s: seq<Byte>, w: nat, h: nat, c: nat, i: nat, j: nat)
    requires |s| == Size(w, h, c) && i <= |s| && j < |s|
    ensures BlurUpTo(s, w, h, c, i)[j] == if j < i then Blurred(s, w, h, c)[j] else s[j]
  {
    if j < i {
      BlurUpToStable(s, w, h, c, i, |s|, j);
    } else {
      BlurUpToUnchanged(s, w, h, c, i, j);
    }
  }

  /** Border samples (row 0, row h-1, column 0, column w-1) are byte-identical after the blur. */
  lemma BlurredBorder(s: seq<Byte>, w: nat, h: nat, c: nat, j: nat)
    requires |s| == Size(w, h, c) && j < |s| && !IsInterior(w, h, c, j)
    ensures Blurred(s, w, h, c)[j] == s[j]
  {
    BlurUpToUnchanged(s, w, h, c, |s|, j);
  }

  /** An image narrower or shorter than three pixels has no interior and is left as it is. */
  lemma BlurredSmall(s: seq<Byte>, w: nat, h: nat, c: nat)
    requires |s| == Size(w, h, c) && (w < 3 || h < 3)
    ensures Blurred(s, w, h, c) == s
  {
    forall j | 0 <= j < |s|
      ensures Blurred(s, w, h, c)[j] == s[j]
    {
      BlurredBorder(s, w, h, c, j);
    }
  }

  /** An interior sample ends up as the stencil of its window as the pass found it. */
  lemma BlurredInterior(s: seq<Byte>, w: nat, h: nat, c: nat, i: nat)
    requires |s| == Size(w, h, c) && i < |s| && IsInterior(w, h, c, i)
    ensures Blurred(s, w, h, c)[i] == Stencil(Window(BlurUpTo(s, w, h, c, i), w, h, c, i))
  {
    BlurUpToStable(s, w, h, c, i + 1, |s|, i);
  }

  /**
   * Entry (ky, kx) of the window read for interior sample i is the neighbour
   * in the same channel; it is already blurred when it lies in the row above
   * or to the left, and still original otherwise.
   */
  lemma BlurWindow(s: seq<Byte>, w: nat, h: nat, c: nat, i: nat, ky: int, kx: int)
    requires |s| == Size(w, h, c) && i < |s| && IsInterior(w, h, c, i)
    requires -1 <= ky <= 1 && -1 <= kx <= 1
    ensures Neighbour(w, h, c, i, ky, kx) < |s|
    ensures Chan(c, Neighbour(w, h, c, i, ky, kx)) == Chan(c, i)
    ensures Window(BlurUpTo(s, w, h, c, i), w, h, c, i)[3 * (ky + 1) + (kx + 1)] ==
      if ky < 0 || (ky == 0 && kx < 0) then Blurred(s, w, h, c)[Neighbour(w, h, c, i, ky, kx)]
      else s[Neighbour(w, h, c, i, ky, kx)]
  {
    NeighbourInBounds(w, h, c, i, ky, kx);
    BlurUpToSplit(s, w, h, c, i, Neighbour(w, h, c, i, ky, kx));
  }

  /** Skipping a run of border samples leaves the pass's buffer as it was. */
  lemma {:induction false} BlurSkip(s: seq<Byte>, w: nat, h: nat, c: nat, lo: nat, hi: nat)
    requires |s| == Size(w, h, c) && lo <= hi <= |s|
    requires forall j :: lo <= j < hi ==> !IsInterior(w, h, c, j)
    ensures BlurUpTo(s, w, h, c, hi) == BlurUpTo(s, w, h, c, lo)
  {
    if hi > lo {
      BlurSkip(s, w, h, c, lo, hi - 1);
    }
  }

  /** The pixel number of sample i (row * w + column) lies in [p0, p1) when i lies in [p0*c, p1*c). */
  lemma PixelBetween(w: nat, h: nat, c: nat, i: nat, p0: nat, p1: nat)
    requires i < Size(w, h, c) && p0 * c <= i < p1 * c
    ensures w > 0 && c > 0
    ensures p0 <= i / c < p1
  {
    Decompose(w, h, c, i);
    var q := i / c;
    assert i == q * c + i % c;
    if q < p0 {
      MulMono(q + 1, p0, c);
      assert false;
    }
    if q >= p1 {
      MulMono(p1, q, c);
      assert false;
    }
  }

  /** The samples before pixel (1, 1) are border samples. */
  lemma StartIsBorder(w: nat, h: nat, c: nat, i: nat)
    requires i < Size(w, h, c) && i < At(w, c, 1, 1, 0)
    ensures !IsInterior(w, h, c, i)
  {
    PixelBetween(w, h, c, i, 0, w + 1);
  }

  /** The samples from pixel (y, w-1) up to pixel (y+1, 1) are border samples. */
  lemma RowEndIsBorder(w: nat, h: nat, c: nat, y: nat, i: nat)
    requires i < Size(w, h, c) && At(w, c, y, w - 1, 0) <= i < At(w, c, y + 1, 1, 0)
    requires w >= 1
    ensures !IsInterior(w, h, c, i)
  {
    PixelBetween(w, h, c, i, y * w + w - 1, (y + 1) * w + 1);
    var q := i / c;
    assert (y + 1) * w == y * w + w;
    if q == y * w + w - 1 {
      DivModUnique(y, w, w - 1);
    } else {
      DivModUnique(y + 1, w, 0);
    }
  }

  /** The samples from pixel (h-1, 1) on are border samples. */
  lemma LastRowIsBorder(w: nat, h: nat, c: nat, i: nat)
    requires h >= 1 && i < Size(w, h, c) && At(w, c, h - 1, 1, 0) <= i
    ensures !IsInterior(w, h, c, i)
  {
    PixelBetween(w, h, c, i, (h - 1) * w + 1, w * h + 1);
    if Row(w, c, i) + 2 <= h {
      MulMono(Row(w, c, i) + 1, h - 1, w);
    }
  }

  /** Pixel (y, x) and its successor start inside the buffer. */
  lemma PixelStartBound(w: nat, h: nat, c: nat, y: nat, x: nat)
    requires y < h && x < w
    ensures At(w, c, y, x, 0) + c <= Size(w, h, c)
    ensures At(w, c, y, x, c) == At(w, c, y, x, 0) + c == At(w, c, y, x + 1, 0)
  {
    MulMono(y * w + x + 1, h * w, c) by {
      MulMono(y + 1, h, w);
    }
  }

  /** The pass reaches pixel (1, 1) without writing anything. */
  lemma BlurStart(s: seq<Byte>, w: nat, h: nat, c: nat)
    requires |s| == Size(w, h, c) && w >= 3 && h >= 3
    ensures At(w, c, 1, 1, 0) <= |s| && BlurUpTo(s, w, h, c, At(w, c, 1, 1, 0)) == s
  {
    PixelStartBound(w, h, c, 1, 1);
    forall j | 0 <= j < At(w, c, 1, 1, 0)
      ensures !IsInterior(w, h, c, j)
    {
      StartIsBorder(w, h, c, j);
    }
    BlurSkip(s, w, h, c, 0, At(w, c, 1, 1, 0));
  }

  /** From pixel (y, w-1) the pass reaches pixel (y+1, 1) without writing anything. */
  lemma BlurRowEnd(s: seq<Byte>, w: nat, h: nat, c: nat, y: nat)
    requires |s| == Size(w, h, c) && w >= 3 && 1 <= y && y + 2 <= h
    ensures At(w, c, y, w - 1, 0) <= At(w, c, y + 1, 1, 0) <= |s|
    ensures BlurUpTo(s, w, h, c, At(w, c, y + 1, 1, 0)) == BlurUpTo(s, w, h, c, At(w, c, y, w - 1, 0))
  {
    PixelStartBound(w, h, c, y + 1, 1);
    PixelStartBound(w, h, c, y, w - 1);
    forall j | At(w, c, y, w - 1, 0) <= j < At(w, c, y + 1, 1, 0)
      ensures !IsInterior(w, h, c, j)
    {
      RowEndIsBorder(w, h, c, y, j);
    }
    BlurSkip(s, w, h, c, At(w, c, y, w - 1, 0), At(w, c, y + 1, 1, 0));
  }

  /** From pixel (h-1, 1) to the end the pass writes nothing. */
  lemma BlurLastRow(s: seq<Byte>, w: nat, h: nat, c: nat)
    requires |s| == Size(w, h, c) && w >= 3 && h >= 3
    ensures At(w, c, h - 1, 1, 0) <= |s|
    ensures Blurred(s, w, h, c) == BlurUpTo(s, w, h, c, At(w, c, h - 1, 1, 0))
  {
    PixelStartBound(w, h, c, h - 1, 1);
    forall j | At(w, c, h - 1, 1, 0) <= j < |s|
      ensures !IsInterior(w, h, c, j)
    {
      LastRowIsBorder(w, h, c, j);
    }
    BlurSkip(s, w, h, c, At(w, c, h - 1, 1, 0), |s|);
  }

  /**
   * The kernel loops of `image_blur` for sample (y, x, k): the nine samples of
   * channel k around pixel (y, x), row by row, as the buffer stands now.
   */
  method GatherWindow(a: array<Byte>, w: nat, h: nat, c: nat, y: nat, x: nat, k: nat) returns (window: seq<Byte>)
    requires a.Length == Size(w, h, c) && 1 <= y && y + 2 <= h && 1 <= x && x + 2 <= w && k < c
    ensures At(w, c, y, x, k) < a.Length && IsInterior(w, h, c, At(w, c, y, x, k))
    ensures window == Window(a[..], w, h, c, At(w, c, y, x, k))
  {
    var i := (y * w + x) * c + k;
    AtBounds(w, h, c, y, x, k);
    AtDecode(w, c, y, x, k);
    window := [];
    for ky := -1 to 2
      invariant window == Window(a[..], w, h, c, i)[..3 * (ky + 1)]
    {
      for kx := -1 to 2
        invariant window == Window(a[..], w, h, c, i)[..3 * (ky + 1) + (kx + 1)]
      {
        NeighbourInBounds(w, h, c, i, ky, kx);
        window := window + [a[((y + ky) * w + (x + kx)) * c + k]];
      }
    }
  }

  /**
   * The sequential loops of `image_blur`: for every interior pixel, row by
   * row, and every channel, gather the 3 × 3 window of the same channel from
   * the buffer as it stands and write the stencil back in place.
   */
  method BlurImage(a: array<Byte>, w: nat, h: nat, c: nat)
    requires a.Length == Size(w, h, c)
    modifies a
    ensures a[..] == Blurred(old(a[..]), w, h, c)
  {
    ghost var s := a[..];
    ghost var n := |s|;
    if w >= 3 && h >= 3 {
      BlurStart(s, w, h, c);
    }
    var y := 1;
    while y < h - 1
      invariant 1 <= y && (y <= h - 1 || y == 1)
      invariant w >= 3 && h >= 3 ==> At(w, c, y, 1, 0) <= n && a[..] == BlurUpTo(s, w, h, c, At(w, c, y, 1, 0))
      invariant !(w >= 3 && h >= 3) ==> a[..] == s
    {
      var x := 1;
      while x < w - 1
        invariant 1 <= x && (x <= w - 1 || x == 1)
        invariant w >= 3 ==> At(w, c, y, x, 0) <= n && a[..] == BlurUpTo(s, w, h, c, At(w, c, y, x, 0))
        invariant w < 3 ==> a[..] == s
      {
        PixelStartBound(w, h, c, y, x);
        for k := 0 to c
          invariant a[..] == BlurUpTo(s, w, h, c, At(w, c, y, x, k))
        {
          var window := GatherWindow(a, w, h, c, y, x, k);
          a[(y * w + x) * c + k] := Stencil(window);
          assert a[..] == BlurUpTo(s, w, h, c, At(w, c, y, x, k) + 1);
        }
        x := x + 1;
      }
      if w >= 3 {
        BlurRowEnd(s, w, h, c, y);
      }
      y := y + 1;
    }
    if w >= 3 && h >= 3 {
      BlurLastRow(s, w, h, c);
    } else {
      BlurredSmall(s, w, h, c);
    }
  }
}
