/**
 * `image_rotate_90`: a clockwise quarter turn. Every sample is written into a
 * scratch buffer at its turned position, and the scratch buffer is then copied
 * back over the whole image. The turned image is `height` pixels wide and
 * `width` pixels high; the function does not change the caller's dimensions.
 */
module Rotate {
  import opened Raster
  import opened Permutation

  /**
   * Where channel k of the pixel at row y, column x of a w × h image lands:
   * row x, column h - 1 - y, channel k of the turned image, which is h pixels
   * wide and w pixels high.
   */
  function RotatedIndex(w: nat, h: nat, c: nat, y: nat, x: nat, k: nat): (j: nat)
    requires y < h && x < w && k < c
    ensures j < Size(w, h, c)
    ensures Row(h, c, j) == x && Col(h, c, j) == h - 1 - y && Chan(c, j) == k
  {
    AtBounds(h, w, c, x, h - 1 - y, k);
    AtDecode(h, c, x, h - 1 - y, k);
    assert Size(h, w, c) == Size(w, h, c);
    At(h, c, x, h - 1 - y, k)
  }

  /** For sample j of the turned image, the index of the original sample it receives. */
  function SourceIndex(w: nat, h: nat, c: nat, j: nat): (i: nat)
    requires j < Size(w, h, c)
    ensures i < Size(w, h, c)
  {
    Decompose(h, w, c, j);
    var x, y := Row(h, c, j), h - 1 - Col(h, c, j);
    AtBounds(w, h, c, y, x, Chan(c, j));
    At(w, c, y, x, Chan(c, j))
  }

  /** The sample at index i of the original image, at its turned position. */
  function TargetIndex(w: nat, h: nat, c: nat, i: nat): (j: nat)
    requires i < Size(w, h, c)
    ensures j < Size(w, h, c)
  {
    Decompose(w, h, c, i);
    AtBounds(h, w, c, Col(w, c, i), h - 1 - Row(w, c, i), Chan(c, i));
    RotatedIndex(w, h, c, Row(w, c, i), Col(w, c, i), Chan(c, i))
  }

  /** The image turned a quarter clockwise, laid out h pixels wide and w pixels high. */
  function Rotated(s: seq<Byte>, w: nat, h: nat, c: nat): (r: seq<Byte>)
    requires |s| == Size(w, h, c)
    ensures |r| == |s|
  {
    seq(|s|, j requires 0 <= j < |s| => s[SourceIndex(w, h, c, j)])
  }

  /** The turned image holds the sample from (y, x, k) at its rotated index. */
  lemma RotatedAt(s: seq<Byte>, w: nat, h: nat, c: nat, y: nat, x: nat, k: nat)
    requires |s| == Size(w, h, c) && y < h && x < w && k < c
    ensures At(w, c, y, x, k) < |s| && RotatedIndex(w, h, c, y, x, k) < |s|
    ensures Rotated(s, w, h, c)[RotatedIndex(w, h, c, y, x, k)] == s[At(w, c, y, x, k)]
  {
    AtBounds(w, h, c, y, x, k);
  }

  /** Distinct samples go to distinct places. */
  lemma RotatedIndexInjective(w: nat, h: nat, c: nat, y: nat, x: nat, k: nat, y': nat, x': nat, k': nat)
    requires y < h && x < w && k < c && y' < h && x' < w && k' < c
    requires RotatedIndex(w, h, c, y, x, k) == RotatedIndex(w, h, c, y', x', k')
    ensures y == y' && x == x' && k == k'
  {
    AtInjective(h, c, x, h - 1 - y, k, x', h - 1 - y', k');
  }

  /** Every sample of the turned image receives some original sample. */
  lemma RotatedIndexOnto(w: nat, h: nat, c: nat, j: nat) returns (y: nat, x: nat, k: nat)
    requires j < Size(w, h, c)
    ensures y < h && x < w && k < c && RotatedIndex(w, h, c, y, x, k) == j
  {
    Decompose(h, w, c, j);
    y, x, k := h - 1 - Col(h, c, j), Row(h, c, j), Chan(c, j);
  }

  /** SourceIndex and TargetIndex undo each other. */
  lemma SourceTargetInverse(w: nat, h: nat, c: nat, i: nat, j: nat)
    requires i < Size(w, h, c) && j < Size(w, h, c)
    ensures SourceIndex(w, h, c, TargetIndex(w, h, c, i)) == i
    ensures TargetIndex(w, h, c, SourceIndex(w, h, c, j)) == j
  {
    Decompose(w, h, c, i);
    AtDecode(h, c, Col(w, c, i), h - 1 - Row(w, c, i), Chan(c, i));
    Decompose(h, w, c, j);
    AtDecode(w, c, h - 1 - Col(h, c, j), Row(h, c, j), Chan(c, j));
  }

  /** A quarter turn only moves samples: the result is a permutation of the input. */
  lemma RotatedPermutes(s: seq<Byte>, w: nat, h: nat, c: nat)
    requires |s| == Size(w, h, c)
    ensures multiset(Rotated(s, w, h, c)) == multiset(s)
  {
    var n := |s|;
    var p := seq(n, j requires 0 <= j < n => SourceIndex(w, h, c, j));
    var q := seq(n, i requires 0 <= i < n => TargetIndex(w, h, c, i));
    forall j | 0 <= j < n
      ensures q[p[j]] == j && p[q[j]] == j
    {
      SourceTargetInverse(w, h, c, j, j);
    }
    PermutedMultiset(Rotated(s, w, h, c), s, p, q);
  }

  /**
   * Four quarter turns restore the image, provided the caller swaps the
   * dimensions between turns: (w, h), (h, w), (w, h), (h, w).
   */
  lemma RotatedFourTimes(s: seq<Byte>, w: nat, h: nat, c: nat)
    requires |s| == Size(w, h, c)
    ensures Size(h, w, c) == |s|
    ensures Rotated(Rotated(Rotated(Rotated(s, w, h, c), h, w, c), w, h, c), h, w, c) == s
  {
    assert Size(h, w, c) == Size(w, h, c);
    var r1 := Rotated(s, w, h, c);
    var r2 := Rotated(r1, h, w, c);
    var r3 := Rotated(r2, w, h, c);
    var r4 := Rotated(r3, h, w, c);
    forall i | 0 <= i < |s|
      ensures r4[i] == s[i]
    {
      Decompose(w, h, c, i);
      var y, x, k := Row(w, c, i), Col(w, c, i), Chan(c, i);
      RotatedAt(r3, h, w, c, w - 1 - x, y, k);
      RotatedAt(r2, w, h, c, h - 1 - y, w - 1 - x, k);
      RotatedAt(r1, h, w, c, x, h - 1 - y, k);
      RotatedAt(s, w, h, c, y, x, k);
    }
  }

  /** The scratch buffer r already holds, at its rotated index, the sample (y, x, k) of s. */
  ghost predicate Placed(r: seq<Byte>, s: seq<Byte>, w: nat, h: nat, c: nat, y: nat, x: nat, k: nat)
    requires y < h && x < w && k < c
  {
    && RotatedIndex(w, h, c, y, x, k) < |r|
    && At(w, c, y, x, k) < |s|
    && r[RotatedIndex(w, h, c, y, x, k)] == s[At(w, c, y, x, k)]
  }

  /**
   * The sequential loops of `image_rotate_90`: fill a fresh scratch buffer
   * row by row at the rotated indices, then copy it over the image (the
   * `memcpy`).
   */
  method RotateImage(a: array<Byte>, w: nat, h: nat, c: nat)
    requires a.Length == Size(w, h, c)
    modifies a
    ensures a[..] == Rotated(old(a[..]), w, h, c)
  {
    var n := w * h * c;
    ghost var s := a[..];
    var rotated := new Byte[n];
    for y := 0 to h
      modifies rotated
      invariant forall yy, xx, kk :: 0 <= yy < y && 0 <= xx < w && 0 <= kk < c ==>
        Placed(rotated[..], s, w, h, c, yy, xx, kk)
    {
      for x := 0 to w
        modifies rotated
        invariant forall yy, xx, kk :: 0 <= yy < y && 0 <= xx < w && 0 <= kk < c ==>
          Placed(rotated[..], s, w, h, c, yy, xx, kk)
        invariant forall xx, kk :: 0 <= xx < x && 0 <= kk < c ==>
          Placed(rotated[..], s, w, h, c, y, xx, kk)
      {
        for k := 0 to c
          modifies rotated
          invariant forall yy, xx, kk :: 0 <= yy < y && 0 <= xx < w && 0 <= kk < c ==>
            Placed(rotated[..], s, w, h, c, yy, xx, kk)
          invariant forall xx, kk :: 0 <= xx < x && 0 <= kk < c ==>
            Placed(rotated[..], s, w, h, c, y, xx, kk)
          invariant forall kk :: 0 <= kk < k ==>
            Placed(rotated[..], s, w, h, c, y, x, kk)
        {
          AtBounds(w, h, c, y, x, k);
          assert RotatedIndex(w, h, c, y, x, k) == (x * h + (h - y - 1)) * c + k;
          ghost var before := rotated[..];
          rotated[(x * h + (h - y - 1)) * c + k] := a[(y * w + x) * c + k];
          forall yy, xx, kk | 0 <= yy < h && 0 <= xx < w && 0 <= kk < c && Placed(before, s, w, h, c, yy, xx, kk)
            ensures Placed(rotated[..], s, w, h, c, yy, xx, kk) || (yy, xx, kk) == (y, x, k)
          {
            if RotatedIndex(w, h, c, yy, xx, kk) == RotatedIndex(w, h, c, y, x, k) {
              RotatedIndexInjective(w, h, c, yy, xx, kk, y, x, k);
            }
          }
        }
      }
    }
    forall j | 0 <= j < n
      ensures rotated[j] == Rotated(s, w, h, c)[j]
    {
      var y, x, k := RotatedIndexOnto(w, h, c, j);
      assert Placed(rotated[..], s, w, h, c, y, x, k);
      RotatedAt(s, w, h, c, y, x, k);
    }
    forall i | 0 <= i < n {
      a[i] := rotated[i];
    }
  }
}
