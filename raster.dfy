/**
 * The raster buffer shared by every transform: a flat, row-major sequence of
 * unsigned 8-bit samples, `channels` samples per pixel, `width` pixels per row,
 * `height` rows. This module holds the layout arithmetic (where a sample lives,
 * and which row, column and channel an index denotes) and its lemmas.
 */
module Raster {

  /** One `unsigned char` sample. */
  type Byte = b: int | 0 <= b < 256

  /** Number of samples in a w × h image with c samples per pixel. */
  function Size(w: nat, h: nat, c: nat): nat {
    w * h * c
  }

  /** Index of channel k of the pixel at row y, column x, in an image w pixels wide. */
  function At(w: nat, c: nat, y: nat, x: nat, k: nat): nat {
    (y * w + x) * c + k
  }

  /** Row of the sample at index i. */
  function Row(w: nat, c: nat, i: nat): nat
    requires w > 0 && c > 0
  {
    i / c / w
  }

  /** Column of the sample at index i. */
  function Col(w: nat, c: nat, i: nat): nat
    requires w > 0 && c > 0
  {
    i / c % w
  }

  /** Channel of the sample at index i. */
  function Chan(c: nat, i: nat): nat
    requires c > 0
  {
    i % c
  }

  /** Euclidean division undoes `q * c + k` when the remainder is in range. */
  lemma DivModUnique(q: int, c: int, k: int)
    requires 0 < c && 0 <= k < c
    ensures (q * c + k) / c == q
    ensures (q * c + k) % c == k
  {
    var i := q * c + k;
    var d, m := i / c, i % c;
    assert i == d * c + m && 0 <= m < c;
    assert (q - d) * c == m - k;
    if q > d {
      MulAtLeast(q - d, c);
    } else if q < d {
      MulAtLeast(d - q, c);
    }
  }

  /** A positive multiple of c is at least c. */
  lemma MulAtLeast(a: int, c: int)
    requires a >= 1 && c > 0
    ensures a * c >= c
  {
    assert a * c == (a - 1) * c + c;
  }

  /** Multiplying by a non-negative factor keeps a non-strict order. */
  lemma MulMono(a: int, b: int, c: int)
    requires a <= b && c >= 0
    ensures a * c <= b * c
  {
    assert b * c - a * c == (b - a) * c;
  }

  /** Every in-range coordinate names an in-range index. */
  lemma AtBounds(w: nat, h: nat, c: nat, y: nat, x: nat, k: nat)
    requires y < h && x < w && k < c
    ensures At(w, c, y, x, k) < Size(w, h, c)
  {
    var p := y * w + x;
    assert p + 1 <= h * w by {
      MulMono(y + 1, h, w);
    }
    MulMono(p + 1, h * w, c);
    assert At(w, c, y, x, k) < (p + 1) * c;
    assert (h * w) * c == Size(w, h, c);
  }

  /** Row, Col and Chan read back the coordinates At was given. */
  lemma AtDecode(w: nat, c: nat, y: nat, x: nat, k: nat)
    requires x < w && k < c
    ensures Row(w, c, At(w, c, y, x, k)) == y
    ensures Col(w, c, At(w, c, y, x, k)) == x
    ensures Chan(c, At(w, c, y, x, k)) == k
  {
    DivModUnique(y * w + x, c, k);
    DivModUnique(y, w, x);
  }

  /** Every in-range index is the At of its own row, column and channel, all in range. */
  lemma Decompose(w: nat, h: nat, c: nat, i: nat)
    requires i < Size(w, h, c)
    ensures w > 0 && h > 0 && c > 0
    ensures Row(w, c, i) < h && Col(w, c, i) < w && Chan(c, i) < c
    ensures i == At(w, c, Row(w, c, i), Col(w, c, i), Chan(c, i))
  {
    assert w > 0 && h > 0 && c > 0;
    var q := i / c;
    assert i == q * c + i % c;
    if q >= w * h {
      MulMono(w * h, q, c);
      assert false;
    }
    var y := q / w;
    assert q == y * w + q % w;
    if y >= h {
      MulMono(h, y, w);
      assert false;
    }
  }

  /** Two in-range coordinate triples with the same index are the same triple. */
  lemma AtInjective(w: nat, c: nat, y: nat, x: nat, k: nat, y': nat, x': nat, k': nat)
    requires x < w && k < c && x' < w && k' < c
    requires At(w, c, y, x, k) == At(w, c, y', x', k')
    ensures y == y' && x == x' && k == k'
  {
    AtDecode(w, c, y, x, k);
    AtDecode(w, c, y', x', k');
  }

  /** Moving ky rows and kx columns moves the index by (ky * w + kx) * c. */
  lemma AtShift(w: nat, c: nat, y: nat, x: nat, k: nat, ky: int, kx: int)
    requires y + ky >= 0 && x + kx >= 0
    ensures At(w, c, y + ky, x + kx, k) == At(w, c, y, x, k) + (ky * w + kx) * c
  {
    var p, d := y * w + x, ky * w + kx;
    assert (y + ky) * w + (x + kx) == p + d;
    assert (p + d) * c == p * c + d * c;
  }
}
