/**
 * `image_invert`: every sample s of the buffer becomes 255 - s, in place.
 */
module Invert {
  import opened Raster

  /** The negative of a buffer, sample by sample. */
  function Inverted(s: seq<Byte>): (r: seq<Byte>)
    ensures |r| == |s|
  {
    seq(|s|, i requires 0 <= i < |s| => 255 - s[i])
  }

  /** A sample and its negative always add up to 255. */
  lemma InvertedSum(s: seq<Byte>, i: nat)
    requires i < |s|
    ensures Inverted(s)[i] + s[i] == 255
  {
  }

  /** Inverting twice gives back the original buffer. */
  lemma InvertedTwice(s: seq<Byte>)
    ensures Inverted(Inverted(s)) == s
  {
    var r := Inverted(Inverted(s));
    forall i | 0 <= i < |s|
      ensures r[i] == s[i]
    {
      InvertedSum(s, i);
      InvertedSum(Inverted(s), i);
    }
  }

  /** The sequential loop of `image_invert` over all width × height × channels samples. */
  method InvertImage(a: array<Byte>, w: nat, h: nat, c: nat)
    requires a.Length == Size(w, h, c)
    modifies a
    ensures a[..] == Inverted(old(a[..]))
    ensures forall i :: 0 <= i < a.Length ==> a[i] == 255 - old(a[i])
  {
    var n := w * h * c;
    for i := 0 to n
      invariant forall m :: 0 <= m < i ==> a[m] == 255 - old(a[m])
      invariant forall m :: i <= m < n ==> a[m] == old(a[m])
    {
      a[i] := 255 - a[i];
    }
  }
}
