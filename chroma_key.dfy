/**
 * The chroma-key transparency pass of `ImageProcessor.removeBackground`.
 *
 * A pixel buffer is the flat RGBA byte sequence of a canvas `ImageData`:
 * pixel p occupies indices 4p (red), 4p+1 (green), 4p+2 (blue), 4p+3 (alpha).
 * The reference colour is the RGB of pixel 0; every pixel whose Euclidean RGB
 * distance to it is strictly below `tolerance * 2.55` gets alpha 0.
 */
module ChromaKey {

  /** The value range of the tolerance slider. */
  type Tolerance = t: int | 0 <= t <= 100

  datatype Rgb = Rgb(r: int, g: int, b: int)

  /** `Math.pow(x, 2)` on an integer. */
  function Square(x: int): (y: int)
    ensures y >= 0
    ensures y == 0 <==> x == 0
  {
    x * x
  }

  /** Squared Euclidean distance between two colours. */
  function SquaredDistance(p: Rgb, q: Rgb): (d: int)
    ensures d >= 0
    ensures d == 0 <==> p == q
  {
    Square(p.r - q.r) + Square(p.g - q.g) + Square(p.b - q.b)
  }

  /**
   * `Math.sqrt(d) < tolerance * 2.55`, stated on integers: for t >= 0 both
   * sides are non-negative, so the test is `d < (51 t / 20)^2`, that is
   * `400 d < 2601 t^2`.
   */
  predicate IsBackground(d: int, t: Tolerance)
    ensures d >= 0 && t == 0 ==> !IsBackground(d, t)
    ensures d == 0 && t > 0 ==> IsBackground(d, t)
  {
    400 * d < 2601 * t * t
  }

  /** The colour of pixel p of buffer s. */
  function PixelColour(s: seq<int>, p: nat): Rgb
    requires 4 * p + 3 <= |s|
  {
    Rgb(s[4 * p], s[4 * p + 1], s[4 * p + 2])
  }

  /** The reference colour: the RGB of the top-left pixel, bytes 0..2. */
  function Reference(s: seq<int>): (r: Rgb)
    requires |s| >= 4
    ensures r == PixelColour(s, 0)
    ensures forall t: Tolerance :: Clears(s, r, t, 0) <==> t > 0
  {
    Rgb(s[0], s[1], s[2])
  }

  /** Whether pixel p of s is close enough to bg to be made transparent. */
  predicate Clears(s: seq<int>, bg: Rgb, t: Tolerance, p: nat)
    requires 4 * p + 3 <= |s|
  {
    IsBackground(SquaredDistance(PixelColour(s, p), bg), t)
  }

  /** One iteration of the pixel loop on the four bytes of one pixel. */
  function KeyPixel(px: seq<int>, bg: Rgb, t: Tolerance): (q: seq<int>)
    requires |px| == 4
    ensures |q| == 4 && q[0] == px[0] && q[1] == px[1] && q[2] == px[2]
    ensures q[3] == 0 || q[3] == px[3]
    ensures px[3] != 0 ==>
      (q[3] == 0 <==> IsBackground(SquaredDistance(Rgb(px[0], px[1], px[2]), bg), t))
  {
    if IsBackground(SquaredDistance(Rgb(px[0], px[1], px[2]), bg), t) then px[3 := 0] else px
  }

  /** The pixel loop applied to every pixel of s with a fixed reference colour. */
  function Keyed(s: seq<int>, bg: Rgb, t: Tolerance): (r: seq<int>)
    requires |s| % 4 == 0
    ensures |r| == |s|
    decreases |s|
  {
    if s == [] then [] else KeyPixel(s[..4], bg, t) + Keyed(s[4..], bg, t)
  }

  /** The whole pass: reference colour taken from s itself, then the pixel loop. */
  function RemoveBackground(s: seq<int>, t: Tolerance): (r: seq<int>)
    requires |s| % 4 == 0
    ensures |r| == |s|
  {
    if s == [] then [] else Keyed(s, Reference(s), t)
  }

  // ---------------------------------------------------------------------
  // The in-place loop of removeBackground
  // ---------------------------------------------------------------------

  /**
   * The loop over the `ImageData` bytes, in steps of 4, zeroing the alpha byte
   * of every background pixel. `getImageData` never returns an empty buffer.
   */
  method RemoveBackgroundInPlace(data: array<int>, tolerance: Tolerance)
    requires data.Length % 4 == 0 && data.Length > 0
    modifies data
    ensures data[..] == RemoveBackground(old(data[..]), tolerance)
  {
    ghost var s := data[..];
    var bg := Rgb(data[0], data[1], data[2]);
    var i := 0;
    while i < data.Length
      invariant 0 <= i <= data.Length && i % 4 == 0
      invariant data[..i] == Keyed(s[..i], bg, tolerance)
      invariant data[i..] == s[i..]
    {
      ghost var pre := data[..];
      var d := SquaredDistance(Rgb(data[i], data[i + 1], data[i + 2]), bg);
      if IsBackground(d, tolerance) {
        data[i + 3] := 0;
        assert data[..] == pre[i + 3 := 0];
      }
      LoopStep(s, pre, data[..], bg, tolerance, i);
      NextPixelStart(i);
      i := i + 4;
    }
    assert data[..] == data[..i];
    assert s == s[..i];
  }

  /** The loop index stays at the start of a pixel. */
  lemma NextPixelStart(i: int)
    requires i % 4 == 0
    ensures (i + 4) % 4 == 0
  {
  }

  /** One turn of the loop of RemoveBackgroundInPlace keeps its invariant. */
  lemma LoopStep(s: seq<int>, pre: seq<int>, post: seq<int>, bg: Rgb, t: Tolerance, i: nat)
    requires |s| == |pre| && i % 4 == 0 && i + 4 <= |s|
    requires pre[..i] == Keyed(s[..i], bg, t) && pre[i..] == s[i..]
    requires post == if IsBackground(SquaredDistance(Rgb(pre[i], pre[i + 1], pre[i + 2]), bg), t)
      then pre[i + 3 := 0] else pre
    ensures post[..i + 4] == Keyed(s[..i + 4], bg, t) && post[i + 4..] == s[i + 4..]
  {
    PixelWritten(pre, post, bg, t, i);
    assert pre[i..i + 4] == s[i..i + 4] by {
      assert pre[i..i + 4] == pre[i..][..4];
      assert s[i..i + 4] == s[i..][..4];
    }
    assert post[i + 4..] == s[i + 4..] by {
      assert pre[i + 4..] == pre[i..][4..];
      assert s[i + 4..] == s[i..][4..];
    }
    assert post[..i + 4] == post[..i] + post[i..i + 4];
    KeyedStep(s, bg, t, i);
  }

  /** The write of one loop turn touches only the four bytes of pixel i / 4. */
  lemma PixelWritten(pre: seq<int>, post: seq<int>, bg: Rgb, t: Tolerance, i: nat)
    requires i + 4 <= |pre|
    requires post == if IsBackground(SquaredDistance(Rgb(pre[i], pre[i + 1], pre[i + 2]), bg), t)
      then pre[i + 3 := 0] else pre
    ensures post[..i] == pre[..i] && post[i + 4..] == pre[i + 4..]
    ensures post[i..i + 4] == KeyPixel(pre[i..i + 4], bg, t)
  {
    var px := pre[i..i + 4];
    assert Rgb(px[0], px[1], px[2]) == Rgb(pre[i], pre[i + 1], pre[i + 2]);
    if IsBackground(SquaredDistance(Rgb(pre[i], pre[i + 1], pre[i + 2]), bg), t) {
      assert post[i..i + 4] == px[3 := 0];
    } else {
      assert post[i..i + 4] == px;
    }
  }

  // ---------------------------------------------------------------------
  // Lemmas about Keyed
  // ---------------------------------------------------------------------

  /** Keying distributes over concatenation of whole pixels. */
  lemma {:induction false} KeyedAppend(x: seq<int>, y: seq<int>, bg: Rgb, t: Tolerance)
    requires |x| % 4 == 0 && |y| % 4 == 0
    ensures Keyed(x + y, bg, t) == Keyed(x, bg, t) + Keyed(y, bg, t)
    decreases |x|
  {
    if x == [] {
      assert x + y == y;
    } else {
      assert (x + y)[..4] == x[..4];
      assert (x + y)[4..] == x[4..] + y;
      KeyedAppend(x[4..], y, bg, t);
    }
  }

  /** Extending the processed prefix by one pixel. */
  lemma KeyedStep(s: seq<int>, bg: Rgb, t: Tolerance, i: nat)
    requires i % 4 == 0 && i + 4 <= |s|
    ensures Keyed(s[..i + 4], bg, t) == Keyed(s[..i], bg, t) + KeyPixel(s[i..i + 4], bg, t)
  {
    assert s[..i + 4] == s[..i] + s[i..i + 4];
    KeyedAppend(s[..i], s[i..i + 4], bg, t);
    var px := s[i..i + 4];
    assert px[4..] == [];
    assert px[..4] == px;
  }

  /** Pixel p of a keyed buffer: colour kept, alpha zeroed exactly when the pixel is close to bg. */
  lemma {:induction false} KeyedPixelAt(s: seq<int>, bg: Rgb, t: Tolerance, p: nat)
    requires |s| % 4 == 0 && 4 * p + 4 <= |s|
    ensures PixelColour(Keyed(s, bg, t), p) == PixelColour(s, p)
    ensures Keyed(s, bg, t)[4 * p + 3] == if Clears(s, bg, t, p) then 0 else s[4 * p + 3]
    decreases p
  {
    if p > 0 {
      KeyedPixelAt(s[4..], bg, t, p - 1);
      assert PixelColour(s[4..], p - 1) == PixelColour(s, p);
    }
  }

  // ---------------------------------------------------------------------
  // Properties of the pass
  // ---------------------------------------------------------------------

  /**
   * The pass on one pixel: its red, green and blue bytes are kept, and its
   * alpha byte becomes 0 exactly when its squared distance to bytes 0..2 is
   * below the threshold; otherwise the alpha keeps its old value.
   */
  lemma RemoveBackgroundPixel(s: seq<int>, t: Tolerance, p: nat)
    requires |s| % 4 == 0 && 4 * p + 4 <= |s|
    ensures |RemoveBackground(s, t)| == |s|
    ensures PixelColour(RemoveBackground(s, t), p) == PixelColour(s, p)
    ensures RemoveBackground(s, t)[4 * p + 3] ==
      if 400 * SquaredDistance(PixelColour(s, p), Reference(s)) < 2601 * t * t then 0 else s[4 * p + 3]
  {
    KeyedPixelAt(s, Reference(s), t, p);
  }

  /** The same, byte by byte: byte k is kept unless it is a background pixel's alpha. */
  lemma RemoveBackgroundAt(s: seq<int>, t: Tolerance, k: nat)
    requires |s| % 4 == 0 && k < |s|
    ensures |RemoveBackground(s, t)| == |s|
    ensures RemoveBackground(s, t)[k] ==
      if k % 4 == 3 && Clears(s, Reference(s), t, k / 4) then 0 else s[k]
  {
    var p, c := k / 4, k % 4;
    assert k == 4 * p + c && 0 <= c < 4;
    RemoveBackgroundPixel(s, t, p);
  }

  /** Only alpha bytes change. */
  lemma RemoveBackgroundKeepsColour(s: seq<int>, t: Tolerance)
    requires |s| % 4 == 0
    ensures |RemoveBackground(s, t)| == |s|
    ensures forall k :: 0 <= k < |s| && k % 4 != 3 ==> RemoveBackground(s, t)[k] == s[k]
  {
    forall k | 0 <= k < |s| && k % 4 != 3
      ensures RemoveBackground(s, t)[k] == s[k]
    {
      RemoveBackgroundAt(s, t, k);
    }
  }

  /** The reference colour, bytes 0..2, is never rewritten. */
  lemma RemoveBackgroundKeepsReference(s: seq<int>, t: Tolerance)
    requires |s| % 4 == 0 && |s| > 0
    ensures Reference(RemoveBackground(s, t)) == Reference(s)
  {
    RemoveBackgroundAt(s, t, 0);
    RemoveBackgroundAt(s, t, 1);
    RemoveBackgroundAt(s, t, 2);
  }

  /** With tolerance 0 the strict `<` holds for no pixel: the buffer is unchanged. */
  lemma ZeroToleranceKeepsBuffer(s: seq<int>)
    requires |s| % 4 == 0
    ensures RemoveBackground(s, 0) == s
  {
    forall k | 0 <= k < |s|
      ensures RemoveBackground(s, 0)[k] == s[k]
    {
      RemoveBackgroundAt(s, 0, k);
    }
  }

  /** Any tolerance of at least 1 makes the top-left pixel transparent (distance 0). */
  lemma PositiveToleranceClearsFirstPixel(s: seq<int>, t: Tolerance)
    requires |s| % 4 == 0 && |s| > 0 && t >= 1
    ensures RemoveBackground(s, t)[3] == 0
  {
    RemoveBackgroundAt(s, t, 3);
    assert PixelColour(s, 0) == Reference(s);
  }

  /** A larger tolerance makes a superset of pixels transparent. */
  lemma LargerToleranceClearsMore(s: seq<int>, t1: Tolerance, t2: Tolerance)
    requires |s| % 4 == 0 && t1 <= t2
    ensures forall k :: 0 <= k < |s| && k % 4 == 3 && RemoveBackground(s, t1)[k] == 0 ==>
      RemoveBackground(s, t2)[k] == 0
  {
    forall k | 0 <= k < |s| && k % 4 == 3 && RemoveBackground(s, t1)[k] == 0
      ensures RemoveBackground(s, t2)[k] == 0
    {
      RemoveBackgroundAt(s, t1, k);
      RemoveBackgroundAt(s, t2, k);
      ThresholdMonotone(SquaredDistance(PixelColour(s, k / 4), Reference(s)), t1, t2);
    }
  }

  /** The threshold grows with the tolerance. */
  lemma ThresholdMonotone(d: int, t1: Tolerance, t2: Tolerance)
    requires t1 <= t2
    ensures IsBackground(d, t1) ==> IsBackground(d, t2)
  {
    assert t1 * t1 <= t1 * t2;
    assert t1 * t2 <= t2 * t2;
  }

  /** Applying the pass twice with the same tolerance is the same as applying it once. */
  lemma RemoveBackgroundIdempotent(s: seq<int>, t: Tolerance)
    requires |s| % 4 == 0
    ensures RemoveBackground(RemoveBackground(s, t), t) == RemoveBackground(s, t)
  {
    var r := RemoveBackground(s, t);
    if s != [] {
      forall k | 0 <= k < |s|
        ensures RemoveBackground(r, t)[k] == r[k]
      {
        IdempotentAt(s, t, k);
      }
    }
  }

  /** Byte k is the same after one pass and after two. */
  lemma IdempotentAt(s: seq<int>, t: Tolerance, k: nat)
    requires |s| % 4 == 0 && k < |s|
    ensures RemoveBackground(RemoveBackground(s, t), t)[k] == RemoveBackground(s, t)[k]
  {
    var r := RemoveBackground(s, t);
    var p := k / 4;
    RemoveBackgroundKeepsReference(s, t);
    RemoveBackgroundAt(r, t, k);
    if k % 4 == 3 {
      RemoveBackgroundPixel(s, t, p);
      RemoveBackgroundAt(s, t, k);
    }
  }

  /**
   * At the top of the slider (t = 100, threshold 255) a pixel is cleared
   * exactly when its distance to the reference is below 255.
   */
  lemma FullToleranceThreshold(s: seq<int>, k: nat)
    requires |s| % 4 == 0 && k < |s| && k % 4 == 3
    ensures RemoveBackground(s, 100)[k] ==
      if SquaredDistance(PixelColour(s, k / 4), Reference(s)) < 255 * 255 then 0 else s[k]
  {
    RemoveBackgroundAt(s, 100, k);
  }

  // ---------------------------------------------------------------------
  // The integer test against the source's real-valued comparison
  // ---------------------------------------------------------------------

  lemma ProductPositive(x: real, y: real)
    requires x > 0.0 && y > 0.0
    ensures x * y > 0.0
  {
  }

  lemma SquareMonotone(a: real, b: real)
    requires a >= 0.0 && b >= 0.0
    ensures a < b <==> a * a < b * b
  {
    if a < b {
      ProductPositive(b - a, b + a);
      assert b * b - a * a == (b - a) * (b + a);
    } else if a > b {
      ProductPositive(a - b, a + b);
      assert a * a - b * b == (a - b) * (a + b);
    }
  }

  /**
   * For any non-negative `distance` whose square is the integer d, the
   * integer test `IsBackground(d, t)` agrees with `distance < t * 2.55` in
   * exact real arithmetic.
   */
  lemma IsBackgroundMeansBelowThreshold(d: int, t: Tolerance, distance: real)
    requires distance >= 0.0 && distance * distance == d as real
    ensures IsBackground(d, t) <==> distance < (t as real) * 2.55
  {
    var threshold := (t as real) * 2.55;
    SquareMonotone(distance, threshold);
    assert threshold * threshold == (t * t) as real * 2.55 * 2.55;
    assert 400.0 * (threshold * threshold) == (2601 * t * t) as real;
  }
}
