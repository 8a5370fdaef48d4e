/** Rounding the corners of an RGBA image in place. */
module RoundedCorners {
  import opened Bytes
  import opened Colors

  function Sq(n: int): int {
    n * n
  }

  /** The four quadrant tests, first match wins: outside the circle of radius r around that corner's centre. */
  predicate IsInCorner(x: int, y: int, w: int, h: int, r: int) {
    if x < r && y < r then Sq(x - r) + Sq(y - r) > Sq(r)
    else if x > w - r && y < r then Sq(x - (w - r)) + Sq(y - r) > Sq(r)
    else if x < r && y > h - r then Sq(x - r) + Sq(y - (h - r)) > Sq(r)
    else if x > w - r && y > h - r then Sq(x - (w - r)) + Sq(y - (h - r)) > Sq(r)
    else false
  }

  /** For every size: too close to a vertical and to a horizontal edge, and past distance r of the corner's centre. */
  lemma CornerDistanceIff(x: int, y: int, w: int, h: int, r: int)
    ensures
      var dx := if x < r then r - x else if x > w - r then x - (w - r) else 0;
      var dy := if y < r then r - y else if y > h - r then y - (h - r) else 0;
      IsInCorner(x, y, w, h, r) <==> dx > 0 && dy > 0 && dx * dx + dy * dy > r * r
  {
    SqIs(x - r);
    SqIs(y - r);
    SqIs(x - (w - r));
    SqIs(y - (h - r));
    SqIs(r);
    hide Sq;
  }

  lemma SqIs(n: int)
    ensures Sq(n) == n * n == (-n) * (-n)
  {
  }

  ghost predicate IsSqrt(sqrt: real -> real) {
    forall a: real :: a >= 0.0 ==> sqrt(a) >= 0.0 && Mul(sqrt(a), sqrt(a)) == a
  }

  function Fade(dx: int, dy: int, r: int, sqrt: real -> real): (alpha: real)
    requires r > 0
    ensures 0.0 <= alpha <= 1.0
  {
    var a := 1.0 - sqrt((Sq(dx) + Sq(dy)) as real) / r as real;
    if a < 0.0 then 0.0 else if a > 1.0 then 1.0 else a
  }

  /** The alpha the source computes for a corner pixel. */
  function CornerAlpha(x: int, y: int, w: int, h: int, r: int, sqrt: real -> real): (alpha: real)
    requires r > 0
    ensures 0.0 <= alpha <= 1.0
  {
    if x < r && y < r then Fade(x - r, y - r, r, sqrt)
    else if x > w - r && y < r then Fade(x - (w - r), y - r, r, sqrt)
    else if x < r && y > h - r then Fade(x - r, y - (h - r), r, sqrt)
    else if x > w - r && y > h - r then Fade(x - (w - r), y - (h - r), r, sqrt)
    else 1.0
  }

  // ---------------------------------------------------------------------------
  // The alpha of a corner pixel is always zero
  // ---------------------------------------------------------------------------

  lemma MulMonotone(a: real, b: real)
    requires 0.0 <= a <= b
    ensures Mul(a, a) <= Mul(b, b)
  {
    assert Mul(a, a) <= Mul(a, b) <= Mul(b, b);
  }

  lemma RootExceeds(s: real, m: real)
    requires s >= 0.0 && m > 0.0 && Mul(s, s) > Mul(m, m)
    ensures s > m
  {
    hide Mul;
    if s <= m {
      MulMonotone(s, m);
    }
  }

  lemma SqAsReal(n: int)
    ensures Mul(n as real, n as real) == Sq(n) as real
  {
  }

  lemma QuotientAboveOne(s: real, m: real)
    requires s > m > 0.0
    ensures s / m > 1.0
  {
  }

  lemma FadesOut(dx: int, dy: int, r: int, sqrt: real -> real)
    requires r > 0 && IsSqrt(sqrt) && Sq(dx) + Sq(dy) > Sq(r)
    ensures Fade(dx, dy, r, sqrt) == 0.0
  {
    SqAsReal(r);
    assert Sq(r) >= 0;
    hide Mul, Sq;
    var s, m := sqrt((Sq(dx) + Sq(dy)) as real), r as real;
    RootExceeds(s, m);
    QuotientAboveOne(s, m);
  }

  lemma CornerAlphaIsZero(x: int, y: int, w: int, h: int, r: int, sqrt: real -> real)
    requires r > 0 && IsSqrt(sqrt) && IsInCorner(x, y, w, h, r)
    ensures CornerAlpha(x, y, w, h, r, sqrt) == 0.0
  {
    hide Sq, Fade;
    if x < r && y < r {
      FadesOut(x - r, y - r, r, sqrt);
    } else if x > w - r && y < r {
      FadesOut(x - (w - r), y - r, r, sqrt);
    } else if x < r && y > h - r {
      FadesOut(x - r, y - (h - r), r, sqrt);
    } else {
      FadesOut(x - (w - r), y - (h - r), r, sqrt);
    }
  }

  lemma CornerNeedsRadius(x: int, y: int, w: int, h: int, r: int)
    requires 0 <= x < w && 0 <= y < h && IsInCorner(x, y, w, h, r)
    ensures r > 0
  {
    hide Sq;
  }

  // ---------------------------------------------------------------------------
  // The pass over the image
  // ---------------------------------------------------------------------------

  /** Byte `i` is the alpha byte of a corner pixel. */
  predicate IsCornerAlpha(i: nat, w: int, h: int, r: int) {
    w > 0 && i % 4 == 3 && i / 4 < w * h && IsInCorner(i / 4 % w, i / 4 / w, w, h, r)
  }

  /** The image afterwards: alpha zero on exactly the corner pixels, every other byte as before. */
  function Rounded(data: seq<byte>, w: int, h: int, r: int): (d: seq<byte>)
    ensures |d| == |data|
  {
    seq(|data|, i requires 0 <= i < |data| => if IsCornerAlpha(i, w, h, r) then 0 else data[i])
  }

  lemma PixelIndex(x: int, y: int, w: int, h: int)
    requires 0 <= x < w && 0 <= y < h
    ensures var p := y * w + x;
            0 <= p < w * h && p % w == x && p / w == y
  {
    assert y * w + x <= (h - 1) * w + x < h * w;
    var p := y * w + x;
    assert (p / w - y) * w == x - p % w;
    QuotientUnique(p / w - y, w, x - p % w);
  }

  lemma QuotientUnique(q: int, w: int, d: int)
    requires w > 0 && q * w == d && -w < d < w
    ensures q == 0 && d == 0
  {
    if q >= 1 {
      AtLeast(q, w);
    } else if q <= -1 {
      AtLeast(-q, w);
    }
  }

  lemma AtLeast(q: int, w: int)
    requires q >= 1 && w > 0
    ensures q * w >= w
  {
  }

  /** The pixels before `p` are done, the others untouched. */
  ghost predicate DoneUpTo(d: seq<byte>, before: seq<byte>, w: int, h: int, r: int, p: int) {
    && |d| == |before|
    && forall i :: 0 <= i < |d| ==> d[i] == if i / 4 < p && IsCornerAlpha(i, w, h, r) then 0 else before[i]
  }

  lemma DoneNext(d: seq<byte>, before: seq<byte>, w: int, h: int, r: int, x: int, y: int)
    requires 0 <= x < w && 0 <= y < h && 4 * (w * h) <= |d| && DoneUpTo(d, before, w, h, r, y * w + x)
    ensures var p := y * w + x; 0 <= p && 4 * p + 3 < |d|
    ensures var p := y * w + x;
            var next := if IsInCorner(x, y, w, h, r) then d[4 * p + 3 := 0] else d;
            DoneUpTo(next, before, w, h, r, p + 1)
  {
    PixelIndex(x, y, w, h);
    hide IsInCorner;
  }

  lemma DoneAll(d: seq<byte>, before: seq<byte>, w: int, h: int, r: int)
    requires DoneUpTo(d, before, w, h, r, h * w)
    ensures d == Rounded(before, w, h, r)
  {
    hide IsInCorner;
    assert h * w == w * h;
  }

  method AddRoundedCorners(data: array<byte>, w: int, h: int, r: int, sqrt: real -> real)
    requires w > 0 && h > 0 ==> 4 * (w * h) <= data.Length
    requires IsSqrt(sqrt)
    modifies data
    ensures data[..] == Rounded(old(data[..]), w, h, r)
  {
    hide IsInCorner, IsSqrt, DoneUpTo, Rounded, CornerAlpha;
    ghost var before := data[..];
    if w <= 0 || h <= 0 {
      NothingToRound(before, w, h, r);
      return;
    }
    NothingDone(before, w, h, r);
    for y := 0 to h
      invariant DoneUpTo(data[..], before, w, h, r, y * w)
    {
      for x := 0 to w
        invariant DoneUpTo(data[..], before, w, h, r, y * w + x)
      {
        DoneNext(data[..], before, w, h, r, x, y);
        if IsInCorner(x, y, w, h, r) {
          CornerNeedsRadius(x, y, w, h, r);
          var alpha := CornerAlpha(x, y, w, h, r, sqrt);
          CornerAlphaIsZero(x, y, w, h, r, sqrt);
          var idx := (y * w + x) * 4;
          data[idx + 3] := (alpha * 255.0).Floor as byte;
        }
      }
      assert (y + 1) * w == y * w + w;
    }
    DoneAll(data[..], before, w, h, r);
  }

  lemma NothingDone(d: seq<byte>, w: int, h: int, r: int)
    ensures DoneUpTo(d, d, w, h, r, 0)
  {
  }

  lemma NothingToRound(data: seq<byte>, w: int, h: int, r: int)
    requires w <= 0 || h <= 0
    ensures Rounded(data, w, h, r) == data
  {
    if w > 0 {
      assert w * h <= 0;
    }
  }

  /** Of the pixel in column x of row y, the alpha byte is cleared if it lies in a corner; its colour stays. */
  lemma RoundedPixel(data: seq<byte>, w: int, h: int, r: int, x: int, y: int, k: nat)
    requires 0 <= x < w && 0 <= y < h && 4 * (w * h) <= |data| && k < 4
    ensures var i := 4 * (y * w + x) + k;
            && 0 <= i < |data|
            && Rounded(data, w, h, r)[i] == if k == 3 && IsInCorner(x, y, w, h, r) then 0 else data[i]
  {
    var p := y * w + x;
    PixelIndex(x, y, w, h);
    hide IsInCorner, IsCornerAlpha;
    AlphaOfPixel(p, k, w, h, r);
  }

  lemma AlphaOfPixel(p: nat, k: nat, w: int, h: int, r: int)
    requires k < 4 && 0 < w && p < w * h
    ensures IsCornerAlpha(4 * p + k, w, h, r) <==> k == 3 && IsInCorner(p % w, p / w, w, h, r)
  {
    hide IsInCorner;
    assert (4 * p + k) / 4 == p;
  }

  /** Bytes past the image stay, and nothing moves. */
  lemma RoundedTail(data: seq<byte>, w: int, h: int, r: int)
    requires 0 <= 4 * (w * h) <= |data|
    ensures |Rounded(data, w, h, r)| == |data|
    ensures Rounded(data, w, h, r)[4 * (w * h)..] == data[4 * (w * h)..]
  {
    hide IsInCorner;
  }

  /** A second pass changes nothing. */
  lemma RoundedIdempotent(data: seq<byte>, w: int, h: int, r: int)
    ensures Rounded(Rounded(data, w, h, r), w, h, r) == Rounded(data, w, h, r)
  {
  }

  // ---------------------------------------------------------------------------
  // The shape that is left
  // ---------------------------------------------------------------------------

  lemma FartherOut(a: int, b: int)
    requires 0 <= a <= b || b <= a <= 0
    ensures Sq(a) <= Sq(b)
  {
    if 0 <= a {
      assert a * a <= a * b <= b * b;
    } else {
      assert (-a) * (-a) <= (-a) * (-b) <= (-b) * (-b);
    }
  }

  /** Between two pixels of a row that stay, every pixel stays. */
  lemma RowConvex(x1: int, x2: int, x3: int, y: int, w: int, h: int, r: int)
    requires x1 <= x2 <= x3
    requires !IsInCorner(x1, y, w, h, r) && !IsInCorner(x3, y, w, h, r)
    ensures !IsInCorner(x2, y, w, h, r)
  {
    if x2 < r {
      FartherOut(x2 - r, x1 - r);
    } else if x2 > w - r {
      FartherOut(x2 - (w - r), x3 - (w - r));
    }
    hide Sq;
  }

  /** In every row the pixels left untouched are one interval; it spans the middle when r fits twice. */
  lemma {:induction false} RowInterval(y: int, w: nat, h: int, r: int, n: nat) returns (lo: nat, hi: nat)
    requires n <= w
    ensures lo <= hi <= n
    ensures forall x :: 0 <= x < n ==> (!IsInCorner(x, y, w, h, r) <==> lo <= x < hi)
    ensures n == w && 0 < r && 2 * r <= w ==> lo <= r <= w - r < hi
  {
    hide IsInCorner;
    if n == 0 {
      lo, hi := 0, 0;
    } else {
      lo, hi := RowInterval(y, w, h, r, n - 1);
      if !IsInCorner(n - 1, y, w, h, r) {
        if lo == hi {
          lo, hi := n - 1, n;
        } else {
          if hi < n - 1 {
            RowConvex(lo, hi, n - 1, y, w, h, r);
            assert false;
          }
          hi := n;
        }
      }
    }
    if n == w && 0 < r && 2 * r <= w {
      MiddleStays(r, y, w, h, r);
      MiddleStays(w - r, y, w, h, r);
    }
  }

  lemma MiddleStays(x: int, y: int, w: int, h: int, r: int)
    requires r <= x <= w - r
    ensures !IsInCorner(x, y, w, h, r)
  {
    hide Sq;
  }

  /** Within distance r of some point of the inner rectangle [r, w - r] x [r, h - r]. */
  ghost predicate NearInner(x: int, y: int, w: int, h: int, r: int) {
    exists cx: int, cy: int :: InInner(cx, cy, w, h, r) && Sq(x - cx) + Sq(y - cy) <= Sq(r)
  }

  predicate InInner(cx: int, cy: int, w: int, h: int, r: int) {
    r <= cx <= w - r && r <= cy <= h - r
  }

  function Clamp(v: int, lo: int, hi: int): int {
    if v < lo then lo else if v > hi then hi else v
  }

  /** What stays is the rounded rectangle: exactly the pixels within r of the inner rectangle. */
  lemma RoundedRectangleIff(x: int, y: int, w: int, h: int, r: int)
    requires 0 <= x < w && 0 <= y < h && 0 < r && 2 * r <= w && 2 * r <= h
    ensures !IsInCorner(x, y, w, h, r) <==> NearInner(x, y, w, h, r)
  {
    var cx, cy := Clamp(x, r, w - r), Clamp(y, r, h - r);
    ClampClose(x, r, w - r);
    ClampClose(y, r, h - r);
    if !IsInCorner(x, y, w, h, r) {
      assert Sq(0) == 0;
      hide Sq;
      assert InInner(cx, cy, w, h, r) && Sq(x - cx) + Sq(y - cy) <= Sq(r);
    } else if px: int, py: int :| InInner(px, py, w, h, r) && Sq(x - px) + Sq(y - py) <= Sq(r) {
      ClampNearest(x, r, w - r, px);
      ClampNearest(y, r, h - r, py);
      hide Sq;
    }
  }

  lemma ClampClose(v: int, r: int, hi: int)
    requires 0 <= v < hi + r && 0 < r <= hi
    ensures Sq(v - Clamp(v, r, hi)) <= Sq(r)
  {
    var d := v - Clamp(v, r, hi);
    if d < 0 {
      FartherOut(d, -r);
      assert Sq(-r) == Sq(r);
    } else {
      FartherOut(d, r);
    }
  }

  lemma ClampNearest(v: int, lo: int, hi: int, p: int)
    requires lo <= p <= hi
    ensures Sq(v - Clamp(v, lo, hi)) <= Sq(v - p)
  {
    if v < lo || v > hi {
      FartherOut(v - Clamp(v, lo, hi), v - p);
    } else {
      assert Sq(v - p) >= 0 && Sq(0) == 0;
    }
  }
}
