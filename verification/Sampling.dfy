/** Subsampling of a pixel buffer. */
module Sampling {
  import opened Bytes
  import opened Colors

  /** Every `step`-th pixel is read. */
  function Step(total: int, maxSamples: int): (step: int)
    requires total > 0 && maxSamples > 0
    ensures step >= 1
  {
    if total <= maxSamples then 1 else total / maxSamples
  }

  /** The size the source reserves before the loop. */
  function Reserved(total: int, step: int): int
    requires step >= 1
  {
    (total + step - 1) / step
  }

  /** How many samples a buffer of `total` pixels gives. */
  function SampleCount(total: int, maxSamples: int): (n: nat)
    requires total > 0 && maxSamples > 0
    ensures n >= 1
  {
    Reserved(total, Step(total, maxSamples))
  }

  lemma ReservedBounds(total: int, step: int)
    requires total > 0 && step >= 1
    ensures (Reserved(total, step) - 1) * step < total <= Reserved(total, step) * step
  {
    var n := Reserved(total, step);
    assert n * step <= total + step - 1 < (n + 1) * step;
  }

  lemma ScaleUp(a: int, b: int, q: int)
    requires a <= b && q >= 0
    ensures a * q <= b * q
  {
  }

  lemma CancelLess(a: int, b: int, q: int)
    requires q > 0 && a * q < b * q
    ensures a < b
  {
  }

  /**
   * How far the count may stray from `maxSamples`: all pixels when there are few enough, otherwise at
   * least `maxSamples` but less than twice as many, and within the maximum only when it divides the total.
   */
  lemma CountBounds(total: int, max: int)
    requires total > 0 && max > 0
    ensures total <= max ==> SampleCount(total, max) == total
    ensures total > max ==> max <= SampleCount(total, max) <= 2 * max - 1
    ensures SampleCount(total, max) <= max <==> total <= max || total % max == 0
  {
    if total > max {
      var q, r := total / max, total % max;
      ReservedBounds(total, q);
      CeilingBounds(max, q, r, SampleCount(total, max));
    }
  }

  lemma CeilingBounds(max: int, q: int, r: int, n: int)
    requires q >= 1 && 0 <= r < max && (n - 1) * q < max * q + r <= n * q
    ensures max <= n <= 2 * max - 1
    ensures n <= max <==> r == 0
  {
    assert (max - 1) * q == max * q - q;
    CancelLess(max - 1, n, q);
    assert (2 * max - 1) * q == max * q + (max - 1) * q && (max - 1) * q >= max - 1;
    CancelLess(n - 1, 2 * max - 1, q);
    if r == 0 {
      CancelLess(n - 1, max, q);
    } else {
      CancelLess(max, n, q);
    }
  }

  /** A 300 x 300 cover and a maximum of 2048 give 2094 samples. */
  lemma CoverExceedsMaximum()
    ensures SampleCount(300 * 300, 2048) == 2094
  {
    assert 300 * 300 / 2048 == 43;
  }

  function PixelAt(pixels: seq<byte>, s: nat, channels: int): Color
    requires channels >= 3 && (s + 1) * channels <= |pixels|
  {
    PixelInBounds(s, channels);
    var p := s * channels;
    Color(pixels[p] as real, pixels[p + 1] as real, pixels[p + 2] as real)
  }

  lemma PixelInBounds(s: nat, channels: int)
    requires channels >= 3
    ensures 0 <= s * channels && s * channels + 2 < (s + 1) * channels
  {
  }

  /** The sampled pixel lies inside the buffer. */
  lemma SampleInBounds(total: int, step: int, channels: int, j: nat, size: nat)
    requires total > 0 && step >= 1 && channels >= 3 && j < Reserved(total, step) && total * channels <= size
    ensures 0 <= j * step < total && (j * step + 1) * channels <= size
  {
    ReservedBounds(total, step);
    var n := Reserved(total, step);
    hide Reserved;
    ScaleUp(j, n - 1, step);
    ScaleUp(j * step + 1, total, channels);
  }

  /** The samples, in order: pixels 0, step, 2 * step, ... */
  function SamplesOf(pixels: seq<byte>, total: int, step: int, channels: int): (r: seq<Color>)
    requires total > 0 && step >= 1 && channels >= 3 && total * channels <= |pixels|
    ensures |r| == Reserved(total, step)
  {
    seq(Reserved(total, step), j requires 0 <= j < Reserved(total, step) =>
      SampleInBounds(total, step, channels, j, |pixels|);
      PixelAt(pixels, j * step, channels))
  }

  /** The three bytes from position `p` on are the channels of `c`, red first. */
  ghost predicate ReadFrom(c: Color, pixels: seq<byte>, p: int) {
    && 0 <= p && p + 2 < |pixels|
    && c.r == pixels[p] as real && c.g == pixels[p + 1] as real && c.b == pixels[p + 2] as real
  }

  lemma SampleIsRead(pixels: seq<byte>, total: int, step: int, channels: int, j: nat)
    requires total > 0 && step >= 1 && channels >= 3 && total * channels <= |pixels|
    requires j < Reserved(total, step)
    ensures ReadFrom(SamplesOf(pixels, total, step, channels)[j], pixels, j * step * channels)
  {
    SampleInBounds(total, step, channels, j, |pixels|);
    PixelInBounds(j * step, channels);
    hide Reserved;
  }

  /** Sample `j` is read from position j * step * channels, and the samples reach to the end. */
  lemma SamplesAreRead(pixels: seq<byte>, total: int, step: int, channels: int)
    requires total > 0 && step >= 1 && channels >= 3 && total * channels <= |pixels|
    ensures var samples := SamplesOf(pixels, total, step, channels);
            && (|samples| - 1) * step < total <= |samples| * step
            && forall j :: 0 <= j < |samples| ==> ReadFrom(samples[j], pixels, j * step * channels)
  {
    ReservedBounds(total, step);
    var samples := SamplesOf(pixels, total, step, channels);
    hide Reserved, ReadFrom, SamplesOf;
    forall j | 0 <= j < |samples|
      ensures ReadFrom(samples[j], pixels, j * step * channels)
    {
      SampleIsRead(pixels, total, step, channels, j);
    }
  }

  method ReadPixel(pixels: array<byte>, s: nat, channels: int) returns (c: Color)
    requires channels >= 3 && (s + 1) * channels <= pixels.Length
    ensures c == PixelAt(pixels[..], s, channels)
  {
    PixelInBounds(s, channels);
    var p := s * channels;
    c := Color(pixels[p] as real, pixels[p + 1] as real, pixels[p + 2] as real);
  }

  method CollectSamples(pixels: array?<byte>, w: int, h: int, channels: int, maxSamples: int)
    returns (samples: seq<Color>)
    requires w * h > 0 && pixels != null ==> maxSamples > 0 && channels >= 3 && w * h * channels <= pixels.Length
    ensures w * h <= 0 || pixels == null ==> samples == []
    ensures w * h > 0 && pixels != null ==>
      samples == SamplesOf(pixels[..], w * h, Step(w * h, maxSamples), channels)
    ensures w * h > 0 && pixels != null ==>
      var step := if w * h <= maxSamples then 1 else w * h / maxSamples;
      && (|samples| - 1) * step < w * h <= |samples| * step
      && forall j :: 0 <= j < |samples| ==> ReadFrom(samples[j], pixels[..], j * step * channels)
  {
    hide PixelAt, Reserved, Step, ReadFrom;
    var total := w * h;
    if total <= 0 || pixels == null {
      return [];
    }
    var step := Step(total, maxSamples);
    ghost var all := SamplesOf(pixels[..], total, step, channels);
    ReservedBounds(total, step);
    samples := [];
    var s := 0;
    while s < total
      invariant |samples| <= |all| && samples == all[..|samples|]
      invariant s == |samples| * step
      invariant s < total <==> |samples| < |all|
      decreases total - s
    {
      ghost var j := |samples|;
      assert j < |all|;
      SampleInBounds(total, step, channels, j, pixels.Length);
      var c := ReadPixel(pixels, s, channels);
      assert c == all[j];
      samples := samples + [c];
      s := s + step;
      NextInRange(total, step, j + 1);
    }
    assert samples == all;
    SamplesAreRead(pixels[..], total, step, channels);
    StepIs(total, maxSamples);
  }

  lemma StepIs(total: int, maxSamples: int)
    requires total > 0 && maxSamples > 0
    ensures Step(total, maxSamples) == if total <= maxSamples then 1 else total / maxSamples
  {
  }

  lemma NextInRange(total: int, step: int, j: nat)
    requires total > 0 && step >= 1 && j <= Reserved(total, step)
    ensures j * step < total <==> j < Reserved(total, step)
  {
    ReservedBounds(total, step);
    if j < Reserved(total, step) {
      assert j * step <= (Reserved(total, step) - 1) * step;
    }
  }
}
