/** From a pixel buffer to a palette of at most sixteen colours, largest cluster first. */
module Palette {
  import opened Bytes
  import opened Colors
  import opened Sampling
  import opened Seeding
  import opened Lloyd
  import LloydTermination
  import LloydTheory
  import SeedingTheory

  const PALETTE_MAX := 16
  const WHITE := Color(255.0, 255.0, 255.0)

  datatype Pixel = Pixel(r: byte, g: byte, b: byte, a: byte)

  class ColorPalette {
    const colors: array<Pixel>
    var count: int

    ghost predicate Valid() {
      colors.Length == PALETTE_MAX
    }

    constructor ()
      ensures Valid() && count == 0 && fresh(colors)
      ensures colors.Length == 16 && forall i :: 0 <= i < 16 ==> colors[i] == Pixel(0, 0, 0, 255)
    {
      colors := new Pixel[PALETTE_MAX](_ => Pixel(0, 0, 0, 255));
      count := 0;
    }
  }

  // ---------------------------------------------------------------------------
  // Centres stay in the samples' bounding box
  // ---------------------------------------------------------------------------

  ghost predicate InBox(c: Color, lo: Color, hi: Color) {
    lo.r <= c.r <= hi.r && lo.g <= c.g <= hi.g && lo.b <= c.b <= hi.b
  }

  ghost predicate AllInBox(s: seq<Color>, lo: Color, hi: Color) {
    forall c :: c in s ==> InBox(c, lo, hi)
  }

  ghost function Scaled(m: real, c: Color): Color {
    Color(Mul(m, c.r), Mul(m, c.g), Mul(m, c.b))
  }

  lemma {:induction false} SumInBox(samples: seq<Color>, assign: Assignment, c: nat, lo: Color, hi: Color, n: nat)
    requires n <= |samples| == |assign| && AllInBox(samples, lo, hi)
    ensures var m := Count(assign, c, n) as real;
            InBox(Sum(samples, assign, c, n), Scaled(m, lo), Scaled(m, hi))
  {
    if n > 0 {
      SumInBox(samples, assign, c, lo, hi, n - 1);
      assert samples[n - 1] in samples;
      ScaledSucc(Count(assign, c, n - 1), lo);
      ScaledSucc(Count(assign, c, n - 1), hi);
      hide Scaled;
    }
  }

  lemma ScaledSucc(n: nat, c: Color)
    ensures Scaled((n + 1) as real, c) == Add(Scaled(n as real, c), c)
  {
    LloydTheory.MulSucc(n, c.r);
    LloydTheory.MulSucc(n, c.g);
    LloydTheory.MulSucc(n, c.b);
  }

  lemma Between(s: real, m: real, lo: real, hi: real)
    requires m > 0.0 && Mul(m, lo) <= s <= Mul(m, hi)
    ensures lo <= s / m <= hi
  {
  }

  lemma MeanInBox(samples: seq<Color>, assign: Assignment, c: nat, lo: Color, hi: Color)
    requires |assign| == |samples| && Size(assign, c) > 0 && AllInBox(samples, lo, hi)
    ensures InBox(Mean(samples, assign, c), lo, hi)
  {
    var s, m := Sum(samples, assign, c, |samples|), Size(assign, c) as real;
    SumInBox(samples, assign, c, lo, hi, |samples|);
    Between(s.r, m, lo.r, hi.r);
    Between(s.g, m, lo.g, hi.g);
    Between(s.b, m, lo.b, hi.b);
  }

  lemma RecenterInBox(samples: seq<Color>, assign: Assignment, centers: seq<Color>, lo: Color, hi: Color)
    requires |assign| == |samples| && AllInBox(samples, lo, hi) && AllInBox(centers, lo, hi)
    ensures AllInBox(Recenter(samples, assign, centers), lo, hi)
  {
    hide Size, Mean, InBox;
    var moved := Recenter(samples, assign, centers);
    forall c | 0 <= c < |moved|
      ensures InBox(moved[c], lo, hi)
    {
      if Size(assign, c) > 0 {
        MeanInBox(samples, assign, c, lo, hi);
      } else {
        assert centers[c] in centers;
      }
    }
  }

  /** However many passes run, every centre stays in any box that holds the samples and the seeds. */
  lemma {:induction false} RunStaysInBox(samples: seq<Color>, assign: Assignment, centers: seq<Color>,
                                         iter: nat, maxIter: int, lo: Color, hi: Color)
    requires centers != [] && |assign| == |samples|
    requires AllInBox(samples, lo, hi) && AllInBox(centers, lo, hi)
    ensures AllInBox(Run(samples, assign, centers, iter, maxIter).centers, lo, hi)
    decreases maxIter - iter
  {
    hide AllInBox, Reassign, Recenter;
    if iter < maxIter {
      var next := Reassign(samples, centers);
      if next != assign || iter == 0 {
        RecenterInBox(samples, next, centers, lo, hi);
        RunStaysInBox(samples, next, Recenter(samples, next, centers), iter + 1, maxIter, lo, hi);
      }
    }
  }

  // ---------------------------------------------------------------------------
  // Cluster sizes
  // ---------------------------------------------------------------------------

  /** Sizes of the first `k` clusters over the first `n` samples, added up. */
  ghost function SizeSum(assign: Assignment, k: nat, n: nat): nat
    requires n <= |assign|
  {
    if k == 0 then 0 else SizeSum(assign, k - 1, n) + Count(assign, k - 1, n)
  }

  lemma {:induction false} SizeSumStep(assign: Assignment, k: nat, n: nat)
    requires 0 < n <= |assign|
    ensures SizeSum(assign, k, n) == SizeSum(assign, k, n - 1) + if assign[n - 1] < k then 1 else 0
  {
    if k > 0 {
      SizeSumStep(assign, k - 1, n);
    }
  }

  lemma {:induction false} SizesAddUp(assign: Assignment, k: nat, n: nat)
    requires n <= |assign| && forall i :: 0 <= i < n ==> assign[i] < k
    ensures SizeSum(assign, k, n) == n
  {
    if n == 0 {
      NothingYet(assign, k);
    } else {
      SizeSumStep(assign, k, n);
      SizesAddUp(assign, k, n - 1);
    }
  }

  lemma {:induction false} NothingYet(assign: Assignment, k: nat)
    ensures SizeSum(assign, k, 0) == 0
  {
    if k > 0 {
      NothingYet(assign, k - 1);
    }
  }

  ghost function NonEmpty(assign: Assignment, k: nat): set<nat> {
    set c: nat | c < k && Size(assign, c) > 0
  }

  // ---------------------------------------------------------------------------
  // Ordering by size
  // ---------------------------------------------------------------------------

  /** `order` lists 0..n once each, larger counts first; ties in any order, as an unstable sort may. */
  ghost predicate RanksFirst(order: seq<nat>, counts: seq<nat>, n: nat) {
    && |order| == n <= |counts|
    && (forall i :: 0 <= i < n ==> order[i] < n)
    && (forall i, j :: 0 <= i < j < n ==> order[i] != order[j] && counts[order[i]] >= counts[order[j]])
  }

  ghost predicate Ranks(order: seq<nat>, counts: seq<nat>) {
    RanksFirst(order, counts, |counts|)
  }

  lemma RankNext(order: seq<nat>, counts: seq<nat>, n: nat, p: nat)
    requires n < |counts| && RanksFirst(order, counts, n) && p <= n
    requires p > 0 ==> counts[order[p - 1]] >= counts[n]
    requires forall j :: p <= j < n ==> counts[order[j]] < counts[n]
    ensures RanksFirst(order[..p] + [n] + order[p..], counts, n + 1)
  {
    var longer := order[..p] + [n] + order[p..];
    forall i, j | 0 <= i < j <= n
      ensures longer[i] != longer[j] && counts[longer[i]] >= counts[longer[j]]
    {
      var a, b := if i < p then i else i - 1, if j < p then j else j - 1;
      assert i != p ==> longer[i] == order[a];
      assert j != p ==> longer[j] == order[b];
    }
  }

  method SortBySize(counts: seq<nat>) returns (order: seq<nat>)
    ensures Ranks(order, counts)
  {
    order := [];
    for i := 0 to |counts|
      invariant RanksFirst(order, counts, i)
    {
      var p := i;
      while p > 0 && counts[order[p - 1]] < counts[i]
        invariant 0 <= p <= i
        invariant forall j :: p <= j < i ==> counts[order[j]] < counts[i]
      {
        p := p - 1;
      }
      RankNext(order, counts, i, p);
      order := order[..p] + [i] + order[p..];
    }
  }

  // ---------------------------------------------------------------------------
  // The palette
  // ---------------------------------------------------------------------------

  /** Rounding to the nearest integer, halves up, which on the non-negative channels is away from zero. */
  function Round(x: real): (n: int)
    ensures -0.5 < n as real - x <= 0.5
  {
    (x + 0.5).Floor
  }

  function Entry(c: Color): Pixel
    requires InBox(c, BLACK, WHITE)
  {
    Pixel(Round(c.r) as byte, Round(c.g) as byte, Round(c.b) as byte, 255)
  }

  /** The cast of a sample's channels back to bytes. */
  function Truncated(c: Color): Pixel
    requires InBox(c, BLACK, WHITE)
  {
    Pixel(c.r.Floor as byte, c.g.Floor as byte, c.b.Floor as byte, 255)
  }

  /** Casting a sample back gives the very bytes that were read. */
  lemma TruncatedIsExact(pixels: seq<byte>, s: nat, channels: int)
    requires channels >= 3 && (s + 1) * channels <= |pixels|
    ensures InBox(PixelAt(pixels, s, channels), BLACK, WHITE) && 0 <= s * channels && s * channels + 2 < |pixels|
    ensures Truncated(PixelAt(pixels, s, channels))
         == Pixel(pixels[s * channels], pixels[s * channels + 1], pixels[s * channels + 2], 255)
  {
    PixelInBounds(s, channels);
  }

  lemma SamplesInBox(pixels: seq<byte>, total: int, step: int, channels: int)
    requires total > 0 && step >= 1 && channels >= 3 && total * channels <= |pixels|
    ensures AllInBox(SamplesOf(pixels, total, step, channels), BLACK, WHITE)
  {
    hide Reserved;
    var samples := SamplesOf(pixels, total, step, channels);
    forall j | 0 <= j < |samples|
      ensures InBox(samples[j], BLACK, WHITE)
    {
      SampleInBounds(total, step, channels, j, |pixels|);
      assert samples[j] == PixelAt(pixels, j * step, channels);
      PixelInBounds(j * step, channels);
    }
  }

  /** The run behind a palette of `k` colours: seeds as drawn, then at most twenty passes. */
  ghost predicate Clustering(samples: seq<Color>, k: nat, first: nat, draws: seq<real>, seeds: seq<Color>, o: Outcome) {
    && |seeds| == k > 0
    && Seeded(samples, seeds, first, draws)
    && o == Run(samples, Zeros(|samples|), seeds, 0, 20)
  }

  lemma ClusteringInBox(samples: seq<Color>, k: nat, first: nat, draws: seq<real>, seeds: seq<Color>, o: Outcome,
                        lo: Color, hi: Color)
    requires Clustering(samples, k, first, draws, seeds, o) && AllInBox(samples, lo, hi)
    ensures AllInBox(o.centers, lo, hi)
  {
    hide Run, Seeded, InBox;
    SeedingTheory.SeedsAreSamples(samples, seeds, first, draws);
    RunStaysInBox(samples, Zeros(|samples|), seeds, 0, 20, lo, hi);
  }

  /** The first `count` colours are the non-empty clusters' rounded centres, each once, larger clusters first. */
  ghost predicate Shows(colors: seq<Pixel>, count: int, centers: seq<Color>, counts: seq<nat>, order: seq<nat>) {
    && |counts| == |centers| && 0 <= count <= |order| && count <= |colors|
    && Ranks(order, counts)
    && (forall i :: 0 <= i < count ==>
        counts[order[i]] > 0 && InBox(centers[order[i]], BLACK, WHITE) && colors[i] == Entry(centers[order[i]]))
    && (forall i :: count <= i < |order| ==> counts[order[i]] == 0)
  }

  /** The first `count` clusters are exactly those with samples, each once, and none before a larger one. */
  ghost predicate LargestFirst(order: seq<nat>, count: int, assign: Assignment) {
    && 0 <= count <= |order|
    && (forall c :: c in order[..count] <==> c in assign)
    && (forall i, j :: 0 <= i < j < count ==>
        && order[i] != order[j]
        && |Members(assign, order[i], |assign|)| >= |Members(assign, order[j], |assign|)|)
  }

  lemma ShownLargestFirst(assign: Assignment, k: nat, order: seq<nat>, count: nat)
    requires Ranks(order, Sizes(assign, k)) && count <= k && forall i :: 0 <= i < |assign| ==> assign[i] < k
    requires forall i :: 0 <= i < count ==> Size(assign, order[i]) > 0
    requires forall i :: count <= i < k ==> Size(assign, order[i]) == 0
    ensures LargestFirst(order, count, assign)
  {
    RangeOfRanking(order, Sizes(assign, k));
    forall c: nat
      ensures Size(assign, c) == |Members(assign, c, |assign|)| && (Size(assign, c) > 0 <==> c in assign)
    {
      CountIsMembers(assign, c, |assign|);
      SizePositiveIff(assign, c);
    }
    hide Size, Members;
    forall c | c in assign
      ensures c in order[..count]
    {
      var n :| 0 <= n < |assign| && assign[n] == c;
      assert c < |Sizes(assign, k)| && c in order;
      var i :| 0 <= i < |order| && order[i] == c;
    }
  }

  lemma SizePositiveIff(assign: Assignment, c: nat)
    ensures Size(assign, c) > 0 <==> c in assign
  {
    CountIsMembers(assign, c, |assign|);
    if c in assign {
      var i :| 0 <= i < |assign| && assign[i] == c;
      assert i in Members(assign, c, |assign|);
    } else {
      assert Members(assign, c, |assign|) == {};
    }
  }

  method WriteEntries(palette: ColorPalette, centers: seq<Color>, counts: seq<nat>, order: seq<nat>)
    requires palette.Valid() && palette.count == 0
    requires |counts| == |centers| <= PALETTE_MAX && Ranks(order, counts)
    requires AllInBox(centers, BLACK, WHITE)
    modifies palette`count, palette.colors
    ensures Shows(palette.colors[..], palette.count, centers, counts, order)
    ensures forall i :: 0 <= i < palette.count ==>
      var p, c := palette.colors[i], centers[order[i]];
      && -0.5 < p.r as real - c.r <= 0.5
      && -0.5 < p.g as real - c.g <= 0.5
      && -0.5 < p.b as real - c.b <= 0.5
      && p.a == 255
    ensures forall j :: palette.count <= j < PALETTE_MAX ==> palette.colors[j] == old(palette.colors[j])
  {
    for i := 0 to |order|
      invariant 0 <= palette.count <= i
      invariant forall j :: 0 <= j < palette.count ==>
        counts[order[j]] > 0 && InBox(centers[order[j]], BLACK, WHITE) && palette.colors[j] == Entry(centers[order[j]])
      invariant forall j :: palette.count <= j < i ==> counts[order[j]] == 0
      invariant forall j :: palette.count <= j < PALETTE_MAX ==> palette.colors[j] == old(palette.colors[j])
    {
      var c := order[i];
      if counts[c] == 0 {
        continue;
      }
      assert centers[c] in centers;
      palette.colors[palette.count] := Entry(centers[c]);
      palette.count := palette.count + 1;
    }
  }

  lemma NonEmptyCount(assign: Assignment, k: nat, order: seq<nat>, count: nat)
    requires Ranks(order, Sizes(assign, k)) && count <= k
    requires forall i :: 0 <= i < count ==> Size(assign, order[i]) > 0
    requires forall i :: count <= i < k ==> Size(assign, order[i]) == 0
    ensures count == |NonEmpty(assign, k)|
  {
    hide Size;
    RangeOfRanking(order, Sizes(assign, k));
    var shown := set i | 0 <= i < count :: order[i];
    forall c | c in NonEmpty(assign, k)
      ensures c in shown
    {
      assert c < |Sizes(assign, k)| && c in order;
      var i :| 0 <= i < |order| && order[i] == c;
    }
    assert shown == NonEmpty(assign, k);
    DistinctRange(order, count);
  }

  lemma {:induction false} DistinctRange(order: seq<nat>, n: nat)
    requires n <= |order| && forall i, j :: 0 <= i < j < n ==> order[i] != order[j]
    ensures |set i | 0 <= i < n :: order[i]| == n
  {
    if n > 0 {
      DistinctRange(order, n - 1);
      assert (set i | 0 <= i < n :: order[i]) == (set i | 0 <= i < n - 1 :: order[i]) + {order[n - 1]};
    }
  }

  /** A ranking leaves no cluster out. */
  lemma RangeOfRanking(order: seq<nat>, counts: seq<nat>)
    requires Ranks(order, counts)
    ensures forall c: nat :: c < |counts| ==> c in order
  {
    var n := |counts|;
    var range: set<nat> := set i | 0 <= i < n :: order[i];
    DistinctRange(order, n);
    if c: nat :| c < n && c !in order {
      assert c !in range;
      LloydTermination.BelowBound(range + {c}, n);
    }
  }

  /** An opaque entry with the very channels of a sample. */
  ghost predicate ShowsExactly(p: Pixel, c: Color) {
    p.r as real == c.r && p.g as real == c.g && p.b as real == c.b && p.a == 255
  }

  /** Cutting off the fraction of a channel that was read as a byte loses nothing. */
  lemma CastIsExact(p: Pixel, c: Color, pixels: seq<byte>, at: int)
    requires ReadFrom(c, pixels, at) && p.a == 255
    requires p.r as real <= c.r < p.r as real + 1.0
    requires p.g as real <= c.g < p.g as real + 1.0
    requires p.b as real <= c.b < p.b as real + 1.0
    ensures ShowsExactly(p, c)
  {
    SameByte(p.r as int, pixels[at] as int);
    SameByte(p.g as int, pixels[at + 1] as int);
    SameByte(p.b as int, pixels[at + 2] as int);
  }

  lemma SameByte(x: int, y: int)
    requires x as real <= y as real < x as real + 1.0
    ensures x == y
  {
  }

  /** Whether there is anything to build a palette from. */
  predicate Usable(pixels: array?<byte>, w: int, h: int, k: int) {
    pixels != null && w * h > 0 && 0 < k <= PALETTE_MAX
  }

  /**
   * The palette of an image. `first` and `draws` are what the random generator returns; the ghost
   * results are the clustering that the palette shows.
   */
  method GenerateKMeansPalette(palette: ColorPalette, pixels: array?<byte>, w: int, h: int, channels: int,
                               k: int, maxSamples: int, first: nat, draws: seq<real>)
    returns (ghost seeds: seq<Color>, ghost o: Outcome, ghost order: seq<nat>)
    requires palette.Valid()
    requires Usable(pixels, w, h, k) ==>
      && maxSamples > 0 && channels >= 3 && w * h * channels <= pixels.Length
      && first < SampleCount(w * h, maxSamples) && k <= |draws| + 1 && Fractions(draws)
    modifies palette`count, palette.colors
    ensures forall j :: 0 <= palette.count <= j < PALETTE_MAX ==> palette.colors[j] == old(palette.colors[j])
    ensures pixels == null || w * h <= 0 || k <= 0 || k > 16 ==> palette.count == 0
    ensures Usable(pixels, w, h, k) ==> 1 <= palette.count <= k <= 16
    ensures Usable(pixels, w, h, k) ==>
      var samples := SamplesOf(pixels[..], w * h, Step(w * h, maxSamples), channels);
      if |samples| <= k then
        && palette.count == |samples|
        && forall i :: 0 <= i < |samples| ==> ShowsExactly(palette.colors[i], samples[i])
      else
        && Clustering(samples, k, first, draws, seeds, o)
        && |order| == k == |o.centers|
        && (forall i :: 0 <= i < palette.count ==>
            order[i] < k &&
            var p, c := palette.colors[i], o.centers[order[i]];
            && -0.5 < p.r as real - c.r <= 0.5
            && -0.5 < p.g as real - c.g <= 0.5
            && -0.5 < p.b as real - c.b <= 0.5
            && p.a == 255)
        && LargestFirst(order, palette.count, o.assign)
        && palette.count == |NonEmpty(o.assign, k)|
        && SizeSum(o.assign, k, |samples|) == |samples|
  {
    hide SamplesOf, ReadFrom, LargestFirst, NonEmpty, SizeSum, Clustering, InBox;
    palette.count := 0;
    seeds, o, order := [], Outcome([], [], false), [];
    if k <= 0 || k > PALETTE_MAX {
      return;
    }
    var samples := CollectSamples(pixels, w, h, channels, maxSamples);
    if samples == [] {
      return;
    }
    SamplesInBox(pixels[..], w * h, Step(w * h, maxSamples), channels);
    if |samples| <= k {
      CopySamples(palette, samples);
      forall i | 0 <= i < |samples|
        ensures ShowsExactly(palette.colors[i], samples[i])
      {
        CastIsExact(palette.colors[i], samples[i], pixels[..], i * Step(w * h, maxSamples) * channels);
      }
      return;
    }
    seeds, o, order := ClusterInto(palette, samples, k, first, draws);
  }

  /** Few enough samples are taken over as they are. */
  method CopySamples(palette: ColorPalette, samples: seq<Color>)
    requires palette.Valid() && |samples| <= PALETTE_MAX && AllInBox(samples, BLACK, WHITE)
    modifies palette`count, palette.colors
    ensures palette.count == |samples|
    ensures forall i :: 0 <= i < |samples| ==>
      var p, c := palette.colors[i], samples[i];
      && p.r as real <= c.r < p.r as real + 1.0
      && p.g as real <= c.g < p.g as real + 1.0
      && p.b as real <= c.b < p.b as real + 1.0
      && p.a == 255
    ensures forall j :: |samples| <= j < PALETTE_MAX ==> palette.colors[j] == old(palette.colors[j])
  {
    for i := 0 to |samples|
      invariant forall j :: 0 <= j < i ==> InBox(samples[j], BLACK, WHITE) && palette.colors[j] == Truncated(samples[j])
      invariant forall j :: i <= j < PALETTE_MAX ==> palette.colors[j] == old(palette.colors[j])
    {
      assert samples[i] in samples;
      palette.colors[i] := Truncated(samples[i]);
    }
    palette.count := |samples|;
  }

  /** Seeds, clusters, sorts by size and writes the non-empty clusters. */
  method ClusterInto(palette: ColorPalette, samples: seq<Color>, k: nat, first: nat, draws: seq<real>)
    returns (ghost seeds: seq<Color>, ghost o: Outcome, ghost order: seq<nat>)
    requires palette.Valid() && palette.count == 0 && 0 < k <= PALETTE_MAX
    requires first < |samples| && k <= |draws| + 1 && Fractions(draws) && AllInBox(samples, BLACK, WHITE)
    modifies palette`count, palette.colors
    ensures forall j :: 0 <= palette.count <= j < PALETTE_MAX ==> palette.colors[j] == old(palette.colors[j])
    ensures Clustering(samples, k, first, draws, seeds, o)
    ensures Shows(palette.colors[..], palette.count, o.centers, Sizes(o.assign, k), order)
    ensures 1 <= palette.count <= k && palette.count == |NonEmpty(o.assign, k)|
    ensures SizeSum(o.assign, k, |samples|) == |samples|
    ensures o == Run(samples, Zeros(|samples|), seeds, 0, 20)
    ensures forall i :: 0 <= i < palette.count ==>
      var p, c := palette.colors[i], o.centers[order[i]];
      && -0.5 < p.r as real - c.r <= 0.5
      && -0.5 < p.g as real - c.g <= 0.5
      && -0.5 < p.b as real - c.b <= 0.5
      && p.a == 255
    ensures LargestFirst(order, palette.count, o.assign)
  {
    hide Seeded, Size, InBox;
    var threw, init := InitKMeansPP(samples, k, first, draws);
    seeds := init;
    var centers := new Color[k](i requires 0 <= i < k => init[i]);
    assert centers[..] == seeds;
    var counts;
    counts, o := Cluster(samples, centers, 20);
    ClusteringInBox(samples, k, first, draws, seeds, o, BLACK, WHITE);
    LloydTheory.RunDescends(samples, Zeros(|samples|), seeds, 0, 20);
    var ranking := SortBySize(counts[..]);
    order := ranking;
    WriteEntries(palette, centers[..], counts[..], ranking);
    NonEmptyCount(o.assign, k, order, palette.count);
    SizesAddUp(o.assign, k, |samples|);
    SomeClusterHasSample(o.assign, k);
    ShownLargestFirst(o.assign, k, order, palette.count);
  }

  lemma SomeClusterHasSample(assign: Assignment, k: nat)
    requires assign != [] && forall i :: 0 <= i < |assign| ==> assign[i] < k
    ensures |NonEmpty(assign, k)| > 0
  {
    LloydTermination.CountsItsMember(assign, 0, |assign|);
    assert assign[0] in NonEmpty(assign, k);
  }
}
