/** k-means++ seeding: each new centre is drawn with weight the squared distance to the nearest old one. */
module Seeding {
  import opened Colors
  import opened LloydTheory

  // ---------------------------------------------------------------------------
  // The weighted draw
  // ---------------------------------------------------------------------------

  /** Sum of the first `n` weights. */
  function Prefix(weights: seq<real>, n: nat): real
    requires n <= |weights|
  {
    if n == 0 then 0.0 else Prefix(weights, n - 1) + weights[n - 1]
  }

  ghost predicate Weights(weights: seq<real>) {
    forall i :: 0 <= i < |weights| ==> weights[i] >= 0.0
  }

  /**
   * Index `i` is what a draw of r selects: the i whose interval (prefix(i), prefix(i + 1)], of length
   * weight(i), holds r. A draw of 0 selects index 0 whatever its weight.
   */
  ghost predicate Selects(weights: seq<real>, r: real, i: nat) {
    && i < |weights|
    && if r > 0.0 then Prefix(weights, i) < r <= Prefix(weights, i + 1) else i == 0
  }

  lemma {:induction false} PrefixMonotone(weights: seq<real>, i: nat, j: nat)
    requires Weights(weights) && i <= j <= |weights|
    ensures Prefix(weights, i) <= Prefix(weights, j)
  {
    if i < j {
      PrefixMonotone(weights, i, j - 1);
    }
  }

  lemma SelectionIsUnique(weights: seq<real>, r: real, i: nat, j: nat)
    requires Weights(weights) && Selects(weights, r, i) && Selects(weights, r, j)
    ensures i == j
  {
    if i < j {
      PrefixMonotone(weights, i + 1, j);
    } else if j < i {
      PrefixMonotone(weights, j + 1, i);
    }
  }

  /** The draw loop: it always finds an index, and it is the selected one. */
  method PickIndex(weights: array<real>, r: real) returns (next: nat)
    requires weights.Length > 0 && Weights(weights[..]) && 0.0 <= r <= Prefix(weights[..], weights.Length)
    ensures Selects(weights[..], r, next)
    ensures r == 0.0 ==> next == 0
    ensures r > 0.0 ==>
      next < weights.Length && Prefix(weights[..], next) < r <= Prefix(weights[..], next) + weights[next]
  {
    next := 0;
    var acc := 0.0;
    for i := 0 to weights.Length
      invariant acc == Prefix(weights[..], i) >= 0.0
      invariant i > 0 ==> acc < r
    {
      acc := acc + weights[i];
      if acc >= r {
        return i;
      }
    }
  }

  // ---------------------------------------------------------------------------
  // Seeding
  // ---------------------------------------------------------------------------

  function NearestDists(samples: seq<Color>, centers: seq<Color>): (d: seq<real>)
    requires centers != []
    ensures |d| == |samples| && Weights(d)
  {
    seq(|samples|, i requires 0 <= i < |samples| => NearestDist(samples[i], centers))
  }

  /** `c` is a legal next centre after `centers` when the generator returns the fraction `u`. */
  ghost predicate Drawn(samples: seq<Color>, centers: seq<Color>, u: real, c: Color)
    requires samples != [] && centers != []
  {
    var weights, total := NearestDists(samples, centers), Total(samples, centers);
    if total <= 0.0 then c == samples[0]
    else exists i: nat :: Selects(weights, Mul(u, total), i) && c == samples[i]
  }

  /** `centers` is the seeding that the first index and the fractions determine. */
  ghost predicate Seeded(samples: seq<Color>, centers: seq<Color>, first: nat, draws: seq<real>) {
    && 0 < |centers| <= |draws| + 1
    && first < |samples|
    && centers[0] == samples[first]
    && forall j :: 1 <= j < |centers| ==> Drawn(samples, centers[..j], draws[j - 1], centers[j])
  }

  predicate Fractions(draws: seq<real>) {
    forall j :: 0 <= j < |draws| ==> 0.0 <= draws[j] <= 1.0
  }

  lemma {:induction false} PrefixIsTotal(samples: seq<Color>, centers: seq<Color>, n: nat)
    requires centers != [] && n <= |samples|
    ensures Prefix(NearestDists(samples, centers), n) == TotalTo(samples, centers, n)
  {
    hide NearestDist;
    if n > 0 {
      PrefixIsTotal(samples, centers, n - 1);
    }
  }

  lemma Scale(u: real, total: real)
    requires 0.0 <= u <= 1.0 && total > 0.0
    ensures 0.0 <= Mul(u, total) <= total
    ensures u > 0.0 ==> Mul(u, total) > 0.0
  {
    assert Mul(u, total) <= Mul(1.0, total);
  }

  /** Refreshes the distances with one more centre. */
  method Refresh(samples: seq<Color>, c: Color, minDist: array<real>, ghost centers: seq<Color>)
    requires centers != [] && minDist[..] == NearestDists(samples, centers)
    modifies minDist
    ensures minDist[..] == NearestDists(samples, centers + [c])
  {
    hide Dist2, NearestDist;
    ghost var before, after := NearestDists(samples, centers), NearestDists(samples, centers + [c]);
    for i := 0 to |samples|
      invariant forall j :: 0 <= j < i ==> minDist[j] == after[j]
      invariant forall j :: i <= j < |samples| ==> minDist[j] == before[j]
    {
      NearestDistExtend(samples[i], centers, c);
      var d := Dist2(samples[i], c);
      if d < minDist[i] {
        minDist[i] := d;
      }
    }
  }

  method SumOf(minDist: array<real>) returns (sum: real)
    ensures sum == Prefix(minDist[..], minDist.Length)
  {
    sum := 0.0;
    for i := 0 to minDist.Length
      invariant sum == Prefix(minDist[..], i)
    {
      sum := sum + minDist[i];
    }
  }

  /** The body of the seeding loop up to the new centre: total the distances, then draw. */
  method NextCenter(samples: seq<Color>, minDist: array<real>, u: real, ghost centers: seq<Color>) returns (c: Color)
    requires samples != [] && centers != [] && minDist[..] == NearestDists(samples, centers)
    requires 0.0 <= u <= 1.0
    ensures Drawn(samples, centers, u, c) && c in samples
  {
    hide NearestDists, TotalTo, Mul, Selects;
    var sum := SumOf(minDist);
    assert sum == Total(samples, centers) by {
      PrefixIsTotal(samples, centers, |samples|);
    }
    var next := 0;
    if sum > 0.0 {
      Scale(u, sum);
      next := PickIndex(minDist, Mul(u, sum));
      SelectedInRange(minDist[..], Mul(u, sum), next);
    }
    c := samples[next];
  }

  lemma SelectedInRange(weights: seq<real>, r: real, i: nat)
    requires Selects(weights, r, i)
    ensures i < |weights|
  {
  }

  lemma SeededExtend(samples: seq<Color>, centers: seq<Color>, first: nat, draws: seq<real>, c: Color)
    requires Seeded(samples, centers, first, draws) && |centers| <= |draws|
    requires Drawn(samples, centers, draws[|centers| - 1], c)
    ensures Seeded(samples, centers + [c], first, draws)
  {
    hide Drawn;
    var longer := centers + [c];
    assert longer[..|centers|] == centers;
    assert forall j :: 1 <= j < |centers| ==> longer[..j] == centers[..j];
  }

  /**
   * The seeding loop. `draws` holds the generator's fractions of the running total: the generator
   * returns a number between 0 and that total. Reserving room for a negative number of centres throws.
   */
  method InitKMeansPP(samples: seq<Color>, k: int, first: nat, draws: seq<real>)
    returns (threw: bool, centers: seq<Color>)
    requires samples != [] && k > 0 ==> first < |samples| && |draws| >= k - 1 && Fractions(draws)
    ensures threw <==> k < 0
    ensures !threw && (samples == [] || k == 0) ==> centers == []
    ensures !threw && samples != [] && k > 0 ==> |centers| == k && Seeded(samples, centers, first, draws)
    ensures !threw && samples != [] && k > 0 ==>
      && centers[0] == samples[first]
      && forall j :: 1 <= j < k ==> Drawn(samples, centers[..j], draws[j - 1], centers[j])
  {
    threw, centers := k < 0, [];
    if threw || samples == [] || k <= 0 {
      return;
    }
    hide Drawn, Dist2, NearestDist;
    centers := [samples[first]];
    var minDist := new real[|samples|](i requires 0 <= i < |samples| => Dist2(samples[i], samples[first]));
    FirstDists(samples, samples[first]);
    while |centers| < k
      invariant 0 < |centers| <= k
      invariant Seeded(samples, centers, first, draws)
      invariant minDist[..] == NearestDists(samples, centers)
    {
      var c := NextCenter(samples, minDist, draws[|centers| - 1], centers);
      SeededExtend(samples, centers, first, draws, c);
      Refresh(samples, c, minDist, centers);
      centers := centers + [c];
    }
  }

  lemma FirstDists(samples: seq<Color>, c: Color)
    ensures NearestDists(samples, [c]) == seq(|samples|, i requires 0 <= i < |samples| => Dist2(samples[i], c))
  {
  }
}
