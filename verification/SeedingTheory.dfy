/** When a drawn centre is new, how far the distances fall, and when all k centres are distinct. */
module SeedingTheory {
  import opened Colors
  import opened LloydTheory
  import opened Seeding

  lemma {:induction false} TotalSign(samples: seq<Color>, centers: seq<Color>, n: nat)
    requires centers != [] && n <= |samples|
    ensures TotalTo(samples, centers, n) >= 0.0
    ensures TotalTo(samples, centers, n) == 0.0 <==> forall i :: 0 <= i < n ==> samples[i] in centers
  {
    hide NearestDist, Dist2;
    if n > 0 {
      TotalSign(samples, centers, n - 1);
      NearestSign(samples[n - 1], centers);
    }
  }

  lemma NearestSign(p: Color, centers: seq<Color>)
    requires centers != []
    ensures if p in centers then NearestDist(p, centers) == 0.0 else NearestDist(p, centers) > 0.0
  {
    NearestDistIsLeast(p, centers);
  }

  /** The weights run out exactly when every sample is already a centre. */
  lemma TotalZeroIff(samples: seq<Color>, centers: seq<Color>)
    requires centers != []
    ensures Total(samples, centers) >= 0.0
    ensures Total(samples, centers) == 0.0 <==> forall i :: 0 <= i < |samples| ==> samples[i] in centers
  {
    TotalSign(samples, centers, |samples|);
  }

  lemma DrawnIsSample(samples: seq<Color>, centers: seq<Color>, u: real, c: Color)
    requires samples != [] && centers != [] && Drawn(samples, centers, u, c)
    ensures c in samples
  {
  }

  /**
   * Sample 0 is drawn for a zero draw and when every sample is a centre already; otherwise the sample
   * whose nearest distance, added to those before it, first reaches the drawn fraction of the total.
   */
  lemma DrawnMeans(samples: seq<Color>, centers: seq<Color>, u: real, c: Color)
    requires samples != [] && centers != [] && 0.0 <= u <= 1.0 && Drawn(samples, centers, u, c)
    ensures u == 0.0 || (forall i :: 0 <= i < |samples| ==> samples[i] in centers) ==> c == samples[0]
    ensures u > 0.0 && (exists i :: 0 <= i < |samples| && samples[i] !in centers) ==>
      exists i: nat :: i < |samples| && c == samples[i] &&
        TotalTo(samples, centers, i) < u * Total(samples, centers) <= TotalTo(samples, centers, i + 1)
  {
    hide NearestDists, Total, TotalTo, Mul, Prefix;
    var weights, total := NearestDists(samples, centers), Total(samples, centers);
    TotalZeroIff(samples, centers);
    if total > 0.0 {
      Scale(u, total);
      MulIsProduct(u, total);
      var i: nat :| Selects(weights, Mul(u, total), i) && c == samples[i];
      if u > 0.0 {
        PrefixIsTotal(samples, centers, i);
        PrefixIsTotal(samples, centers, i + 1);
      }
    }
  }

  lemma MulIsProduct(x: real, y: real)
    ensures Mul(x, y) == x * y
  {
  }

  /**
   * The drawn centre is a new colour exactly when some sample is not yet a centre and the draw is
   * positive; a zero draw takes sample 0, which is new only if it is not a centre yet.
   */
  lemma DrawnIsNewIff(samples: seq<Color>, centers: seq<Color>, u: real, c: Color)
    requires samples != [] && centers != [] && 0.0 <= u <= 1.0 && Drawn(samples, centers, u, c)
    ensures c !in centers <==>
      Total(samples, centers) > 0.0 && (u > 0.0 || samples[0] !in centers)
  {
    var weights, total := NearestDists(samples, centers), Total(samples, centers);
    TotalZeroIff(samples, centers);
    if total > 0.0 {
      Scale(u, total);
      var i: nat :| Selects(weights, Mul(u, total), i) && c == samples[i];
      NearestDistIsLeast(c, centers);
      SelectedWeight(weights, Mul(u, total), i);
      if u == 0.0 {
        assert Mul(u, total) == 0.0;
      }
    }
  }

  lemma SelectedWeight(weights: seq<real>, r: real, i: nat)
    requires Selects(weights, r, i)
    ensures i < |weights| && if r > 0.0 then weights[i] > 0.0 else i == 0
  {
  }

  /** A zero draw repeats the centre even though another colour is left. */
  lemma ZeroDrawRepeats(c: Color)
    requires c != BLACK
    ensures Seeded([BLACK, c], [BLACK, BLACK], 0, [0.0])
    ensures !Seeded([BLACK, c], [BLACK, c], 0, [0.0])
  {
    var samples := [BLACK, c];
    TotalZeroIff(samples, [BLACK]);
    assert samples[1] !in [BLACK];
    assert Mul(0.0, Total(samples, [BLACK])) == 0.0;
    assert Selects(NearestDists(samples, [BLACK]), 0.0, 0);
    assert [BLACK, BLACK][..1] == [BLACK] == [BLACK, c][..1];
  }

  /** One more centre never raises the total, and lowers it exactly when it is a new colour. */
  lemma TotalFallsIff(samples: seq<Color>, centers: seq<Color>, c: Color)
    requires centers != [] && c in samples
    ensures Total(samples, centers + [c]) <= Total(samples, centers)
    ensures Total(samples, centers + [c]) < Total(samples, centers) <==> c !in centers
  {
    var i :| 0 <= i < |samples| && samples[i] == c;
    TotalExtends(samples, centers, c, i, |samples|);
    NearestDistIsLeast(c, centers);
    if c in centers {
      forall j | 0 <= j < |samples|
        ensures NearestDist(samples[j], centers + [c]) == NearestDist(samples[j], centers)
      {
        NearestDistIsLeast(samples[j], centers);
        NearestDistExtend(samples[j], centers, c);
      }
      SameTotal(samples, centers, centers + [c], |samples|);
    }
  }

  lemma {:induction false} TotalExtends(samples: seq<Color>, centers: seq<Color>, c: Color, i: nat, n: nat)
    requires centers != [] && n <= |samples| && i < |samples| && samples[i] == c
    ensures TotalTo(samples, centers + [c], n) <= TotalTo(samples, centers, n)
    ensures i < n && NearestDist(c, centers) > 0.0 ==> TotalTo(samples, centers + [c], n) < TotalTo(samples, centers, n)
  {
    hide NearestDist, Dist2;
    if n > 0 {
      TotalExtends(samples, centers, c, i, n - 1);
      NearestDistExtend(samples[n - 1], centers, c);
      SelfDist(c);
    }
  }

  lemma SelfDist(c: Color)
    ensures Dist2(c, c) == 0.0
  {
  }

  lemma {:induction false} SameTotal(samples: seq<Color>, a: seq<Color>, b: seq<Color>, n: nat)
    requires a != [] && b != [] && n <= |samples|
    requires forall j :: 0 <= j < |samples| ==> NearestDist(samples[j], a) == NearestDist(samples[j], b)
    ensures TotalTo(samples, a, n) == TotalTo(samples, b, n)
  {
    hide NearestDist;
    if n > 0 {
      SameTotal(samples, a, b, n - 1);
    }
  }

  // ---------------------------------------------------------------------------
  // All k centres
  // ---------------------------------------------------------------------------

  ghost function ColorSet(s: seq<Color>): set<Color> {
    set c | c in s
  }

  ghost predicate Distinct(s: seq<Color>) {
    forall i, j :: 0 <= i < j < |s| ==> s[i] != s[j]
  }

  lemma {:induction false} DistinctSize(s: seq<Color>)
    ensures |ColorSet(s)| <= |s|
    ensures Distinct(s) <==> |ColorSet(s)| == |s|
  {
    if s != [] {
      var n := |s| - 1;
      DistinctSize(s[..n]);
      assert s == s[..n] + [s[n]];
      assert ColorSet(s) == ColorSet(s[..n]) + {s[n]};
    }
  }

  lemma {:induction false} SeedsAreSamples(samples: seq<Color>, centers: seq<Color>, first: nat, draws: seq<real>)
    requires Seeded(samples, centers, first, draws)
    ensures forall c :: c in centers ==> c in samples
  {
    hide Drawn;
    forall j | 0 <= j < |centers|
      ensures centers[j] in samples
    {
      if j > 0 {
        DrawnIsSample(samples, centers[..j], draws[j - 1], centers[j]);
      }
    }
  }

  /** With positive draws the k centres are pairwise distinct exactly when the samples have k colours. */
  lemma SeedsDistinctIff(samples: seq<Color>, centers: seq<Color>, first: nat, draws: seq<real>)
    requires Seeded(samples, centers, first, draws)
    requires forall j :: 0 <= j < |draws| ==> 0.0 < draws[j] <= 1.0
    ensures Distinct(centers) <==> |ColorSet(samples)| >= |centers|
  {
    SeedsAreSamples(samples, centers, first, draws);
    SubsetSize(ColorSet(centers), ColorSet(samples));
    DistinctSize(centers);
    if |ColorSet(samples)| >= |centers| {
      PrefixDistinct(samples, centers, first, draws, |centers|);
      assert centers[..|centers|] == centers;
    }
  }

  lemma SubsetSize<T>(a: set<T>, b: set<T>)
    requires a <= b
    ensures |a| <= |b|
  {
    assert b == a + (b - a);
  }

  lemma {:induction false} PrefixDistinct(samples: seq<Color>, centers: seq<Color>, first: nat, draws: seq<real>,
                                          n: nat)
    requires Seeded(samples, centers, first, draws) && n <= |centers| <= |ColorSet(samples)|
    requires forall j :: 0 <= j < |draws| ==> 0.0 < draws[j] <= 1.0
    ensures Distinct(centers[..n])
  {
    hide Drawn, ColorSet;
    if n > 1 {
      var earlier, c := centers[..n - 1], centers[n - 1];
      PrefixDistinct(samples, centers, first, draws, n - 1);
      NextIsNew(samples, earlier, draws[n - 2], c);
      assert centers[..n] == earlier + [c];
    }
  }

  lemma NextIsNew(samples: seq<Color>, earlier: seq<Color>, u: real, c: Color)
    requires samples != [] && earlier != [] && 0.0 < u <= 1.0 && Drawn(samples, earlier, u, c)
    requires |earlier| < |ColorSet(samples)|
    ensures c !in earlier
  {
    hide Drawn;
    DrawnIsNewIff(samples, earlier, u, c);
    if c in earlier {
      TotalZeroIff(samples, earlier);
      SubsetSize(ColorSet(samples), ColorSet(earlier));
      DistinctSize(earlier);
    }
  }

  /** While the draws are positive and the total is too, every step strictly lowers the total. */
  lemma SeedingStepFalls(samples: seq<Color>, centers: seq<Color>, first: nat, draws: seq<real>, j: nat)
    requires Seeded(samples, centers, first, draws) && Fractions(draws) && 1 <= j < |centers|
    requires Total(samples, centers[..j]) > 0.0 && draws[j - 1] > 0.0
    ensures centers[j] !in centers[..j]
    ensures Total(samples, centers[..j + 1]) < Total(samples, centers[..j])
  {
    hide Drawn;
    DrawnIsNewIff(samples, centers[..j], draws[j - 1], centers[j]);
    DrawnIsSample(samples, centers[..j], draws[j - 1], centers[j]);
    TotalFallsIff(samples, centers[..j], centers[j]);
    assert centers[..j + 1] == centers[..j] + [centers[j]];
  }
}
