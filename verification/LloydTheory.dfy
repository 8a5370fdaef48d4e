/** Why Lloyd's iteration descends, what it stops at, and why it would stop without a pass limit. */
module LloydTheory {
  import opened Colors
  import opened Lloyd

  /** Sum of squared distances of the first `n` samples to their assigned centres. */
  ghost function CostTo(samples: seq<Color>, assign: Assignment, centers: seq<Color>, n: nat): (r: real)
    requires Assigns(samples, assign, |centers|) && n <= |samples|
  {
    if n == 0 then 0.0
    else CostTo(samples, assign, centers, n - 1) + Dist2(samples[n - 1], centers[assign[n - 1]])
  }

  ghost function Cost(samples: seq<Color>, assign: Assignment, centers: seq<Color>): real
    requires Assigns(samples, assign, |centers|)
  {
    CostTo(samples, assign, centers, |samples|)
  }

  /** Total squared distance of the samples to their nearest centres. */
  ghost function TotalTo(samples: seq<Color>, centers: seq<Color>, n: nat): real
    requires centers != [] && n <= |samples|
  {
    if n == 0 then 0.0 else TotalTo(samples, centers, n - 1) + NearestDist(samples[n - 1], centers)
  }

  ghost function Total(samples: seq<Color>, centers: seq<Color>): real
    requires centers != []
  {
    TotalTo(samples, centers, |samples|)
  }

  // ---------------------------------------------------------------------------
  // Re-centring: the mean minimises each cluster's share
  // ---------------------------------------------------------------------------

  /** What cluster `c` would contribute if its centre were `z`. */
  ghost function Share(samples: seq<Color>, assign: Assignment, c: nat, z: Color, n: nat): real
    requires n <= |samples| && n <= |assign|
  {
    if n == 0 then 0.0
    else Share(samples, assign, c, z, n - 1) + if assign[n - 1] == c then Dist2(samples[n - 1], z) else 0.0
  }

  ghost function Dot(a: Color, b: Color): real {
    Mul(a.r, b.r) + Mul(a.g, b.g) + Mul(a.b, b.b)
  }

  lemma DistExpand(x: Color, z: Color)
    ensures Dist2(x, z) == Dot(x, x) - 2.0 * Dot(z, x) + Dot(z, z)
  {
    SquareExpand(x.r, z.r);
    SquareExpand(x.g, z.g);
    SquareExpand(x.b, z.b);
  }

  lemma SquareExpand(x: real, z: real)
    ensures Square(x - z) == Mul(x, x) - 2.0 * Mul(z, x) + Mul(z, z)
  {
  }

  lemma DotAdd(z: Color, a: Color, b: Color)
    ensures Dot(z, Add(a, b)) == Dot(z, a) + Dot(z, b)
  {
  }

  lemma MulSucc(n: nat, d: real)
    ensures Mul((n + 1) as real, d) == Mul(n as real, d) + d
  {
  }

  lemma MulAdd(m: real, a: real, b: real, c: real)
    ensures Mul(m, a + b + c) == Mul(m, a) + Mul(m, b) + Mul(m, c)
  {
  }

  /** Moving a cluster's centre between two points changes its share linearly in the cluster's sum. */
  lemma {:induction false} ShareDifference(samples: seq<Color>, assign: Assignment, c: nat, z: Color, w: Color, n: nat)
    requires n <= |samples| && n <= |assign|
    ensures Share(samples, assign, c, z, n) - Share(samples, assign, c, w, n)
         == 2.0 * (Dot(w, Sum(samples, assign, c, n)) - Dot(z, Sum(samples, assign, c, n)))
            + Mul(Count(assign, c, n) as real, Dot(z, z) - Dot(w, w))
  {
    if n > 0 {
      hide Dot, Mul, Dist2, Add;
      ShareDifference(samples, assign, c, z, w, n - 1);
      if assign[n - 1] == c {
        var x := samples[n - 1];
        DistExpand(x, z);
        DistExpand(x, w);
        DotAdd(z, Sum(samples, assign, c, n - 1), x);
        DotAdd(w, Sum(samples, assign, c, n - 1), x);
        MulSucc(Count(assign, c, n - 1), Dot(z, z) - Dot(w, w));
      }
    }
  }

  /** The mean is the best centre, and any other costs exactly size times its distance to the mean more. */
  lemma MeanIsBest(samples: seq<Color>, assign: Assignment, c: nat, z: Color)
    requires |assign| == |samples| && Size(assign, c) > 0
    ensures Share(samples, assign, c, z, |samples|)
         == Share(samples, assign, c, Mean(samples, assign, c), |samples|)
            + Mul(Size(assign, c) as real, Dist2(Mean(samples, assign, c), z))
  {
    var n, m, w := |samples|, Size(assign, c) as real, Mean(samples, assign, c);
    var s := Sum(samples, assign, c, n);
    ShareDifference(samples, assign, c, z, w, n);
    hide Mul, Dist2;
    DistExpand(w, z);
    ChannelOptimum(s.r, w.r, z.r, m);
    ChannelOptimum(s.g, w.g, z.g, m);
    ChannelOptimum(s.b, w.b, z.b, m);
    MulAdd(m, Mul(z.r, z.r) - Mul(w.r, w.r), Mul(z.g, z.g) - Mul(w.g, w.g), Mul(z.b, z.b) - Mul(w.b, w.b));
    MulAdd(m, Mul(w.r, w.r) - 2.0 * Mul(z.r, w.r) + Mul(z.r, z.r), Mul(w.g, w.g) - 2.0 * Mul(z.g, w.g) + Mul(z.g, z.g),
           Mul(w.b, w.b) - 2.0 * Mul(z.b, w.b) + Mul(z.b, z.b));
  }

  lemma ChannelOptimum(s: real, w: real, z: real, m: real)
    requires m > 0.0 && w == s / m
    ensures 2.0 * (Mul(w, s) - Mul(z, s)) + Mul(m, Mul(z, z) - Mul(w, w))
         == Mul(m, Mul(w, w) - 2.0 * Mul(z, w) + Mul(z, z))
  {
    assert s == m * w;
  }

  /** Moving one centre changes the cost by that cluster's share alone. */
  lemma {:induction false} MoveOne(samples: seq<Color>, assign: Assignment, centers: seq<Color>,
                                   c: nat, z: Color, n: nat)
    requires Assigns(samples, assign, |centers|) && c < |centers| && n <= |samples|
    ensures CostTo(samples, assign, centers[c := z], n) - Share(samples, assign, c, z, n)
         == CostTo(samples, assign, centers, n) - Share(samples, assign, c, centers[c], n)
  {
    if n > 0 {
      MoveOne(samples, assign, centers, c, z, n - 1);
    }
  }

  lemma {:induction false} RecenterSomeDescends(samples: seq<Color>, assign: Assignment, centers: seq<Color>, j: nat)
    requires Assigns(samples, assign, |centers|) && j <= |centers|
    ensures Cost(samples, assign, Recenter(samples, assign, centers)[..j] + centers[j..])
         <= Cost(samples, assign, centers)
  {
    var moved := Recenter(samples, assign, centers);
    if j == 0 {
      assert moved[..0] + centers[0..] == centers;
    } else {
      var before, c := moved[..j - 1] + centers[j - 1..], j - 1;
      RecenterSomeDescends(samples, assign, centers, c);
      assert moved[..j] + centers[j..] == before[c := moved[c]];
      MoveOne(samples, assign, before, c, moved[c], |samples|);
      if Size(assign, c) > 0 {
        MeanIsBest(samples, assign, c, centers[c]);
      }
    }
  }

  /** Re-centring never raises the cost. */
  lemma RecenterDescends(samples: seq<Color>, assign: Assignment, centers: seq<Color>)
    requires Assigns(samples, assign, |centers|)
    ensures Cost(samples, assign, Recenter(samples, assign, centers)) <= Cost(samples, assign, centers)
  {
    var k, moved := |centers|, Recenter(samples, assign, centers);
    RecenterSomeDescends(samples, assign, centers, k);
    assert moved[..k] + centers[k..] == moved;
  }

  // ---------------------------------------------------------------------------
  // Reassignment: nearest centres, lowest index first
  // ---------------------------------------------------------------------------

  ghost function IndexSum(assign: Assignment, n: nat): nat
    requires n <= |assign|
  {
    if n == 0 then 0 else IndexSum(assign, n - 1) + assign[n - 1]
  }

  /** Reassignment never raises the cost; where it keeps the cost, no index goes up. */
  lemma {:induction false} ReassignDescends(samples: seq<Color>, assign: Assignment, centers: seq<Color>, n: nat)
    requires centers != [] && Assigns(samples, assign, |centers|) && n <= |samples|
    ensures CostTo(samples, Reassign(samples, centers), centers, n) <= CostTo(samples, assign, centers, n)
    ensures CostTo(samples, Reassign(samples, centers), centers, n) == CostTo(samples, assign, centers, n)
            ==> forall i :: 0 <= i < n ==> Reassign(samples, centers)[i] <= assign[i]
  {
    hide Dist2, Nearest;
    if n > 0 {
      ReassignDescends(samples, assign, centers, n - 1);
      NearestIsLeast(samples[n - 1], centers);
    }
  }

  lemma {:induction false} IndexSumFalls(a: Assignment, b: Assignment, n: nat)
    requires |a| == |b| && n <= |a|
    requires forall i :: 0 <= i < n ==> a[i] <= b[i]
    ensures IndexSum(a, n) <= IndexSum(b, n)
    ensures IndexSum(a, n) == IndexSum(b, n) ==> a[..n] == b[..n]
  {
    if n > 0 {
      IndexSumFalls(a, b, n - 1);
      assert a[..n] == a[..n - 1] + [a[n - 1]] && b[..n] == b[..n - 1] + [b[n - 1]];
    }
  }

  lemma {:induction false} NearestCostIsTotal(samples: seq<Color>, centers: seq<Color>, n: nat)
    requires centers != [] && n <= |samples|
    ensures CostTo(samples, Reassign(samples, centers), centers, n) == TotalTo(samples, centers, n)
  {
    hide Dist2, Nearest;
    if n > 0 {
      NearestCostIsTotal(samples, centers, n - 1);
    }
  }

  // ---------------------------------------------------------------------------
  // Descent over whole runs
  // ---------------------------------------------------------------------------

  /** One full pass never raises the cost. */
  lemma PassDescends(samples: seq<Color>, assign: Assignment, centers: seq<Color>)
    requires centers != [] && Assigns(samples, assign, |centers|)
    ensures var next := Reassign(samples, centers);
            Cost(samples, next, Recenter(samples, next, centers)) <= Cost(samples, assign, centers)
  {
    var next := Reassign(samples, centers);
    assert Cost(samples, next, centers) <= Cost(samples, assign, centers) by {
      ReassignDescends(samples, assign, centers, |samples|);
    }
    RecenterDescends(samples, next, centers);
  }

  lemma {:induction false} RunDescends(samples: seq<Color>, assign: Assignment, centers: seq<Color>,
                                       iter: nat, maxIter: int)
    requires centers != [] && Assigns(samples, assign, |centers|)
    ensures var o := Run(samples, assign, centers, iter, maxIter);
            && Assigns(samples, o.assign, |o.centers|)
            && Cost(samples, o.assign, o.centers) <= Cost(samples, assign, centers)
    decreases maxIter - iter
  {
    hide Cost, Reassign, Recenter;
    if iter < maxIter {
      var next := Reassign(samples, centers);
      if next != assign || iter == 0 {
        PassDescends(samples, assign, centers);
        RunDescends(samples, next, Recenter(samples, next, centers), iter + 1, maxIter);
      }
    }
  }

  /** After at least one pass the clustering is no worse than the seeding it started from. */
  lemma NeverWorseThanSeeds(samples: seq<Color>, seeds: seq<Color>, maxIter: int)
    requires seeds != [] && maxIter >= 1
    ensures var o := Run(samples, Zeros(|samples|), seeds, 0, maxIter);
            && Assigns(samples, o.assign, |o.centers|)
            && Cost(samples, o.assign, o.centers) <= Total(samples, seeds)
  {
    var first := Reassign(samples, seeds);
    NearestCostIsTotal(samples, seeds, |samples|);
    RecenterDescends(samples, first, seeds);
    RunDescends(samples, first, Recenter(samples, first, seeds), 1, maxIter);
  }

  // ---------------------------------------------------------------------------
  // What the loop stops at
  // ---------------------------------------------------------------------------

  /** Every non-empty cluster's centre is its mean. */
  ghost predicate Centered(samples: seq<Color>, assign: Assignment, centers: seq<Color>)
    requires |assign| == |samples|
  {
    forall c :: 0 <= c < |centers| && Size(assign, c) > 0 ==> centers[c] == Mean(samples, assign, c)
  }

  /** Every sample sits with the lowest-index nearest centre. */
  ghost predicate NearestAssigned(samples: seq<Color>, assign: Assignment, centers: seq<Color>)
    requires Assigns(samples, assign, |centers|)
  {
    forall i, c :: 0 <= i < |samples| && 0 <= c < |centers| ==>
      && Dist2(samples[i], centers[assign[i]]) <= Dist2(samples[i], centers[c])
      && (c < assign[i] ==> Dist2(samples[i], centers[assign[i]]) < Dist2(samples[i], centers[c]))
  }

  lemma RecenterCenters(samples: seq<Color>, assign: Assignment, centers: seq<Color>)
    requires |assign| == |samples|
    ensures Centered(samples, assign, Recenter(samples, assign, centers))
  {
    hide Mean, Size;
  }

  lemma ReassignIsNearest(samples: seq<Color>, centers: seq<Color>)
    requires centers != []
    ensures NearestAssigned(samples, Reassign(samples, centers), centers)
  {
    hide Nearest, Dist2;
    forall i | 0 <= i < |samples| {
      NearestIsLeast(samples[i], centers);
    }
  }

  lemma {:induction false} RunKeepsCentered(samples: seq<Color>, assign: Assignment, centers: seq<Color>,
                                            iter: nat, maxIter: int)
    requires centers != [] && Assigns(samples, assign, |centers|)
    requires iter > 0 ==> Centered(samples, assign, centers)
    ensures var o := Run(samples, assign, centers, iter, maxIter);
            && Assigns(samples, o.assign, |o.centers|)
            && (iter > 0 || maxIter > 0 ==> Centered(samples, o.assign, o.centers))
            && (o.converged ==> NearestAssigned(samples, o.assign, o.centers))
    decreases maxIter - iter
  {
    hide Centered, NearestAssigned, Reassign, Recenter;
    if iter < maxIter {
      var next := Reassign(samples, centers);
      RecenterCenters(samples, next, centers);
      ReassignIsNearest(samples, centers);
      if next != assign || iter == 0 {
        RunKeepsCentered(samples, next, Recenter(samples, next, centers), iter + 1, maxIter);
      }
    }
  }

  /** Every run of at least one pass ends centred; one that leaves by the break ends at a fixed point. */
  lemma ResultIsCentered(samples: seq<Color>, seeds: seq<Color>, maxIter: int)
    requires seeds != [] && maxIter >= 1
    ensures var o := Run(samples, Zeros(|samples|), seeds, 0, maxIter);
            && Assigns(samples, o.assign, |o.centers|)
            && Centered(samples, o.assign, o.centers)
            && (o.converged ==> NearestAssigned(samples, o.assign, o.centers))
  {
    RunKeepsCentered(samples, Zeros(|samples|), seeds, 0, maxIter);
  }
}
