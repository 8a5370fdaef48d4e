/** Lloyd's loop needs no pass limit: no assignment ever comes back, and there are only k^n of them. */
module LloydTermination {
  import opened Colors
  import opened Lloyd
  import opened LloydTheory

  /** The cost of an assignment once its clusters are re-centred; where empty clusters sit is immaterial. */
  ghost function CentroidCost(samples: seq<Color>, assign: Assignment, k: nat): real
    requires Assigns(samples, assign, k)
  {
    Cost(samples, assign, Recenter(samples, assign, seq(k, _ => BLACK)))
  }

  /** Lexicographic descent: cheaper, or equally cheap with a smaller sum of indices. */
  ghost predicate Better(samples: seq<Color>, k: nat, a: Assignment, b: Assignment)
    requires Assigns(samples, a, k) && Assigns(samples, b, k)
  {
    var ca, cb := CentroidCost(samples, a, k), CentroidCost(samples, b, k);
    ca < cb || (ca == cb && IndexSum(a, |a|) < IndexSum(b, |b|))
  }

  lemma {:induction false} CountsItsMember(assign: Assignment, i: nat, n: nat)
    requires i < n <= |assign|
    ensures Count(assign, assign[i], n) > 0
  {
    if i < n - 1 {
      CountsItsMember(assign, i, n - 1);
    }
  }

  lemma {:induction false} CostSeesOnlyUsedCenters(samples: seq<Color>, assign: Assignment,
                                                   c: seq<Color>, d: seq<Color>, n: nat)
    requires |c| == |d| && Assigns(samples, assign, |c|) && n <= |samples|
    requires forall j :: 0 <= j < |c| && Size(assign, j) > 0 ==> c[j] == d[j]
    ensures CostTo(samples, assign, c, n) == CostTo(samples, assign, d, n)
  {
    hide Dist2;
    if n > 0 {
      CountsItsMember(assign, n - 1, |assign|);
      CostSeesOnlyUsedCenters(samples, assign, c, d, n - 1);
    }
  }

  lemma CenteredCost(samples: seq<Color>, assign: Assignment, centers: seq<Color>)
    requires Assigns(samples, assign, |centers|) && Centered(samples, assign, centers)
    ensures Cost(samples, assign, centers) == CentroidCost(samples, assign, |centers|)
  {
    var other := seq(|centers|, _ => BLACK);
    RecenterCenters(samples, assign, other);
    CostSeesOnlyUsedCenters(samples, assign, centers, Recenter(samples, assign, other), |samples|);
  }

  /**
   * From the second pass on, a pass that moves some sample strictly improves on the assignment it
   * started from: the cost falls, or it stays and the sum of assigned indices falls.
   */
  lemma MovingPassImproves(samples: seq<Color>, assign: Assignment, centers: seq<Color>)
    requires centers != [] && Assigns(samples, assign, |centers|)
    requires Centered(samples, assign, centers)
    requires Reassign(samples, centers) != assign
    ensures Better(samples, |centers|, Reassign(samples, centers), assign)
  {
    var n, next := |samples|, Reassign(samples, centers);
    var moved := Recenter(samples, next, centers);
    CenteredCost(samples, assign, centers);
    RecenterCenters(samples, next, centers);
    CenteredCost(samples, next, moved);
    RecenterDescends(samples, next, centers);
    ReassignDescends(samples, assign, centers, n);
    if CentroidCost(samples, next, |centers|) == CentroidCost(samples, assign, |centers|) {
      IndexSumFalls(next, assign, n);
      assert next[..n] == next && assign[..n] == assign;
    }
  }

  // ---------------------------------------------------------------------------
  // There are at most k^n assignments
  // ---------------------------------------------------------------------------

  function Pow(k: nat, n: nat): nat {
    if n == 0 then 1 else Pow(k, n - 1) * k
  }

  /** An assignment read as an n-digit number in base k. */
  ghost function Code(assign: Assignment, k: nat): (code: nat)
    requires forall i :: 0 <= i < |assign| ==> assign[i] < k
    ensures code < Pow(k, |assign|)
  {
    if assign == [] then 0
    else
      var n := |assign| - 1;
      var c := Code(assign[..n], k);
      DigitBound(c, Pow(k, n), assign[n], k);
      c * k + assign[n]
  }

  lemma DigitBound(c: nat, p: nat, d: nat, k: nat)
    requires c < p && d < k
    ensures c * k + d < p * k
  {
    assert (c + 1) * k <= p * k;
  }

  lemma {:induction false} CodeInjective(a: Assignment, b: Assignment, k: nat)
    requires |a| == |b|
    requires forall i :: 0 <= i < |a| ==> a[i] < k && b[i] < k
    requires Code(a, k) == Code(b, k)
    ensures a == b
  {
    if a != [] {
      var n := |a| - 1;
      var ca, cb := Code(a[..n], k), Code(b[..n], k);
      SameDigit(ca, cb, a[n], b[n], k);
      CodeInjective(a[..n], b[..n], k);
      assert a == a[..n] + [a[n]] && b == b[..n] + [b[n]];
    }
  }

  lemma SameDigit(c: nat, d: nat, x: nat, y: nat, k: nat)
    requires x < k && y < k && c * k + x == d * k + y
    ensures c == d && x == y
  {
    if c < d {
      HigherDigitsDecide(c, d, x, y, k);
    } else if d < c {
      HigherDigitsDecide(d, c, y, x, k);
    }
  }

  lemma HigherDigitsDecide(c: nat, d: nat, x: nat, y: nat, k: nat)
    requires c < d && x < k
    ensures c * k + x < d * k + y
  {
    assert (c + 1) * k <= d * k;
  }

  /** A set of assignments has as many codes as members. */
  lemma {:induction false} AsManyCodes(seen: set<Assignment>, n: nat, k: nat) returns (codes: set<nat>)
    requires forall a :: a in seen ==> |a| == n && forall i :: 0 <= i < n ==> a[i] < k
    ensures |codes| == |seen|
    ensures forall c :: c in codes ==> exists a :: a in seen && Code(a, k) == c
  {
    codes := {};
    if seen != {} {
      var a :| a in seen;
      codes := AsManyCodes(seen - {a}, n, k);
      if Code(a, k) in codes {
        var b :| b in seen - {a} && Code(b, k) == Code(a, k);
        CodeInjective(a, b, k);
      }
      codes := codes + {Code(a, k)};
    }
  }

  lemma {:induction false} BelowBound(s: set<nat>, bound: nat)
    requires forall x :: x in s ==> x < bound
    ensures |s| <= bound
  {
    if bound > 0 {
      var top := bound - 1;
      BelowBound(s - {top}, top);
      assert |s - {top}| >= |s| - 1;
    } else {
      assert s == {};
    }
  }

  lemma AtMostPow(seen: set<Assignment>, n: nat, k: nat)
    requires forall a :: a in seen ==> |a| == n && forall i :: 0 <= i < n ==> a[i] < k
    ensures |seen| <= Pow(k, n)
  {
    var codes := AsManyCodes(seen, n, k);
    BelowBound(codes, Pow(k, n));
  }

  // ---------------------------------------------------------------------------
  // The loop stops
  // ---------------------------------------------------------------------------

  /** `seen` holds one distinct assignment per pass so far, none better than the current one. */
  lemma {:induction false} RunStops(samples: seq<Color>, assign: Assignment, centers: seq<Color>,
                                    iter: nat, maxIter: int, seen: set<Assignment>)
    requires centers != [] && Assigns(samples, assign, |centers|)
    requires Centered(samples, assign, centers)
    requires 0 < iter <= maxIter && Pow(|centers|, |samples|) < maxIter
    requires |seen| == iter
    requires forall a :: a in seen ==>
      Assigns(samples, a, |centers|) && (a == assign || Better(samples, |centers|, assign, a))
    ensures Run(samples, assign, centers, iter, maxIter).converged
    decreases maxIter - iter
  {
    hide Better, Centered, Reassign, Recenter;
    var k := |centers|;
    if iter == maxIter {
      AtMostPow(seen, |samples|, k);
    } else {
      var next := Reassign(samples, centers);
      if next != assign {
        MovingPassImproves(samples, assign, centers);
        RecenterCenters(samples, next, centers);
        forall a | a in seen
          ensures Better(samples, k, next, a) && a != next
        {
          BetterIsStrictOrder(samples, k, next, assign, a);
        }
        RunStops(samples, next, Recenter(samples, next, centers), iter + 1, maxIter, seen + {next});
      }
    }
  }

  lemma BetterIsStrictOrder(samples: seq<Color>, k: nat, a: Assignment, b: Assignment, c: Assignment)
    requires Assigns(samples, a, k) && Assigns(samples, b, k) && Assigns(samples, c, k)
    requires Better(samples, k, a, b) && (c == b || Better(samples, k, b, c))
    ensures Better(samples, k, a, c) && a != c
  {
  }

  /** Allowed more than k^n passes, the loop always leaves by its break. */
  lemma StopsUnaided(samples: seq<Color>, seeds: seq<Color>, maxIter: int)
    requires seeds != [] && maxIter > Pow(|seeds|, |samples|)
    ensures Run(samples, Zeros(|samples|), seeds, 0, maxIter).converged
  {
    var first := Reassign(samples, seeds);
    RecenterCenters(samples, first, seeds);
    RunStops(samples, first, Recenter(samples, first, seeds), 1, maxIter, {first});
  }

  lemma {:induction false} ConvergedRunIgnoresLimit(samples: seq<Color>, assign: Assignment, centers: seq<Color>,
                                                    iter: nat, small: int, large: int)
    requires centers != [] && Assigns(samples, assign, |centers|) && small <= large
    requires Run(samples, assign, centers, iter, small).converged
    ensures Run(samples, assign, centers, iter, large) == Run(samples, assign, centers, iter, small)
    decreases small - iter
  {
    hide Reassign, Recenter;
    if iter < small {
      var next := Reassign(samples, centers);
      if next != assign || iter == 0 {
        ConvergedRunIgnoresLimit(samples, next, Recenter(samples, next, centers), iter + 1, small, large);
      }
    }
  }

  /** So a loop without any limit is well defined: all limits above k^n give one and the same outcome. */
  lemma LimitIsImmaterial(samples: seq<Color>, seeds: seq<Color>, maxIter: int)
    requires seeds != [] && maxIter > Pow(|seeds|, |samples|)
    ensures Run(samples, Zeros(|samples|), seeds, 0, maxIter)
         == Run(samples, Zeros(|samples|), seeds, 0, Pow(|seeds|, |samples|) + 1)
  {
    var least := Pow(|seeds|, |samples|) + 1;
    StopsUnaided(samples, seeds, least);
    ConvergedRunIgnoresLimit(samples, Zeros(|samples|), seeds, 0, least, maxIter);
  }

  // ---------------------------------------------------------------------------
  // No assignment comes back
  // ---------------------------------------------------------------------------

  /** Assignment and centres after `n` full passes. */
  function After(samples: seq<Color>, seeds: seq<Color>, n: nat): (r: (Assignment, seq<Color>))
    requires seeds != []
    ensures |r.0| == |samples| && |r.1| == |seeds|
  {
    if n == 0 then (Zeros(|samples|), seeds)
    else
      var (_, centers) := After(samples, seeds, n - 1);
      var next := Reassign(samples, centers);
      (next, Recenter(samples, next, centers))
  }

  /** Pass `n`, counted from 0, moves some sample. */
  ghost predicate Moves(samples: seq<Color>, seeds: seq<Color>, n: nat)
    requires seeds != []
  {
    var (assign, centers) := After(samples, seeds, n);
    Reassign(samples, centers) != assign
  }

  lemma AfterIsCentered(samples: seq<Color>, seeds: seq<Color>, n: nat)
    requires seeds != [] && n > 0
    ensures var (assign, centers) := After(samples, seeds, n);
            Assigns(samples, assign, |seeds|) && Centered(samples, assign, centers)
  {
    var (_, centers) := After(samples, seeds, n - 1);
    RecenterCenters(samples, Reassign(samples, centers), centers);
  }

  /** While every pass from i on moves a sample, each later assignment is better than assignment i, so none recurs. */
  lemma {:induction false} NoAssignmentRecurs(samples: seq<Color>, seeds: seq<Color>, i: nat, j: nat)
    requires seeds != [] && 0 < i < j
    requires forall n :: i <= n < j ==> Moves(samples, seeds, n)
    ensures var (a, _) := After(samples, seeds, i);
            var (b, _) := After(samples, seeds, j);
            && Assigns(samples, a, |seeds|) && Assigns(samples, b, |seeds|)
            && Better(samples, |seeds|, b, a) && b != a
  {
    hide Better, Centered, Reassign, Recenter;
    var (a, _) := After(samples, seeds, i);
    var (last, centers) := After(samples, seeds, j - 1);
    AfterIsCentered(samples, seeds, i);
    AfterIsCentered(samples, seeds, j - 1);
    AfterIsCentered(samples, seeds, j);
    assert Moves(samples, seeds, j - 1);
    MovingPassImproves(samples, last, centers);
    if i < j - 1 {
      NoAssignmentRecurs(samples, seeds, i, j - 1);
    }
    BetterIsStrictOrder(samples, |seeds|, Reassign(samples, centers), last, a);
  }

  /** The loop itself goes through these passes: it leaves after the first that moves nothing, or at the limit. */
  lemma {:induction false} RunGoesThroughPasses(samples: seq<Color>, seeds: seq<Color>, n: nat, maxIter: nat)
    requires seeds != [] && n <= maxIter
    requires forall i :: 0 < i < n ==> Moves(samples, seeds, i)
    ensures var (assign, centers) := After(samples, seeds, n);
            Run(samples, Zeros(|samples|), seeds, 0, maxIter) ==
              if n == maxIter then Outcome(assign, centers, false)
              else if n > 0 && !Moves(samples, seeds, n) then Outcome(assign, centers, true)
              else Run(samples, assign, centers, n, maxIter)
  {
    hide Reassign, Recenter;
    if n > 0 {
      RunGoesThroughPasses(samples, seeds, n - 1, maxIter);
    }
  }

  /**
   * What one full pass does: every sample goes to its lowest-index nearest old centre, then every
   * cluster with samples gets their mean as centre, and every one without keeps its old centre.
   */
  lemma PassMeans(samples: seq<Color>, seeds: seq<Color>, n: nat)
    requires seeds != []
    ensures var (_, before) := After(samples, seeds, n);
            var (assign, centers) := After(samples, seeds, n + 1);
            && Assigns(samples, assign, |seeds|)
            && NearestAssigned(samples, assign, before)
            && Centered(samples, assign, centers)
            && forall c :: 0 <= c < |seeds| && c !in assign ==> centers[c] == before[c]
  {
    hide NearestAssigned, Centered, Reassign, Recenter;
    var (_, before) := After(samples, seeds, n);
    var next := Reassign(samples, before);
    ReassignIsNearest(samples, before);
    RecenterCenters(samples, next, before);
    EmptyStays(samples, next, before);
  }
}
