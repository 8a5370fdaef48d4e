/** Lloyd's iteration: the loop over arrays, and the passes it is proved to perform. */
module Lloyd {
  import opened Colors

  type Assignment = seq<nat>

  // ---------------------------------------------------------------------------
  // The passes as functions
  // ---------------------------------------------------------------------------

  ghost predicate Assigns(samples: seq<Color>, assign: Assignment, k: nat) {
    && |assign| == |samples|
    && forall i :: 0 <= i < |assign| ==> assign[i] < k
  }

  function Reassign(samples: seq<Color>, centers: seq<Color>): (a: Assignment)
    requires centers != []
    ensures Assigns(samples, a, |centers|)
  {
    seq(|samples|, i requires 0 <= i < |samples| => Nearest(samples[i], centers))
  }

  /** Number of the first `n` samples that belong to cluster `c`. */
  function Count(assign: Assignment, c: nat, n: nat): nat
    requires n <= |assign|
  {
    if n == 0 then 0 else Count(assign, c, n - 1) + if assign[n - 1] == c then 1 else 0
  }

  function Add(a: Color, b: Color): Color {
    Color(a.r + b.r, a.g + b.g, a.b + b.b)
  }

  /** Channel-wise sum of those of the first `n` samples that belong to cluster `c`. */
  function Sum(samples: seq<Color>, assign: Assignment, c: nat, n: nat): Color
    requires n <= |samples| && n <= |assign|
  {
    if n == 0 then BLACK
    else
      var s := Sum(samples, assign, c, n - 1);
      if assign[n - 1] == c then Add(s, samples[n - 1]) else s
  }

  function Size(assign: Assignment, c: nat): nat {
    Count(assign, c, |assign|)
  }

  function Mean(samples: seq<Color>, assign: Assignment, c: nat): Color
    requires |assign| == |samples| && Size(assign, c) > 0
  {
    var s, m := Sum(samples, assign, c, |samples|), Size(assign, c) as real;
    Color(s.r / m, s.g / m, s.b / m)
  }

  /** Every non-empty cluster's centre moves to its mean; the others stay. */
  function Recenter(samples: seq<Color>, assign: Assignment, centers: seq<Color>): (r: seq<Color>)
    requires |assign| == |samples|
    ensures |r| == |centers|
  {
    seq(|centers|, c requires 0 <= c < |centers| =>
      if Size(assign, c) > 0 then Mean(samples, assign, c) else centers[c])
  }

  /** The end of a run: `converged` says that it left by the break. */
  datatype Outcome = Outcome(assign: Assignment, centers: seq<Color>, converged: bool)

  /** What the loop does from pass `iter` on. */
  function Run(samples: seq<Color>, assign: Assignment, centers: seq<Color>, iter: nat, maxIter: int): (o: Outcome)
    requires centers != [] && |assign| == |samples|
    ensures |o.centers| == |centers| && |o.assign| == |samples|
    decreases maxIter - iter
  {
    if iter >= maxIter then Outcome(assign, centers, false)
    else
      var next := Reassign(samples, centers);
      if next == assign && iter > 0 then Outcome(assign, centers, true)
      else Run(samples, next, Recenter(samples, next, centers), iter + 1, maxIter)
  }

  function Zeros(n: nat): Assignment {
    seq(n, _ => 0)
  }

  /** The samples of a cluster, as their indices among the first `n`. */
  ghost function Members(assign: Assignment, c: nat, n: nat): set<nat>
    requires n <= |assign|
  {
    set i: nat | i < n && assign[i] == c
  }

  /** The count of a cluster is the number of its samples. */
  lemma {:induction false} CountIsMembers(assign: Assignment, c: nat, n: nat)
    requires n <= |assign|
    ensures Count(assign, c, n) == |Members(assign, c, n)|
  {
    if n > 0 {
      CountIsMembers(assign, c, n - 1);
      if assign[n - 1] == c {
        assert Members(assign, c, n) == Members(assign, c, n - 1) + {n - 1};
      } else {
        assert Members(assign, c, n) == Members(assign, c, n - 1);
      }
    }
  }

  /** The counts are the numbers of samples of the clusters, in order. */
  ghost predicate CountsMembers(counts: seq<nat>, assign: Assignment) {
    forall c :: 0 <= c < |counts| ==> counts[c] == |set i: nat | i < |assign| && assign[i] == c|
  }

  lemma SizesCountMembers(assign: Assignment, k: nat)
    ensures CountsMembers(Sizes(assign, k), assign)
  {
    forall c | 0 <= c < k
      ensures Size(assign, c) == |set i: nat | i < |assign| && assign[i] == c|
    {
      CountIsMembers(assign, c, |assign|);
    }
  }

  /** A cluster without samples keeps its centre. */
  lemma EmptyStays(samples: seq<Color>, assign: Assignment, centers: seq<Color>)
    requires |assign| == |samples|
    ensures forall c :: 0 <= c < |centers| && c !in assign ==> Recenter(samples, assign, centers)[c] == centers[c]
  {
    forall c | 0 <= c < |centers| && c !in assign
      ensures Size(assign, c) == 0
    {
      CountIsMembers(assign, c, |assign|);
      assert Members(assign, c, |assign|) == {};
    }
  }

  // ---------------------------------------------------------------------------
  // The loop over arrays
  // ---------------------------------------------------------------------------

  function Sizes(assign: Assignment, k: nat): seq<nat> {
    seq(k, c requires 0 <= c < k => Size(assign, c))
  }

  /** Scan of all centres for one sample: a later centre wins only when strictly nearer. */
  method FindNearest(p: Color, centers: array<Color>) returns (best: nat)
    requires centers.Length > 0
    ensures best == Nearest(p, centers[..])
  {
    best := 0;
    var bestDist := Dist2(p, centers[0]);
    for c := 1 to centers.Length
      invariant best < c
      invariant bestDist == Dist2(p, centers[best])
      invariant best == Nearest(p, centers[..c])
    {
      assert centers[..c + 1][..c] == centers[..c];
      var d := Dist2(p, centers[c]);
      if d < bestDist {
        bestDist := d;
        best := c;
      }
    }
    assert centers[..centers.Length] == centers[..];
  }

  /** One reassignment sweep; `changed` says whether any sample moved. */
  method AssignNearest(samples: seq<Color>, centers: array<Color>, assign: array<nat>) returns (changed: bool)
    requires centers.Length > 0 && assign.Length == |samples|
    requires centers as object != assign
    modifies assign
    ensures assign[..] == Reassign(samples, centers[..])
    ensures changed <==> assign[..] != old(assign[..])
  {
    changed := false;
    ghost var before, target := assign[..], Reassign(samples, centers[..]);
    ghost var moved := 0;
    for i := 0 to |samples|
      invariant centers[..] == old(centers[..])
      invariant forall j :: 0 <= j < i ==> assign[j] == target[j]
      invariant forall j :: i <= j < |samples| ==> assign[j] == before[j]
      invariant !changed ==> forall j :: 0 <= j < i ==> target[j] == before[j]
      invariant changed ==> moved < i && target[moved] != before[moved]
    {
      var best := FindNearest(samples[i], centers);
      if assign[i] != best {
        assign[i] := best;
        changed := true;
        moved := i;
      }
    }
  }

  /** Per-cluster sums and sizes of the current assignment. */
  method Accumulate(samples: seq<Color>, assign: array<nat>, sum: array<Color>, counts: array<nat>)
    requires assign.Length == |samples| && counts.Length == sum.Length
    requires Assigns(samples, assign[..], sum.Length)
    requires forall c :: 0 <= c < sum.Length ==> sum[c] == BLACK && counts[c] == 0
    requires counts != assign && sum as object != assign && sum as object != counts
    modifies sum, counts
    ensures forall c :: 0 <= c < sum.Length ==> sum[c] == Sum(samples, assign[..], c, |samples|)
    ensures counts[..] == Sizes(assign[..], sum.Length)
  {
    ghost var a := assign[..];
    for i := 0 to |samples|
      invariant assign[..] == a
      invariant forall c :: 0 <= c < sum.Length ==> counts[c] == Count(a, c, i)
      invariant forall c :: 0 <= c < sum.Length ==> sum[c] == Sum(samples, a, c, i)
    {
      var c := assign[i];
      assert c == a[i] < sum.Length;
      sum[c] := Add(sum[c], samples[i]);
      counts[c] := counts[c] + 1;
    }
  }

  /** One re-centring sweep: sums, sizes, then the means of the non-empty clusters. */
  method MoveToMeans(samples: seq<Color>, centers: array<Color>, assign: array<nat>, counts: array<nat>)
    requires assign.Length == |samples| && counts.Length == centers.Length
    requires Assigns(samples, assign[..], centers.Length)
    requires counts != assign && centers as object != assign && centers as object != counts
    modifies centers, counts
    ensures centers[..] == Recenter(samples, assign[..], old(centers[..]))
    ensures counts[..] == Sizes(assign[..], centers.Length)
    ensures forall c :: 0 <= c < centers.Length && c !in assign[..] ==> centers[c] == old(centers[c])
    ensures CountsMembers(counts[..], assign[..])
  {
    hide CountsMembers;
    var k := centers.Length;
    var sum := new Color[k](_ => BLACK);
    forall c | 0 <= c < k {
      counts[c] := 0;
    }
    Accumulate(samples, assign, sum, counts);
    ghost var a, target := assign[..], Recenter(samples, assign[..], centers[..]);
    for c := 0 to k
      invariant assign[..] == a && counts[..] == Sizes(a, k)
      invariant forall j :: 0 <= j < k ==> sum[j] == Sum(samples, a, j, |samples|)
      invariant forall j :: 0 <= j < c ==> centers[j] == target[j]
      invariant forall j :: c <= j < k ==> centers[j] == old(centers[j])
    {
      assert counts[c] == Size(a, c);
      if counts[c] > 0 {
        var m := counts[c] as real;
        centers[c] := Color(sum[c].r / m, sum[c].g / m, sum[c].b / m);
      }
    }
    assert centers[..] == target;
    EmptyStays(samples, a, old(centers[..]));
    SizesCountMembers(a, k);
  }

  /** One pass of the loop; `stop` is the break of a pass after the first that moved no sample. */
  method Pass(samples: seq<Color>, centers: array<Color>, assign: array<nat>, counts: array<nat>, iter: nat)
    returns (stop: bool)
    requires centers.Length > 0 && assign.Length == |samples| && counts.Length == centers.Length
    requires counts != assign && centers as object != assign && centers as object != counts
    modifies centers, assign, counts
    ensures assign[..] == Reassign(samples, old(centers[..]))
    ensures stop <==> iter > 0 && assign[..] == old(assign[..])
    ensures stop ==> centers[..] == old(centers[..]) && counts[..] == old(counts[..])
    ensures !stop ==> centers[..] == Recenter(samples, assign[..], old(centers[..]))
    ensures !stop ==> counts[..] == Sizes(assign[..], centers.Length)
    ensures !stop ==> forall c :: 0 <= c < centers.Length && c !in assign[..] ==> centers[c] == old(centers[c])
    ensures !stop ==> CountsMembers(counts[..], assign[..])
  {
    var changed := AssignNearest(samples, centers, assign);
    stop := !changed && iter > 0;
    if !stop {
      MoveToMeans(samples, centers, assign, counts);
    }
  }

  /**
   * The whole loop. It performs exactly the passes of `Run`; the sizes it returns are those of
   * the final assignment, unless no pass ran at all.
   */
  method Cluster(samples: seq<Color>, centers: array<Color>, maxIter: int)
    returns (counts: array<nat>, ghost outcome: Outcome)
    requires centers.Length > 0
    modifies centers
    ensures outcome == Run(samples, Zeros(|samples|), old(centers[..]), 0, maxIter)
    ensures centers[..] == outcome.centers
    ensures fresh(counts)
    ensures counts[..] == if maxIter > 0 then Sizes(outcome.assign, centers.Length) else Zeros(centers.Length)
    ensures maxIter > 0 ==> CountsMembers(counts[..], outcome.assign)
    ensures maxIter <= 0 ==> centers[..] == old(centers[..]) && forall c :: 0 <= c < counts.Length ==> counts[c] == 0
  {
    hide CountsMembers;
    var k := centers.Length;
    var assign := new nat[|samples|](_ => 0);
    counts := new nat[k](_ => 0);
    ghost var a, c := Zeros(|samples|), centers[..];
    outcome := Run(samples, a, c, 0, maxIter);
    var iter, stop := 0, false;
    while iter < maxIter && !stop
      invariant stop ==> iter < maxIter
      invariant assign[..] == a && centers[..] == c
      invariant if stop then outcome == Outcome(a, c, true) else outcome == Run(samples, a, c, iter, maxIter)
      invariant iter == 0 ==> counts[..] == Zeros(k) && !stop
      invariant iter > 0 ==> counts[..] == Sizes(a, k) && iter <= maxIter
      decreases maxIter - iter, !stop
    {
      stop := Pass(samples, centers, assign, counts, iter);
      if !stop {
        a := Reassign(samples, c);
        c := Recenter(samples, a, c);
        iter := iter + 1;
      }
    }
    SizesCountMembers(outcome.assign, k);
  }
}
