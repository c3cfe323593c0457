/** Lloyd's iteration over values: distances, centroids, the total squared distance, and why
    neither half of the iteration can increase it. */
module KMeansModel {

  datatype Point = Point(x: real, y: real)

  /** A centre. The mean of a cluster without points is 0.0 / 0, which is not a number. */
  datatype Mean = At(p: Point) | NotANumber

  // Products and quotients under names of their own, so that equal operands are recognised.

  function Times(a: real, b: real): real {
    a * b
  }

  function Square(v: real): real {
    Times(v, v)
  }

  function Over(s: real, n: real): real
    requires n != 0.0
  {
    s / n
  }

  /** Squared distance. */
  function D2(p: Point, q: Point): real {
    Square(p.x - q.x) + Square(p.y - q.y)
  }

  /** What is known of the square root. */
  ghost predicate IsSqrt(sqrt: real -> real) {
    forall v: real | v >= 0.0 :: sqrt(v) >= 0.0 && Square(sqrt(v)) == v
  }

  /** Nothing more is asked of it than to be the nonnegative root of every nonnegative number. */
  lemma RootIsSqrt(root: real -> real)
    requires forall v: real | v >= 0.0 :: root(v) >= 0.0 && root(v) * root(v) == v
    ensures IsSqrt(root)
  {
  }

  function Distance(sqrt: real -> real, p: Point, q: Point): real {
    sqrt(D2(p, q))
  }

  /** d is the Euclidean distance: nonnegative, and the root of the squared differences. */
  ghost predicate Euclidean(d: real, p: Point, q: Point) {
    d >= 0.0 && d * d == (p.x - q.x) * (p.x - q.x) + (p.y - q.y) * (p.y - q.y)
  }

  lemma DistanceIsEuclidean(sqrt: real -> real, p: Point, q: Point)
    requires IsSqrt(sqrt)
    ensures Euclidean(Distance(sqrt, p, q), p, q)
  {
    D2NonNegative(p, q);
    assert Square(Distance(sqrt, p, q)) == D2(p, q);
  }

  lemma SquareNonNegative(v: real)
    ensures Square(v) >= 0.0
  {
  }

  lemma D2NonNegative(p: Point, q: Point)
    ensures D2(p, q) >= 0.0
  {
    SquareNonNegative(p.x - q.x);
    SquareNonNegative(p.y - q.y);
  }

  lemma SquareMonotone(a: real, b: real)
    requires 0.0 <= a <= b
    ensures Square(a) <= Square(b)
  {
    assert a * a <= a * b;
    assert a * b <= b * b;
  }

  /** Comparing distances compares squared distances. */
  lemma DistanceOrder(sqrt: real -> real, p: Point, q: Point, r: Point)
    requires IsSqrt(sqrt) && Distance(sqrt, p, q) <= Distance(sqrt, p, r)
    ensures D2(p, q) <= D2(p, r)
  {
    D2NonNegative(p, q);
    D2NonNegative(p, r);
    SquareMonotone(Distance(sqrt, p, q), Distance(sqrt, p, r));
  }

  // ----- sums over the points of a cluster -----

  function Count(center: seq<int>, j: int): nat {
    if center == [] then 0
    else Count(center[..|center| - 1], j) + (if center[|center| - 1] == j then 1 else 0)
  }

  function SumX(ps: seq<Point>, center: seq<int>, j: int): real
    requires |ps| == |center|
  {
    if ps == [] then 0.0
    else
      var i := |ps| - 1;
      SumX(ps[..i], center[..i], j) + (if center[i] == j then ps[i].x else 0.0)
  }

  function SumY(ps: seq<Point>, center: seq<int>, j: int): real
    requires |ps| == |center|
  {
    if ps == [] then 0.0
    else
      var i := |ps| - 1;
      SumY(ps[..i], center[..i], j) + (if center[i] == j then ps[i].y else 0.0)
  }

  /** The squared distances of cluster j to a point c. */
  function ClusterCost(ps: seq<Point>, center: seq<int>, j: int, c: Point): real
    requires |ps| == |center|
  {
    if ps == [] then 0.0
    else
      var i := |ps| - 1;
      ClusterCost(ps[..i], center[..i], j, c) + (if center[i] == j then D2(ps[i], c) else 0.0)
  }

  /** The mean of cluster j. */
  function Centroid(ps: seq<Point>, center: seq<int>, j: int): Mean
    requires |ps| == |center|
  {
    var n := Count(center, j);
    if n == 0 then NotANumber
    else At(Point(Over(SumX(ps, center, j), n as real), Over(SumY(ps, center, j), n as real)))
  }

  function Centroids(ps: seq<Point>, center: seq<int>, k: nat): (ms: seq<Mean>)
    requires |ps| == |center|
    ensures |ms| == k
  {
    seq(k, j requires 0 <= j < k && |ps| == |center| => Centroid(ps, center, j))
  }

  // ----- the centroid minimises -----

  lemma ExpandSquare(p: real, c: real, m: real)
    ensures Square(p - c) == Square(p - m) + Square(c - m) + 2.0 * Times(m - c, p - m)
  {
  }

  /** What n points with coordinate sums sx and sy cost more at c than at m. */
  function Excess(n: real, sx: real, sy: real, c: Point, m: Point): real {
    Times(n, D2(c, m)) + 2.0 * (Times(m.x - c.x, sx - Times(n, m.x)) + Times(m.y - c.y, sy - Times(n, m.y)))
  }

  lemma TimesStep(n: real, d: real, u: real, s: real, m: real, x: real)
    ensures Times(n + 1.0, d) == Times(n, d) + d
    ensures Times(u, s + x - Times(n + 1.0, m)) == Times(u, s - Times(n, m)) + Times(u, x - m)
  {
  }

  lemma ExcessOfOneMore(n: real, sx: real, sy: real, c: Point, m: Point, p: Point)
    ensures Excess(n + 1.0, sx + p.x, sy + p.y, c, m) == Excess(n, sx, sy, c, m) + D2(p, c) - D2(p, m)
  {
    ExpandSquare(p.x, c.x, m.x);
    ExpandSquare(p.y, c.y, m.y);
    TimesStep(n, D2(c, m), m.x - c.x, sx, m.x, p.x);
    TimesStep(n, D2(c, m), m.y - c.y, sy, m.y, p.y);
  }

  lemma TimesZero(u: real)
    ensures Times(u, 0.0) == 0.0 == Times(0.0, u)
  {
  }

  lemma NoExcess(c: Point, m: Point)
    ensures Excess(0.0, 0.0, 0.0, c, m) == 0.0
  {
    TimesZero(D2(c, m));
    TimesZero(m.x);
    TimesZero(m.y);
    TimesZero(m.x - c.x);
    TimesZero(m.y - c.y);
  }

  /** Moving the reference point of a cluster from m to c. */
  lemma {:induction false} CostShift(ps: seq<Point>, center: seq<int>, j: int, c: Point, m: Point)
    requires |ps| == |center|
    ensures ClusterCost(ps, center, j, c) - ClusterCost(ps, center, j, m) ==
            Excess(Count(center, j) as real, SumX(ps, center, j), SumY(ps, center, j), c, m)
  {
    if ps == [] {
      NoExcess(c, m);
    } else {
      var i := |ps| - 1;
      CostShift(ps[..i], center[..i], j, c, m);
      if center[i] == j {
        ExcessOfOneMore(Count(center[..i], j) as real, SumX(ps[..i], center[..i], j), SumY(ps[..i], center[..i], j),
                        c, m, ps[i]);
        assert Count(center, j) as real == Count(center[..i], j) as real + 1.0;
      }
    }
  }

  lemma QuotientTimes(s: real, n: real)
    requires n != 0.0
    ensures Times(n, Over(s, n)) == s
  {
  }

  /** A cluster's cost at any point is its cost at the mean plus its size times the squared
      distance to the mean. */
  lemma CostAroundMean(ps: seq<Point>, center: seq<int>, j: int, c: Point, m: Point)
    requires |ps| == |center| && Centroid(ps, center, j) == At(m)
    ensures ClusterCost(ps, center, j, c) == ClusterCost(ps, center, j, m) + Times(Count(center, j) as real, D2(c, m))
  {
    CostShift(ps, center, j, c, m);
    QuotientTimes(SumX(ps, center, j), Count(center, j) as real);
    QuotientTimes(SumY(ps, center, j), Count(center, j) as real);
    TimesZero(m.x - c.x);
    TimesZero(m.y - c.y);
  }

  lemma TimesPositive(a: real, b: real)
    requires a > 0.0 && b > 0.0
    ensures Times(a, b) > 0.0
  {
  }

  lemma SquareEven(v: real)
    ensures Square(-v) == Square(v)
  {
  }

  lemma SquarePositive(v: real)
    requires v != 0.0
    ensures Square(v) > 0.0
  {
    if v > 0.0 {
      TimesPositive(v, v);
    } else {
      TimesPositive(-v, -v);
      SquareEven(v);
    }
  }

  lemma D2Positive(p: Point, q: Point)
    requires p != q
    ensures D2(p, q) > 0.0
  {
    assert p == Point(p.x, p.y) && q == Point(q.x, q.y);
    SquareNonNegative(p.x - q.x);
    SquareNonNegative(p.y - q.y);
    if p.x != q.x {
      SquarePositive(p.x - q.x);
    } else {
      SquarePositive(p.y - q.y);
    }
  }

  lemma ScaleAtLeastOne(n: real, d: real)
    requires n >= 1.0 && d >= 0.0
    ensures Times(n, d) >= d
  {
    assert (n - 1.0) * d >= 0.0;
  }

  /** So the mean is the one minimiser. */
  lemma MeanIsMinimiser(ps: seq<Point>, center: seq<int>, j: int, c: Point, m: Point)
    requires |ps| == |center| && Centroid(ps, center, j) == At(m)
    ensures ClusterCost(ps, center, j, m) <= ClusterCost(ps, center, j, c)
    ensures c != m ==> ClusterCost(ps, center, j, m) < ClusterCost(ps, center, j, c)
  {
    CostAroundMean(ps, center, j, c, m);
    D2NonNegative(c, m);
    if c != m {
      D2Positive(c, m);
    }
    ScaleAtLeastOne(Count(center, j) as real, D2(c, m));
  }

  // ----- the total over all points -----

  /** Every point is assigned to a centre that is a point. */
  ghost predicate Assigned(means: seq<Mean>, center: seq<int>) {
    forall i | 0 <= i < |center| :: 0 <= center[i] < |means| && means[center[i]].At?
  }

  ghost function TotalCost(ps: seq<Point>, means: seq<Mean>, center: seq<int>): real
    requires |ps| == |center| && Assigned(means, center)
  {
    if ps == [] then 0.0
    else
      var i := |ps| - 1;
      TotalCost(ps[..i], means, center[..i]) + D2(ps[i], means[center[i]].p)
  }

  /** The cost of cluster j at its own centre; a centre that is no point has no points. */
  ghost function CostAt(ps: seq<Point>, center: seq<int>, j: int, m: Mean): real
    requires |ps| == |center|
  {
    if m.At? then ClusterCost(ps, center, j, m.p) else 0.0
  }

  ghost function CostByCluster(ps: seq<Point>, means: seq<Mean>, center: seq<int>, k: nat): real
    requires |ps| == |center| && k <= |means|
  {
    if k == 0 then 0.0 else CostByCluster(ps, means, center, k - 1) + CostAt(ps, center, k - 1, means[k - 1])
  }

  lemma {:induction false} CostByClusterStep(ps: seq<Point>, means: seq<Mean>, center: seq<int>, k: nat)
    requires |ps| == |center| > 0 && k <= |means| && Assigned(means, center)
    ensures var i := |ps| - 1;
            CostByCluster(ps, means, center, k) ==
            CostByCluster(ps[..i], means, center[..i], k)
            + (if center[i] < k then D2(ps[i], means[center[i]].p) else 0.0)
  {
    if k > 0 {
      CostByClusterStep(ps, means, center, k - 1);
    }
  }

  lemma {:induction false} NoPointsNoCost(means: seq<Mean>, k: nat)
    requires k <= |means|
    ensures CostByCluster([], means, [], k) == 0.0
  {
    if k > 0 {
      NoPointsNoCost(means, k - 1);
    }
  }

  /** Summing point by point or cluster by cluster is the same. */
  lemma {:induction false} CostSplitsByCluster(ps: seq<Point>, means: seq<Mean>, center: seq<int>)
    requires |ps| == |center| && Assigned(means, center)
    ensures TotalCost(ps, means, center) == CostByCluster(ps, means, center, |means|)
  {
    if ps == [] {
      NoPointsNoCost(means, |means|);
    } else {
      var i := |ps| - 1;
      CostSplitsByCluster(ps[..i], means, center[..i]);
      CostByClusterStep(ps, means, center, |means|);
    }
  }

  lemma {:induction false} CountPositive(center: seq<int>, j: int, i: nat)
    requires i < |center| && center[i] == j
    ensures Count(center, j) > 0
  {
    if i < |center| - 1 {
      CountPositive(center[..|center| - 1], j, i);
    }
  }

  lemma {:induction false} EmptyClusterCostsNothing(ps: seq<Point>, center: seq<int>, j: int, c: Point)
    requires |ps| == |center| && Count(center, j) == 0
    ensures ClusterCost(ps, center, j, c) == 0.0
  {
    if ps != [] {
      EmptyClusterCostsNothing(ps[..|ps| - 1], center[..|ps| - 1], j, c);
    }
  }

  lemma {:induction false} MissingClusterIsEmpty(center: seq<int>, j: int)
    requires j !in center
    ensures Count(center, j) == 0
  {
    if center != [] {
      MissingClusterIsEmpty(center[..|center| - 1], j);
    }
  }

  lemma {:induction false} CentroidsNoWorse(ps: seq<Point>, means: seq<Mean>, center: seq<int>, k: nat)
    requires |ps| == |center| && Assigned(means, center) && k <= |means|
    ensures CostByCluster(ps, Centroids(ps, center, |means|), center, k) <= CostByCluster(ps, means, center, k)
  {
    if k > 0 {
      var j := k - 1;
      CentroidsNoWorse(ps, means, center, j);
      var m := Centroid(ps, center, j);
      assert Centroids(ps, center, |means|)[j] == m;
      if Count(center, j) == 0 {
        if means[j].At? {
          EmptyClusterCostsNothing(ps, center, j, means[j].p);
        }
      } else if means[j].At? {
        MeanIsMinimiser(ps, center, j, means[j].p, m.p);
      } else {
        MissingClusterIsEmpty(center, j);
      }
    }
  }

  lemma CentroidsAssigned(ps: seq<Point>, means: seq<Mean>, center: seq<int>)
    requires |ps| == |center| && Assigned(means, center)
    ensures Assigned(Centroids(ps, center, |means|), center)
  {
    forall i | 0 <= i < |center|
      ensures Centroids(ps, center, |means|)[center[i]].At?
    {
      CountPositive(center, center[i], i);
    }
  }

  /** Moving every centre to its cluster's mean does not increase the total squared distance. */
  lemma MeanStepDescends(ps: seq<Point>, means: seq<Mean>, center: seq<int>)
    requires |ps| == |center| && Assigned(means, center)
    ensures Assigned(Centroids(ps, center, |means|), center)
    ensures TotalCost(ps, Centroids(ps, center, |means|), center) <= TotalCost(ps, means, center)
  {
    CentroidsAssigned(ps, means, center);
    CostSplitsByCluster(ps, means, center);
    CostSplitsByCluster(ps, Centroids(ps, center, |means|), center);
    CentroidsNoWorse(ps, means, center, |means|);
  }

  // ----- assigning points to centres -----

  /** The initial minimum of the search; no distance in the workload reaches it. */
  const SENTINEL: real := 9999.0

  /** j is the lowest-indexed nearest centre, and is nearer than the sentinel. */
  ghost predicate Nearest(sqrt: real -> real, p: Point, means: seq<Mean>, j: int) {
    && 0 <= j < |means| && means[j].At?
    && Distance(sqrt, p, means[j].p) < 9999.0
    && (forall u | 0 <= u < |means| && means[u].At? ::
          Distance(sqrt, p, means[j].p) <= Distance(sqrt, p, means[u].p))
    && (forall u | 0 <= u < j && means[u].At? ::
          Distance(sqrt, p, means[j].p) < Distance(sqrt, p, means[u].p))
  }

  ghost predicate OutOfReach(sqrt: real -> real, p: Point, means: seq<Mean>) {
    forall u | 0 <= u < |means| && means[u].At? :: Distance(sqrt, p, means[u].p) >= 9999.0
  }

  /** What one point's search leaves: the nearest centre, or, out of reach of all of them, the
      old assignment. */
  ghost predicate Reassigned(sqrt: real -> real, p: Point, means: seq<Mean>, before: int, after: int) {
    Nearest(sqrt, p, means, after) || (OutOfReach(sqrt, p, means) && after == before)
  }

  ghost predicate Clustered(sqrt: real -> real, ps: seq<Point>, means: seq<Mean>, before: seq<int>, after: seq<int>) {
    && |ps| == |before| == |after|
    && forall i | 0 <= i < |ps| :: Reassigned(sqrt, ps[i], means, before[i], after[i])
  }

  /** The search's outcome is fully determined. */
  lemma ClusteringIsUnique(sqrt: real -> real, ps: seq<Point>, means: seq<Mean>,
                           before: seq<int>, a: seq<int>, b: seq<int>)
    requires Clustered(sqrt, ps, means, before, a) && Clustered(sqrt, ps, means, before, b)
    ensures a == b
  {
    forall i | 0 <= i < |ps|
      ensures a[i] == b[i]
    {
      assert Reassigned(sqrt, ps[i], means, before[i], a[i]) && Reassigned(sqrt, ps[i], means, before[i], b[i]);
    }
  }

  /** Reassigning the points does not increase the total squared distance. */
  lemma {:induction false} ClusterStepDescends(sqrt: real -> real, ps: seq<Point>, means: seq<Mean>,
                                               before: seq<int>, after: seq<int>)
    requires IsSqrt(sqrt) && Clustered(sqrt, ps, means, before, after) && Assigned(means, before)
    ensures Assigned(means, after)
    ensures TotalCost(ps, means, after) <= TotalCost(ps, means, before)
  {
    assert forall i | 0 <= i < |ps| :: Reassigned(sqrt, ps[i], means, before[i], after[i]);
    if ps != [] {
      var i := |ps| - 1;
      assert Reassigned(sqrt, ps[i], means, before[i], after[i]);
      ClusterStepDescends(sqrt, ps[..i], means, before[..i], after[..i]);
      if after[i] != before[i] {
        DistanceOrder(sqrt, ps[i], means[after[i]].p, means[before[i]].p);
      }
    }
  }

  /** One turn of the iteration, means first and then clusters: the total does not increase. */
  lemma IterationDescends(sqrt: real -> real, ps: seq<Point>, means: seq<Mean>, before: seq<int>, after: seq<int>)
    requires IsSqrt(sqrt) && |ps| == |before| && Assigned(means, before)
    requires Clustered(sqrt, ps, Centroids(ps, before, |means|), before, after)
    ensures Assigned(Centroids(ps, before, |means|), after)
    ensures TotalCost(ps, Centroids(ps, before, |means|), after) <= TotalCost(ps, means, before)
  {
    MeanStepDescends(ps, means, before);
    ClusterStepDescends(sqrt, ps, Centroids(ps, before, |means|), before, after);
  }

  // ----- runs -----

  /** The state of the workload: its centres and its assignment. */
  datatype Config = Config(means: seq<Mean>, center: seq<int>)

  /** A turn that assigns the points. */
  ghost predicate Assigns(sqrt: real -> real, ps: seq<Point>, c: Config, c': Config) {
    c'.means == c.means && Clustered(sqrt, ps, c.means, c.center, c'.center)
  }

  /** A turn that moves the means. */
  ghost predicate MovesMeans(ps: seq<Point>, c: Config, c': Config) {
    |ps| == |c.center| && c'.center == c.center && c'.means == Centroids(ps, c.center, |c.means|)
  }

  /** Either function the main loop calls may come next. */
  ghost predicate Turn(sqrt: real -> real, ps: seq<Point>, c: Config, c': Config) {
    Assigns(sqrt, ps, c, c') || MovesMeans(ps, c, c')
  }

  ghost predicate IsRun(sqrt: real -> real, ps: seq<Point>, cs: seq<Config>) {
    forall i | 0 <= i < |cs| - 1 :: Turn(sqrt, ps, cs[i], cs[i + 1])
  }

  /** Round r of the main loop within a run: points, means, points. */
  ghost predicate RoundOf(sqrt: real -> real, ps: seq<Point>, cs: seq<Config>, r: nat) {
    && 3 * r + 3 < |cs|
    && Assigns(sqrt, ps, cs[3 * r], cs[3 * r + 1])
    && MovesMeans(ps, cs[3 * r + 1], cs[3 * r + 2])
    && Assigns(sqrt, ps, cs[3 * r + 2], cs[3 * r + 3])
  }

  /** The states of a number of rounds. */
  ghost predicate Rounds(sqrt: real -> real, ps: seq<Point>, cs: seq<Config>, rounds: nat) {
    && |cs| == 1 + 3 * rounds
    && forall r | 0 <= r < rounds :: RoundOf(sqrt, ps, cs, r)
  }

  lemma RoundsAreRun(sqrt: real -> real, ps: seq<Point>, cs: seq<Config>, rounds: nat)
    requires Rounds(sqrt, ps, cs, rounds)
    ensures IsRun(sqrt, ps, cs)
  {
    forall i | 0 <= i < |cs| - 1
      ensures Turn(sqrt, ps, cs[i], cs[i + 1])
    {
      assert RoundOf(sqrt, ps, cs, i / 3);
    }
  }

  lemma OneMoreRound(sqrt: real -> real, ps: seq<Point>, cs: seq<Config>, rounds: nat, a: Config, b: Config, c: Config)
    requires Rounds(sqrt, ps, cs, rounds)
    requires Assigns(sqrt, ps, cs[3 * rounds], a) && MovesMeans(ps, a, b) && Assigns(sqrt, ps, b, c)
    ensures Rounds(sqrt, ps, cs + [a, b, c], rounds + 1)
  {
    var more := cs + [a, b, c];
    forall r | 0 <= r < rounds + 1
      ensures RoundOf(sqrt, ps, more, r)
    {
      if r < rounds {
        assert RoundOf(sqrt, ps, cs, r);
      }
    }
  }

  ghost predicate Sound(ps: seq<Point>, c: Config) {
    |ps| == |c.center| && Assigned(c.means, c.center)
  }

  /** The total squared distance of the second state is no larger. */
  ghost predicate NoDearer(ps: seq<Point>, c: Config, c': Config) {
    Sound(ps, c) && Sound(ps, c') && TotalCost(ps, c'.means, c'.center) <= TotalCost(ps, c.means, c.center)
  }

  lemma TurnDescends(sqrt: real -> real, ps: seq<Point>, c: Config, c': Config)
    requires IsSqrt(sqrt) && Sound(ps, c) && Turn(sqrt, ps, c, c')
    ensures |c'.means| == |c.means|
    ensures NoDearer(ps, c, c')
  {
    if Assigns(sqrt, ps, c, c') {
      ClusterStepDescends(sqrt, ps, c.means, c.center, c'.center);
    } else {
      MeanStepDescends(ps, c.means, c.center);
    }
  }

  /** Over any run, however long, and whatever clusters run empty, the total squared distance
      never increases. */
  lemma {:induction false} RunDescends(sqrt: real -> real, ps: seq<Point>, cs: seq<Config>, i: nat, j: nat)
    requires IsSqrt(sqrt) && IsRun(sqrt, ps, cs) && i <= j < |cs| && Sound(ps, cs[0])
    ensures NoDearer(ps, cs[i], cs[j])
    decreases j, i
  {
    if j > 0 {
      if i < j {
        RunDescends(sqrt, ps, cs, i, j - 1);
      } else {
        RunDescends(sqrt, ps, cs, j - 1, j - 1);
      }
      assert Turn(sqrt, ps, cs[j - 1], cs[j - 1 + 1]);
      TurnDescends(sqrt, ps, cs[j - 1], cs[j]);
    }
  }

  // ----- the box -----

  const BOX: real := 9.9

  ghost predicate InBox(p: Point) {
    0.0 <= p.x <= 9.9 && 0.0 <= p.y <= 9.9
  }

  ghost predicate AllInBox(ps: seq<Point>) {
    forall i | 0 <= i < |ps| :: InBox(ps[i])
  }

  ghost predicate MeansInBox(means: seq<Mean>) {
    forall j | 0 <= j < |means| && means[j].At? :: InBox(means[j].p)
  }

  lemma {:induction false} SumsInBox(ps: seq<Point>, center: seq<int>, j: int)
    requires |ps| == |center| && AllInBox(ps)
    ensures 0.0 <= SumX(ps, center, j) <= BOX * Count(center, j) as real
    ensures 0.0 <= SumY(ps, center, j) <= BOX * Count(center, j) as real
  {
    if ps != [] {
      SumsInBox(ps[..|ps| - 1], center[..|ps| - 1], j);
      assert InBox(ps[|ps| - 1]);
    }
  }

  lemma QuotientBetween(s: real, n: real, hi: real)
    requires n > 0.0 && 0.0 <= s <= hi * n
    ensures 0.0 <= Over(s, n) <= hi
  {
    var q := s / n;
    assert q * n == s;
    assert (q - hi) * n <= 0.0;
  }

  /** The mean of points in the box is in the box. */
  lemma CentroidsStayInBox(ps: seq<Point>, center: seq<int>, k: nat)
    requires |ps| == |center| && AllInBox(ps)
    ensures MeansInBox(Centroids(ps, center, k))
  {
    forall j | 0 <= j < k && Centroids(ps, center, k)[j].At?
      ensures InBox(Centroids(ps, center, k)[j].p)
    {
      SumsInBox(ps, center, j);
      QuotientBetween(SumX(ps, center, j), Count(center, j) as real, BOX);
      QuotientBetween(SumY(ps, center, j), Count(center, j) as real, BOX);
    }
  }

  lemma DifferenceInBox(a: real, b: real)
    requires 0.0 <= a <= BOX && 0.0 <= b <= BOX
    ensures Square(a - b) <= Square(BOX)
  {
    if a >= b {
      SquareMonotone(a - b, BOX);
    } else {
      SquareMonotone(b - a, BOX);
      assert Square(a - b) == Square(b - a);
    }
  }

  /** In the box every distance is below the sentinel. */
  lemma BoxBelowSentinel(sqrt: real -> real, p: Point, q: Point)
    requires IsSqrt(sqrt) && InBox(p) && InBox(q)
    ensures Distance(sqrt, p, q) < SENTINEL
  {
    D2NonNegative(p, q);
    DifferenceInBox(p.x, q.x);
    DifferenceInBox(p.y, q.y);
    var d := Distance(sqrt, p, q);
    if d >= SENTINEL {
      SquareMonotone(SENTINEL, d);
    }
  }

  /** So, from any state of a run in the box, a search always ends at the nearest centre. */
  lemma BoxFindsNearest(sqrt: real -> real, ps: seq<Point>, means: seq<Mean>, before: seq<int>, after: seq<int>)
    requires IsSqrt(sqrt) && AllInBox(ps) && MeansInBox(means)
    requires Clustered(sqrt, ps, means, before, after) && Assigned(means, before)
    ensures forall i | 0 <= i < |ps| :: Nearest(sqrt, ps[i], means, after[i])
  {
    forall i | 0 <= i < |ps|
      ensures Nearest(sqrt, ps[i], means, after[i])
    {
      assert Reassigned(sqrt, ps[i], means, before[i], after[i]);
      assert InBox(ps[i]) && InBox(means[before[i]].p);
      BoxBelowSentinel(sqrt, ps[i], means[before[i]].p);
    }
  }

  lemma {:induction false} RunStaysInBox(sqrt: real -> real, ps: seq<Point>, cs: seq<Config>, j: nat)
    requires IsSqrt(sqrt) && IsRun(sqrt, ps, cs) && j < |cs| && Sound(ps, cs[0])
    requires AllInBox(ps) && MeansInBox(cs[0].means)
    ensures MeansInBox(cs[j].means)
  {
    if j > 0 {
      RunStaysInBox(sqrt, ps, cs, j - 1);
      RunDescends(sqrt, ps, cs, j - 1, j - 1);
      assert Turn(sqrt, ps, cs[j - 1], cs[j - 1 + 1]);
      CentroidsStayInBox(ps, cs[j - 1].center, |cs[j - 1].means|);
    }
  }

  /** In every iteration of a run in the box, each search assigns the lowest-indexed nearest
      centre: the sentinel never wins. */
  lemma EverySearchFindsNearest(sqrt: real -> real, ps: seq<Point>, cs: seq<Config>, j: nat)
    requires IsSqrt(sqrt) && IsRun(sqrt, ps, cs) && 0 < j < |cs| && Sound(ps, cs[0])
    requires AllInBox(ps) && MeansInBox(cs[0].means)
    requires Assigns(sqrt, ps, cs[j - 1], cs[j])
    ensures forall i | 0 <= i < |ps| :: Nearest(sqrt, ps[i], cs[j].means, cs[j].center[i])
  {
    RunStaysInBox(sqrt, ps, cs, j - 1);
    RunDescends(sqrt, ps, cs, j - 1, j - 1);
    BoxFindsNearest(sqrt, ps, cs[j - 1].means, cs[j - 1].center, cs[j].center);
  }

  // ----- the error the main loop watches -----

  /** The sum of the (unsquared) distances to the assigned centres. */
  ghost function TotalDistance(sqrt: real -> real, ps: seq<Point>, means: seq<Mean>, center: seq<int>): real
    requires |ps| == |center| && Assigned(means, center)
  {
    if ps == [] then 0.0
    else
      var i := |ps| - 1;
      TotalDistance(sqrt, ps[..i], means, center[..i]) + Distance(sqrt, ps[i], means[center[i]].p)
  }

  function SumOf(terms: seq<real>): real {
    if terms == [] then 0.0 else SumOf(terms[..|terms| - 1]) + terms[|terms| - 1]
  }

  /** One term a point: its Euclidean distance to the assigned centre. */
  ghost predicate EuclideanTerms(ps: seq<Point>, means: seq<Mean>, center: seq<int>, terms: seq<real>)
    requires |ps| == |center| && Assigned(means, center)
  {
    && |terms| == |ps|
    && forall i | 0 <= i < |ps| :: Euclidean(terms[i], ps[i], means[center[i]].p)
  }

  /** The distances of the points to their centres, one by one. */
  ghost function Terms(sqrt: real -> real, ps: seq<Point>, means: seq<Mean>, center: seq<int>): seq<real>
    requires |ps| == |center| && Assigned(means, center)
  {
    if ps == [] then []
    else
      var i := |ps| - 1;
      Terms(sqrt, ps[..i], means, center[..i]) + [Distance(sqrt, ps[i], means[center[i]].p)]
  }

  lemma {:induction false} TermsSum(sqrt: real -> real, ps: seq<Point>, means: seq<Mean>, center: seq<int>)
    requires |ps| == |center| && Assigned(means, center)
    ensures |Terms(sqrt, ps, means, center)| == |ps|
    ensures SumOf(Terms(sqrt, ps, means, center)) == TotalDistance(sqrt, ps, means, center)
    ensures forall i | 0 <= i < |ps| ::
              Terms(sqrt, ps, means, center)[i] == Distance(sqrt, ps[i], means[center[i]].p)
  {
    if ps != [] {
      var i := |ps| - 1;
      TermsSum(sqrt, ps[..i], means, center[..i]);
      assert Terms(sqrt, ps, means, center)[..i] == Terms(sqrt, ps[..i], means, center[..i]);
    }
  }

  /** The error is the sum of the Euclidean distances. */
  lemma ErrorIsEuclidean(sqrt: real -> real, ps: seq<Point>, means: seq<Mean>, center: seq<int>)
    returns (terms: seq<real>)
    requires IsSqrt(sqrt) && |ps| == |center| && Assigned(means, center)
    ensures EuclideanTerms(ps, means, center, terms)
    ensures TotalDistance(sqrt, ps, means, center) == SumOf(terms)
  {
    terms := Terms(sqrt, ps, means, center);
    TermsSum(sqrt, ps, means, center);
    forall i | 0 <= i < |ps|
      ensures Euclidean(terms[i], ps[i], means[center[i]].p)
    {
      DistanceIsEuclidean(sqrt, ps[i], means[center[i]].p);
    }
  }

  /** The main loop's stopping test: the errors of two states differ by at most 0.1. */
  ghost predicate Close(sqrt: real -> real, ps: seq<Point>, c: Config, c': Config) {
    && Sound(ps, c) && Sound(ps, c')
    && -0.1 <= TotalDistance(sqrt, ps, c.means, c.center) - TotalDistance(sqrt, ps, c'.means, c'.center) <= 0.1
  }

  /** Round r of a run moved the error by more than the stopping test allows. */
  ghost predicate StillMoving(sqrt: real -> real, ps: seq<Point>, cs: seq<Config>, r: nat) {
    && 1 <= r && 3 * r < |cs|
    && var c, c' := cs[3 * r - 2], cs[3 * r];
       && Sound(ps, c) && Sound(ps, c')
       && var moved :=
            TotalDistance(sqrt, ps, c.means, c.center) - TotalDistance(sqrt, ps, c'.means, c'.center);
          moved < -0.1 || 0.1 < moved
  }

  ghost predicate MovingUpTo(sqrt: real -> real, ps: seq<Point>, cs: seq<Config>, n: nat) {
    forall r | 1 <= r <= n :: StillMoving(sqrt, ps, cs, r)
  }

  /** Nothing appended to a run changes what its rounds moved. */
  lemma MovingLater(sqrt: real -> real, ps: seq<Point>, cs: seq<Config>, more: seq<Config>, n: nat)
    requires MovingUpTo(sqrt, ps, cs, n)
    ensures MovingUpTo(sqrt, ps, cs + more, n)
  {
    forall r | 1 <= r <= n
      ensures StillMoving(sqrt, ps, cs + more, r)
    {
      assert StillMoving(sqrt, ps, cs, r);
    }
  }

  /** A round moves the error or passes the stopping test. */
  lemma MovingOrClose(sqrt: real -> real, ps: seq<Point>, cs: seq<Config>, r: nat)
    requires 1 <= r && 3 * r < |cs| && Sound(ps, cs[3 * r - 2]) && Sound(ps, cs[3 * r])
    ensures Close(sqrt, ps, cs[3 * r - 2], cs[3 * r]) <==> !StillMoving(sqrt, ps, cs, r)
  {
  }

  /** The mean of a cluster is no point exactly if the cluster is empty. */
  lemma {:induction false} CentroidOfEmpty(ps: seq<Point>, center: seq<int>, j: int)
    requires |ps| == |center|
    ensures Centroid(ps, center, j) == NotANumber <==> j !in center
  {
    if j in center {
      var i :| 0 <= i < |center| && center[i] == j;
      CountPositive(center, j, i);
    } else {
      MissingClusterIsEmpty(center, j);
    }
  }

  /** With the centres fixed, no other assignment has a smaller error. */
  lemma {:induction false} NearestIsOptimal(sqrt: real -> real, ps: seq<Point>, means: seq<Mean>,
                                            center: seq<int>, other: seq<int>)
    requires |ps| == |center| == |other| && Assigned(means, center) && Assigned(means, other)
    requires forall i | 0 <= i < |ps| :: Nearest(sqrt, ps[i], means, center[i])
    ensures TotalDistance(sqrt, ps, means, center) <= TotalDistance(sqrt, ps, means, other)
  {
    if ps != [] {
      var i := |ps| - 1;
      NearestIsOptimal(sqrt, ps[..i], means, center[..i], other[..i]);
      assert Nearest(sqrt, ps[i], means, center[i]);
    }
  }

  /** Every point is at its nearest centre, and no assignment to the same centres has a smaller
      error. */
  ghost predicate Optimal(sqrt: real -> real, ps: seq<Point>, c: Config) {
    && Sound(ps, c)
    && (forall i | 0 <= i < |ps| :: Nearest(sqrt, ps[i], c.means, c.center[i]))
    && (forall other: seq<int> | |other| == |ps| && Assigned(c.means, other) ::
          TotalDistance(sqrt, ps, c.means, c.center) <= TotalDistance(sqrt, ps, c.means, other))
  }

  /** In a run in the box every turn that assigns the points leaves an optimal state. */
  lemma AssigningIsOptimal(sqrt: real -> real, ps: seq<Point>, cs: seq<Config>, j: nat)
    requires IsSqrt(sqrt) && IsRun(sqrt, ps, cs) && 0 < j < |cs| && Sound(ps, cs[0])
    requires AllInBox(ps) && MeansInBox(cs[0].means)
    requires Assigns(sqrt, ps, cs[j - 1], cs[j])
    ensures Optimal(sqrt, ps, cs[j])
  {
    RunDescends(sqrt, ps, cs, j, j);
    EverySearchFindsNearest(sqrt, ps, cs, j);
    forall other: seq<int> | |other| == |ps| && Assigned(cs[j].means, other)
      ensures TotalDistance(sqrt, ps, cs[j].means, cs[j].center) <= TotalDistance(sqrt, ps, cs[j].means, other)
    {
      NearestIsOptimal(sqrt, ps, cs[j].means, cs[j].center, other);
    }
  }

  /** Where any number of rounds leads. */
  lemma RoundsEnd(sqrt: real -> real, ps: seq<Point>, cs: seq<Config>, rounds: nat)
    requires IsSqrt(sqrt) && Rounds(sqrt, ps, cs, rounds) && rounds > 0 && Sound(ps, cs[0])
    ensures IsRun(sqrt, ps, cs) && NoDearer(ps, cs[0], cs[3 * rounds])
    ensures AllInBox(ps) && MeansInBox(cs[0].means) ==> Optimal(sqrt, ps, cs[3 * rounds])
  {
    RoundsAreRun(sqrt, ps, cs, rounds);
    RunDescends(sqrt, ps, cs, 0, 3 * rounds);
    if AllInBox(ps) && MeansInBox(cs[0].means) {
      assert RoundOf(sqrt, ps, cs, rounds - 1);
      AssigningIsOptimal(sqrt, ps, cs, 3 * rounds);
    }
  }
}
