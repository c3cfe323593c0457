/** The k-means workload: arrays of points, centres and assignments, updated in place. */
module KMeans {
  import opened KMeansModel

  /** A float distance: comparisons with a distance to a centre that is no point are false. */
  datatype Float = Value(v: real) | NaN {
    predicate Less(bound: real) {
      Value? && v < bound
    }
  }

  class Workload {
    const sqrt: real -> real
    const point: array<Point>
    const mean: array<Mean>
    const center: array<int>

    ghost predicate Shape() {
      point.Length == center.Length
    }

    ghost function State(): Config
      reads mean, center
    {
      Config(mean[..], center[..])
    }

    /** Points and centres are given; every point starts in cluster 0. */
    constructor (points: seq<Point>, starts: seq<Point>, root: real -> real)
      requires |starts| > 0
      ensures Shape() && sqrt == root && point[..] == points && fresh(mean) && fresh(center)
      ensures State() == Config(seq(|starts|, j requires 0 <= j < |starts| => At(starts[j])), seq(|points|, _ => 0))
      ensures Sound(point[..], State())
    {
      sqrt := root;
      point := new Point[|points|](i requires 0 <= i < |points| => points[i]);
      mean := new Mean[|starts|](j requires 0 <= j < |starts| => At(starts[j]));
      center := new int[|points|](_ => 0);
      new;
      assert point[..] == points;
      assert mean[..] == seq(|starts|, j requires 0 <= j < |starts| => At(starts[j]));
      assert center[..] == seq(|points|, _ => 0);
    }

    function DistanceTo(p: Point, m: Mean): Float {
      match m
      case At(q) => Value(Distance(sqrt, p, q))
      case NotANumber => NaN
    }

    /** Where the search among the first j centres stands. */
    ghost predicate BestSoFar(p: Point, means: seq<Mean>, j: nat, before: int, c: int, min: real)
      requires j <= |means|
    {
      || (&& c == before && min == SENTINEL
          && forall u | 0 <= u < j && means[u].At? :: Distance(sqrt, p, means[u].p) >= SENTINEL)
      || (&& 0 <= c < j && means[c].At? && min == Distance(sqrt, p, means[c].p) < SENTINEL
          && (forall u | 0 <= u < j && means[u].At? :: min <= Distance(sqrt, p, means[u].p))
          && (forall u | 0 <= u < c && means[u].At? :: min < Distance(sqrt, p, means[u].p)))
    }

    /** Assigns each point to its nearest centre. */
    method Cluster()
      requires Shape()
      modifies center
      ensures Clustered(sqrt, point[..], mean[..], old(center[..]), center[..])
    {
      ghost var before := center[..];
      var distance := new Float[point.Length, mean.Length];
      for i := 0 to point.Length
        invariant forall t | 0 <= t < i :: Reassigned(sqrt, point[t], mean[..], before[t], center[t])
        invariant forall t | i <= t < center.Length :: center[t] == before[t]
      {
        for j := 0 to mean.Length
          invariant forall u | 0 <= u < j :: distance[i, u] == DistanceTo(point[i], mean[u])
          invariant forall t | 0 <= t < i :: Reassigned(sqrt, point[t], mean[..], before[t], center[t])
          invariant forall t | i <= t < center.Length :: center[t] == before[t]
        {
          distance[i, j] := DistanceTo(point[i], mean[j]);
        }
        Choose(i, distance);
      }
    }

    /** The search for one point's minimum. */
    method Choose(i: nat, distance: array2<Float>)
      requires Shape() && i < point.Length == distance.Length0 && mean.Length == distance.Length1
      requires forall u | 0 <= u < mean.Length :: distance[i, u] == DistanceTo(point[i], mean[u])
      modifies center
      ensures Reassigned(sqrt, point[i], mean[..], old(center[i]), center[i])
      ensures forall t | 0 <= t < center.Length && t != i :: center[t] == old(center[t])
    {
      var min := SENTINEL;
      for j := 0 to mean.Length
        invariant BestSoFar(point[i], mean[..], j, old(center[i]), center[i], min)
        invariant forall t | 0 <= t < center.Length && t != i :: center[t] == old(center[t])
      {
        if distance[i, j].Less(min) {
          min := distance[i, j].v;
          center[i] := j;
        }
      }
    }

    /** The error of the current assignment. */
    method GetE() returns (sum: real)
      requires Shape() && Sound(point[..], State())
      ensures sum == TotalDistance(sqrt, point[..], mean[..], center[..])
      ensures IsSqrt(sqrt) ==>
                exists terms :: EuclideanTerms(point[..], mean[..], center[..], terms) && sum == SumOf(terms)
    {
      var cnt := 0.0;
      sum := 0.0;
      for i := 0 to point.Length
        invariant Assigned(mean[..], center[..i])
        invariant sum == TotalDistance(sqrt, point[..i], mean[..], center[..i])
      {
        for j := 0 to mean.Length
          invariant center[i] < j ==> cnt == Distance(sqrt, point[i], mean[center[i]].p)
        {
          if center[i] == j {
            cnt := Distance(sqrt, point[i], mean[j].p);
          }
        }
        sum := sum + cnt;
        assert point[..i + 1][..i] == point[..i] && center[..i + 1][..i] == center[..i];
      }
      assert point[..point.Length] == point[..] && center[..point.Length] == center[..];
      if IsSqrt(sqrt) {
        ghost var terms := ErrorIsEuclidean(sqrt, point[..], mean[..], center[..]);
      }
    }

    /** Moves each centre to the mean of its cluster; a cluster without points loses its centre. */
    method GetMean()
      requires Shape()
      modifies mean
      ensures mean[..] == Centroids(point[..], center[..], mean.Length)
      ensures forall j | 0 <= j < mean.Length :: mean[j] == NotANumber <==> j !in center[..]
    {
      for i := 0 to mean.Length
        invariant forall u | 0 <= u < i :: mean[u] == Centroid(point[..], center[..], u)
        invariant forall u | 0 <= u < i :: mean[u] == NotANumber <==> u !in center[..]
      {
        var sum := Point(0.0, 0.0);
        var count := 0;
        for j := 0 to point.Length
          invariant count == Count(center[..j], i)
          invariant sum == Point(SumX(point[..j], center[..j], i), SumY(point[..j], center[..j], i))
          invariant forall u | 0 <= u < i :: mean[u] == Centroid(point[..], center[..], u)
          invariant forall u | 0 <= u < i :: mean[u] == NotANumber <==> u !in center[..]
        {
          assert point[..j + 1][..j] == point[..j] && center[..j + 1][..j] == center[..j];
          if center[j] == i {
            sum := Point(sum.x + point[j].x, sum.y + point[j].y);
            count := count + 1;
          }
        }
        assert point[..point.Length] == point[..] && center[..point.Length] == center[..];
        CentroidOfEmpty(point[..], center[..], i);
        mean[i] := if count == 0 then NotANumber else At(Point(Over(sum.x, count as real), Over(sum.y, count as real)));
      }
    }

    /** One pass of the main loop's body, through the states `first` and `second`: whether the
        errors before and after moving the centres are close enough to stop. */
    method Round() returns (close: bool, ghost first: Config, ghost second: Config)
      requires Shape() && IsSqrt(sqrt) && Sound(point[..], State())
      modifies mean, center
      ensures Assigns(sqrt, point[..], old(State()), first)
      ensures MovesMeans(point[..], first, second)
      ensures Assigns(sqrt, point[..], second, State())
      ensures Sound(point[..], first) && Sound(point[..], State())
      ensures close <==> Close(sqrt, point[..], first, State())
    {
      Cluster();
      first := State();
      TurnDescends(sqrt, point[..], old(State()), first);
      var temp1 := GetE();
      GetMean();
      second := State();
      TurnDescends(sqrt, point[..], first, second);
      Cluster();
      TurnDescends(sqrt, point[..], second, State());
      var temp2 := GetE();
      close := -0.1 <= temp1 - temp2 <= 0.1;
    }

    /** The main loop: at most fifty rounds, up to the first in which the error moves by no more
        than 0.1. `trace` is every state passed through, three for each of the `rounds`. With
        points and starting centres in the box, the loop ends at an assignment of least error for
        its centres. */
    method Iterate() returns (number: nat, ghost rounds: nat, ghost trace: seq<Config>)
      requires Shape() && IsSqrt(sqrt) && Sound(point[..], State())
      modifies mean, center
      ensures number == 2 * rounds && 1 <= rounds <= 50
      ensures Rounds(sqrt, point[..], trace, rounds) && IsRun(sqrt, point[..], trace)
      ensures trace[0] == old(State()) && trace[3 * rounds] == State()
      ensures Sound(point[..], State())
      ensures NoDearer(point[..], old(State()), State())
      ensures rounds < 50 ==> Close(sqrt, point[..], trace[3 * rounds - 2], State())
      ensures forall r | 1 <= r < rounds :: StillMoving(sqrt, point[..], trace, r)
      ensures rounds < 50 ==> !StillMoving(sqrt, point[..], trace, rounds)
      ensures AllInBox(point[..]) && MeansInBox(old(State()).means) ==> Optimal(sqrt, point[..], State())
    {
      number, rounds := 0, 0;
      ghost var start := State();
      trace := [start];
      while number < 100
        invariant number == 2 * rounds && rounds <= 50
        invariant Rounds(sqrt, point[..], trace, rounds) && trace[0] == start && trace[3 * rounds] == State()
        invariant Sound(point[..], State()) && MovingUpTo(sqrt, point[..], trace, rounds)
        decreases 100 - number
      {
        var close;
        ghost var first, second;
        close, first, second := Round();
        OneMoreRound(sqrt, point[..], trace, rounds, first, second, State());
        number, rounds := number + 2, rounds + 1;
        MovingLater(sqrt, point[..], trace, [first, second, State()], rounds - 1);
        trace := trace + [first, second, State()];
        MovingOrClose(sqrt, point[..], trace, rounds);
        if close {
          break;
        }
      }
      RoundsEnd(sqrt, point[..], trace, rounds);
    }
  }
}
