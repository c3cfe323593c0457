/** The hit and miss counters kept per access type, updated one sample at a time, and what
    they say about the whole collection of samples. */
module Statistics {

  const UINT64_MAX: nat := 0xFFFF_FFFF_FFFF_FFFF

  type Weight = w: nat | w <= UINT64_MAX

  /** The flags of the data source's memory-level field. */
  datatype LevelFlag =
    | Na | Hit | Miss | L1 | Lfb | L2 | L3 | LocRam | RemRam1 | RemRam2 | RemCce1 | RemCce2 | Io | Unc

  datatype Sample = Sample(weight: Weight, flags: set<LevelFlag>)

  datatype Level =
    | Cache1 | Cache2 | Cache3 | LineFill | LocalRam | RemoteRam | RemoteCache | IoMemory | UncachedMemory

  /** One of the eighteen counters: a level, hit or miss. */
  datatype Bucket = Bucket(level: Level, hit: bool)

  datatype Count = Count(count: nat, min: nat, max: nat, sum: nat)

  datatype MemCounters =
    MemCounters(totalCount: nat, totalWeight: nat, naMissCount: nat, buckets: map<Bucket, Count>)

  const EMPTY_COUNT := Count(0, UINT64_MAX, 0, 0)

  const LEVELS: set<Level> :=
    {Cache1, Cache2, Cache3, LineFill, LocalRam, RemoteRam, RemoteCache, IoMemory, UncachedMemory}

  lemma LevelListed(l: Level)
    ensures l in LEVELS
  {
    match l
    case Cache1 =>
    case Cache2 =>
    case Cache3 =>
    case LineFill =>
    case LocalRam =>
    case RemoteRam =>
    case RemoteCache =>
    case IoMemory =>
    case UncachedMemory =>
  }

  function AllBuckets(): set<Bucket> {
    set l <- LEVELS, h <- {true, false} :: Bucket(l, h)
  }

  /** The counters after a reset. */
  const RESET_COUNTERS := MemCounters(0, 0, 0, map b | b in AllBuckets() :: EMPTY_COUNT)

  ghost predicate Complete(c: MemCounters) {
    forall b: Bucket :: b in c.buckets
  }

  lemma ResetIsComplete()
    ensures Complete(RESET_COUNTERS)
  {
    forall b: Bucket
      ensures b in RESET_COUNTERS.buckets
    {
      assert b.level in LEVELS by {
        LevelListed(b.level);
      }
      assert b == Bucket(b.level, b.hit) && b.hit in {true, false};
    }
  }

  /** Whether the flags name a level; remote RAM and remote cache have two flags each. */
  predicate Names(flags: set<LevelFlag>, l: Level) {
    match l
    case Cache1 => L1 in flags
    case Cache2 => L2 in flags
    case Cache3 => L3 in flags
    case LineFill => Lfb in flags
    case LocalRam => LocRam in flags
    case RemoteRam => RemRam1 in flags || RemRam2 in flags
    case RemoteCache => RemCce1 in flags || RemCce2 in flags
    case IoMemory => Io in flags
    case UncachedMemory => Unc in flags
  }

  /** A sample counts as a hit when flagged so, and as a miss only when not also a hit. */
  predicate Selects(s: Sample, b: Bucket) {
    && Names(s.flags, b.level)
    && (if b.hit then Hit in s.flags else Hit !in s.flags && Miss in s.flags)
  }

  function Bump(c: Count, w: nat): Count {
    Count(c.count + 1, if w < c.min then w else c.min, if w > c.max then w else c.max, c.sum + w)
  }

  /** Every counter that sample `s` selects, and no other, is bumped. */
  function Bumped(m: map<Bucket, Count>, s: Sample): map<Bucket, Count> {
    map b | b in m :: if Selects(s, b) then Bump(m[b], s.weight) else m[b]
  }

  function AddSample(c: MemCounters, s: Sample): MemCounters {
    MemCounters(
      c.totalCount + 1,
      c.totalWeight + s.weight,
      c.naMissCount + (if Na in s.flags then 1 else 0),
      Bumped(c.buckets, s))
  }

  function AddAll(c: MemCounters, ss: seq<Sample>): MemCounters {
    if ss == [] then c else AddSample(AddAll(c, ss[..|ss| - 1]), ss[|ss| - 1])
  }

  // ----- an update, flag by flag -----

  /** A counter that counts one more sample of weight w, or stays as it was. */
  ghost predicate Moves(before: Count, after: Count, moves: bool, w: nat) {
    if !moves then after == before
    else
      && after.count == before.count + 1
      && after.sum == before.sum + w
      && after.min <= before.min && after.min <= w && (after.min == before.min || after.min == w)
      && after.max >= before.max && after.max >= w && (after.max == before.max || after.max == w)
  }

  /** The two counters of a level, given whether the sample has a flag of that level. */
  ghost predicate LevelMoves(before: MemCounters, after: MemCounters, l: Level, flagged: bool, s: Sample) {
    var hit, miss := Bucket(l, true), Bucket(l, false);
    && hit in before.buckets && miss in before.buckets && hit in after.buckets && miss in after.buckets
    && Moves(before.buckets[hit], after.buckets[hit], flagged && Hit in s.flags, s.weight)
    && Moves(before.buckets[miss], after.buckets[miss], flagged && Miss in s.flags && Hit !in s.flags, s.weight)
  }

  /** What one sample does, read off its flags. */
  ghost predicate MovesByFlags(before: MemCounters, after: MemCounters, s: Sample) {
    && after.totalCount == before.totalCount + 1
    && after.totalWeight == before.totalWeight + s.weight
    && after.naMissCount == before.naMissCount + (if Na in s.flags then 1 else 0)
    && LevelMoves(before, after, Cache1, L1 in s.flags, s)
    && LevelMoves(before, after, Cache2, L2 in s.flags, s)
    && LevelMoves(before, after, Cache3, L3 in s.flags, s)
    && LevelMoves(before, after, LineFill, Lfb in s.flags, s)
    && LevelMoves(before, after, LocalRam, LocRam in s.flags, s)
    && LevelMoves(before, after, RemoteRam, RemRam1 in s.flags || RemRam2 in s.flags, s)
    && LevelMoves(before, after, RemoteCache, RemCce1 in s.flags || RemCce2 in s.flags, s)
    && LevelMoves(before, after, IoMemory, Io in s.flags, s)
    && LevelMoves(before, after, UncachedMemory, Unc in s.flags, s)
  }

  lemma AddSampleMovesLevel(c: MemCounters, s: Sample, l: Level)
    requires Complete(c)
    ensures LevelMoves(c, AddSample(c, s), l, Names(s.flags, l), s)
  {
  }

  lemma AddSampleMoves(c: MemCounters, s: Sample)
    requires Complete(c)
    ensures MovesByFlags(c, AddSample(c, s), s)
  {
    AddSampleMovesLevel(c, s, Cache1);
    AddSampleMovesLevel(c, s, Cache2);
    AddSampleMovesLevel(c, s, Cache3);
    AddSampleMovesLevel(c, s, LineFill);
    AddSampleMovesLevel(c, s, LocalRam);
    AddSampleMovesLevel(c, s, RemoteRam);
    AddSampleMovesLevel(c, s, RemoteCache);
    AddSampleMovesLevel(c, s, IoMemory);
    AddSampleMovesLevel(c, s, UncachedMemory);
  }

  // ----- the update in place -----

  type AccessType = a: nat | a < 2

  method UpdateCounter(counters: array<MemCounters>, at: AccessType, b: Bucket, s: Sample)
    requires counters.Length == 2 && b in counters[at].buckets
    modifies counters
    ensures counters[at] == old(counters[at]).(
              buckets := old(counters[at]).buckets[b := Bump(old(counters[at]).buckets[b], s.weight)])
    ensures counters[1 - at] == old(counters[1 - at])
  {
    var c := counters[at].buckets[b];
    c := c.(count := c.count + 1);
    if s.weight < c.min {
      c := c.(min := s.weight);
    }
    if s.weight > c.max {
      c := c.(max := s.weight);
    }
    c := c.(sum := c.sum + s.weight);
    counters[at] := counters[at].(buckets := counters[at].buckets[b := c]);
  }

  /** The place of a level's block in the update. */
  function Block(l: Level): (n: nat)
    ensures n < 9
  {
    match l
    case Cache1 => 0
    case Cache2 => 1
    case Cache3 => 2
    case LineFill => 3
    case LocalRam => 4
    case RemoteRam => 5
    case RemoteCache => 6
    case IoMemory => 7
    case UncachedMemory => 8
  }

  /** The first `n` blocks have treated the counters of their levels, and no others. */
  ghost predicate BlocksRan(start: MemCounters, c: MemCounters, s: Sample, n: nat) {
    && c == start.(buckets := c.buckets)
    && c.buckets.Keys == start.buckets.Keys
    && forall b | b in start.buckets ::
         c.buckets[b] == if Block(b.level) < n then BumpedOne(start, s, b) else start.buckets[b]
  }

  function BumpedOne(c: MemCounters, s: Sample, b: Bucket): Count
    requires b in c.buckets
  {
    if Selects(s, b) then Bump(c.buckets[b], s.weight) else c.buckets[b]
  }

  lemma BlockIsInjective(l: Level, l': Level)
    requires Block(l) == Block(l')
    ensures l == l'
  {
  }

  /** The block of one level changes at most one counter. */
  function LevelBumped(c: MemCounters, s: Sample, l: Level): MemCounters
    requires Bucket(l, true) in c.buckets && Bucket(l, false) in c.buckets
  {
    if Selects(s, Bucket(l, true)) then
      c.(buckets := c.buckets[Bucket(l, true) := Bump(c.buckets[Bucket(l, true)], s.weight)])
    else if Selects(s, Bucket(l, false)) then
      c.(buckets := c.buckets[Bucket(l, false) := Bump(c.buckets[Bucket(l, false)], s.weight)])
    else c
  }

  /** A block extends the treated levels by its own. */
  lemma NextBlock(start: MemCounters, c: MemCounters, s: Sample, l: Level)
    requires Complete(start) && BlocksRan(start, c, s, Block(l))
    ensures Complete(c)
    ensures BlocksRan(start, LevelBumped(c, s, l), s, Block(l) + 1)
  {
    var c' := LevelBumped(c, s, l);
    forall b | b in start.buckets
      ensures c'.buckets[b] ==
              if Block(b.level) < Block(l) + 1 then BumpedOne(start, s, b) else start.buckets[b]
    {
      if Block(b.level) == Block(l) {
        BlockIsInjective(b.level, l);
        assert b == Bucket(l, b.hit);
      }
    }
  }

  lemma AllBlocksRan(start: MemCounters, c: MemCounters, s: Sample)
    requires BlocksRan(start, c, s, 9)
    ensures c.buckets == Bumped(start.buckets, s)
  {
  }

  /** The block of one level: the hit counter, or else the miss counter, or neither. */
  method UpdateLevel(counters: array<MemCounters>, at: AccessType, l: Level, s: Sample, ghost start: MemCounters)
    requires counters.Length == 2 && Complete(start)
    requires BlocksRan(start, counters[at], s, Block(l))
    modifies counters
    ensures BlocksRan(start, counters[at], s, Block(l) + 1)
    ensures counters[1 - at] == old(counters[1 - at])
  {
    NextBlock(start, counters[at], s, l);
    if Names(s.flags, l) {
      if Hit in s.flags {
        UpdateCounter(counters, at, Bucket(l, true), s);
      } else if Miss in s.flags {
        UpdateCounter(counters, at, Bucket(l, false), s);
      }
    }
  }

  /** The blocks of the caches. */
  method UpdateCacheLevels(counters: array<MemCounters>, at: AccessType, s: Sample, ghost start: MemCounters)
    requires counters.Length == 2 && Complete(start) && BlocksRan(start, counters[at], s, 0)
    modifies counters
    ensures BlocksRan(start, counters[at], s, 3)
    ensures counters[1 - at] == old(counters[1 - at])
  {
    UpdateLevel(counters, at, Cache1, s, start);
    UpdateLevel(counters, at, Cache2, s, start);
    UpdateLevel(counters, at, Cache3, s, start);
  }

  /** The blocks of the line-fill buffer and of memory. */
  method UpdateRamLevels(counters: array<MemCounters>, at: AccessType, s: Sample, ghost start: MemCounters)
    requires counters.Length == 2 && Complete(start) && BlocksRan(start, counters[at], s, 3)
    modifies counters
    ensures BlocksRan(start, counters[at], s, 6)
    ensures counters[1 - at] == old(counters[1 - at])
  {
    UpdateLevel(counters, at, LineFill, s, start);
    UpdateLevel(counters, at, LocalRam, s, start);
    UpdateLevel(counters, at, RemoteRam, s, start);
  }

  /** The remaining blocks. */
  method UpdateOtherLevels(counters: array<MemCounters>, at: AccessType, s: Sample, ghost start: MemCounters)
    requires counters.Length == 2 && Complete(start) && BlocksRan(start, counters[at], s, 6)
    modifies counters
    ensures BlocksRan(start, counters[at], s, 9)
    ensures counters[1 - at] == old(counters[1 - at])
  {
    UpdateLevel(counters, at, RemoteCache, s, start);
    UpdateLevel(counters, at, IoMemory, s, start);
    UpdateLevel(counters, at, UncachedMemory, s, start);
  }

  method UpdateCounters(counters: array<MemCounters>, at: AccessType, s: Sample)
    requires counters.Length == 2 && Complete(counters[at])
    modifies counters
    ensures counters[at] == AddSample(old(counters[at]), s)
    ensures MovesByFlags(old(counters[at]), counters[at], s)
    ensures counters[1 - at] == old(counters[1 - at])
  {
    AddSampleMoves(counters[at], s);
    UpdateTotalsAndLevels(counters, at, s);
  }

  /** The totals, and then the blocks of the nine levels. */
  method UpdateTotalsAndLevels(counters: array<MemCounters>, at: AccessType, s: Sample)
    requires counters.Length == 2 && Complete(counters[at])
    modifies counters
    ensures counters[at] == AddSample(old(counters[at]), s)
    ensures counters[1 - at] == old(counters[1 - at])
  {
    counters[at] := counters[at].(totalCount := counters[at].totalCount + 1);
    counters[at] := counters[at].(totalWeight := counters[at].totalWeight + s.weight);
    if Na in s.flags {
      counters[at] := counters[at].(naMissCount := counters[at].naMissCount + 1);
    }
    ghost var start := counters[at];
    UpdateCacheLevels(counters, at, s, start);
    UpdateRamLevels(counters, at, s, start);
    UpdateOtherLevels(counters, at, s, start);
    AllBlocksRan(start, counters[at], s);
  }

  // ----- what the counters mean -----

  /** The weights, in order, of the samples that select a bucket. */
  function Weights(ss: seq<Sample>, b: Bucket): (ws: seq<nat>)
    ensures |ws| <= |ss|
  {
    if ss == [] then []
    else
      Weights(ss[..|ss| - 1], b) + (if Selects(ss[|ss| - 1], b) then [ss[|ss| - 1].weight] else [])
  }

  function Sum(ws: seq<nat>): nat {
    if ws == [] then 0 else Sum(ws[..|ws| - 1]) + ws[|ws| - 1]
  }

  /** A count is the number, minimum, maximum and sum of exactly the weights `ws`. */
  ghost predicate Summarises(c: Count, ws: seq<nat>) {
    && c.count == |ws|
    && c.sum == Sum(ws)
    && (if ws == [] then c.min == UINT64_MAX && c.max == 0
        else c.min in ws && c.max in ws && forall w <- ws :: c.min <= w <= c.max)
  }

  lemma {:induction false} AddAllComplete(c: MemCounters, ss: seq<Sample>)
    requires Complete(c)
    ensures Complete(AddAll(c, ss))
  {
    if ss != [] {
      AddAllComplete(c, ss[..|ss| - 1]);
    }
  }

  lemma BumpSummarises(c: Count, ws: seq<nat>, w: nat)
    requires Summarises(c, ws) && w <= UINT64_MAX && forall v <- ws :: v <= UINT64_MAX
    ensures Summarises(Bump(c, w), ws + [w])
    ensures forall v <- ws + [w] :: v <= UINT64_MAX
  {
    assert (ws + [w])[..|ws|] == ws;
    var all := ws + [w];
    assert w == all[|ws|] && forall i | 0 <= i < |ws| :: ws[i] == all[i];
  }

  /** After any samples, each bucket summarises exactly the samples that select it. */
  lemma {:induction false} BucketsSummarise(ss: seq<Sample>, b: Bucket)
    ensures b in AddAll(RESET_COUNTERS, ss).buckets
    ensures Summarises(AddAll(RESET_COUNTERS, ss).buckets[b], Weights(ss, b))
    ensures forall w <- Weights(ss, b) :: w <= UINT64_MAX
  {
    ResetIsComplete();
    AddAllComplete(RESET_COUNTERS, ss);
    if ss == [] {
      assert Sum([]) == 0;
    } else {
      var k := |ss| - 1;
      BucketsSummarise(ss[..k], b);
      var ws := Weights(ss[..k], b);
      if Selects(ss[k], b) {
        assert Weights(ss, b) == ws + [ss[k].weight];
        BumpSummarises(AddAll(RESET_COUNTERS, ss[..k]).buckets[b], ws, ss[k].weight);
      } else {
        assert Weights(ss, b) == ws;
      }
    }
  }

  lemma {:induction false} TotalsExact(c: MemCounters, ss: seq<Sample>)
    ensures AddAll(c, ss).totalCount == c.totalCount + |ss|
    ensures AddAll(c, ss).totalWeight == c.totalWeight + Sum(seq(|ss|, i requires 0 <= i < |ss| => ss[i].weight))
  {
    var ws := seq(|ss|, i requires 0 <= i < |ss| => ss[i].weight);
    if ss != [] {
      var k := |ss| - 1;
      TotalsExact(c, ss[..k]);
      assert ws[..k] == seq(k, i requires 0 <= i < k => ss[..k][i].weight);
    }
  }

  /** The samples that carry the flag for an unavailable level. */
  function WithNa(ss: seq<Sample>): nat {
    if ss == [] then 0 else WithNa(ss[..|ss| - 1]) + (if Na in ss[|ss| - 1].flags then 1 else 0)
  }

  lemma {:induction false} NaExact(c: MemCounters, ss: seq<Sample>)
    ensures AddAll(c, ss).naMissCount == c.naMissCount + WithNa(ss)
  {
    if ss != [] {
      NaExact(c, ss[..|ss| - 1]);
    }
  }

  lemma OneMoreTimes(n: nat, v: nat)
    ensures (n + 1) * v == n * v + v
  {
  }

  lemma {:induction false} SumBounds(ws: seq<nat>, lo: nat, hi: nat)
    requires forall w <- ws :: lo <= w <= hi
    ensures |ws| * lo <= Sum(ws) <= |ws| * hi
  {
    if ws != [] {
      var k := |ws| - 1;
      assert forall w <- ws[..k] :: w in ws;
      SumBounds(ws[..k], lo, hi);
      assert ws[k] in ws;
      OneMoreTimes(k, lo);
      OneMoreTimes(k, hi);
    }
  }

  /** Bounds a reader may rely on: the sum lies between count times the extremes. */
  lemma BucketBounds(ss: seq<Sample>, b: Bucket)
    ensures b in AddAll(RESET_COUNTERS, ss).buckets
    ensures var c := AddAll(RESET_COUNTERS, ss).buckets[b];
            c.count > 0 ==> c.count * c.min <= c.sum <= c.count * c.max && c.max <= UINT64_MAX
  {
    BucketsSummarise(ss, b);
    var c := AddAll(RESET_COUNTERS, ss).buckets[b];
    if c.count > 0 {
      SumBounds(Weights(ss, b), c.min, c.max);
    }
  }

  lemma {:induction false} HitsAndMissesAreDisjoint(ss: seq<Sample>, l: Level)
    ensures |Weights(ss, Bucket(l, true))| + |Weights(ss, Bucket(l, false))| <= |ss|
    ensures Sum(Weights(ss, Bucket(l, true))) + Sum(Weights(ss, Bucket(l, false)))
            <= AddAll(RESET_COUNTERS, ss).totalWeight
  {
    if ss != [] {
      var k := |ss| - 1;
      HitsAndMissesAreDisjoint(ss[..k], l);
      forall b: Bucket | Selects(ss[k], b)
        ensures Sum(Weights(ss, b)) == Sum(Weights(ss[..k], b)) + ss[k].weight
      {
        assert Weights(ss, b)[..|Weights(ss[..k], b)|] == Weights(ss[..k], b);
      }
      forall b: Bucket | !Selects(ss[k], b)
        ensures Weights(ss, b) == Weights(ss[..k], b)
      {
      }
    }
  }

  /** Hits and misses of one level never exceed the totals, in number or in weight. */
  lemma LevelWithinTotals(ss: seq<Sample>, l: Level)
    ensures var c := AddAll(RESET_COUNTERS, ss);
            && Bucket(l, true) in c.buckets && Bucket(l, false) in c.buckets
            && c.buckets[Bucket(l, true)].count + c.buckets[Bucket(l, false)].count <= c.totalCount
            && c.buckets[Bucket(l, true)].sum + c.buckets[Bucket(l, false)].sum <= c.totalWeight
  {
    BucketsSummarise(ss, Bucket(l, true));
    BucketsSummarise(ss, Bucket(l, false));
    TotalsExact(RESET_COUNTERS, ss);
    HitsAndMissesAreDisjoint(ss, l);
  }

  // ----- order does not matter -----

  lemma AddSampleCommutes(c: MemCounters, s: Sample, t: Sample)
    ensures AddSample(AddSample(c, s), t) == AddSample(AddSample(c, t), s)
  {
    var st, ts := AddSample(AddSample(c, s), t).buckets, AddSample(AddSample(c, t), s).buckets;
    assert st.Keys == ts.Keys;
    assert forall b | b in st :: st[b] == ts[b];
  }

  lemma {:induction false} AddAllConcat(c: MemCounters, a: seq<Sample>, b: seq<Sample>)
    ensures AddAll(c, a + b) == AddAll(AddAll(c, a), b)
    decreases |b|
  {
    if b == [] {
      assert a + b == a;
    } else {
      var k := |b| - 1;
      AddAllConcat(c, a, b[..k]);
      assert (a + b)[..|a + b| - 1] == a + b[..k];
    }
  }

  /** A sample may be counted first or last. */
  lemma {:induction false} AddAllSwap(c: MemCounters, ss: seq<Sample>, s: Sample)
    ensures AddAll(AddSample(c, s), ss) == AddSample(AddAll(c, ss), s)
  {
    if ss != [] {
      var k := |ss| - 1;
      AddAllSwap(c, ss[..k], s);
      AddSampleCommutes(AddAll(c, ss[..k]), s, ss[k]);
    }
  }

  /** The counters depend only on the multiset of samples. */
  lemma {:induction false} OrderIrrelevant(c: MemCounters, ss: seq<Sample>, ts: seq<Sample>)
    requires multiset(ss) == multiset(ts)
    ensures AddAll(c, ss) == AddAll(c, ts)
    decreases |ss|
  {
    if ss == [] {
      assert |ts| == |multiset(ts)| == 0;
    } else {
      var k := |ss| - 1;
      var s := ss[k];
      assert s in multiset(ss);
      var j :| 0 <= j < |ts| && ts[j] == s;
      var rest := ts[..j] + ts[j + 1..];
      assert ts == ts[..j] + [s] + ts[j + 1..];
      assert multiset(ts) == multiset(rest) + multiset{s};
      assert ss == ss[..k] + [s];
      assert multiset(ss) == multiset(ss[..k]) + multiset{s};
      assert multiset(ss[..k]) == multiset(ss) - multiset{s};
      assert multiset(rest) == multiset(ts) - multiset{s};
      OrderIrrelevant(c, ss[..k], rest);
      AddAllConcat(c, ts[..j], ts[j + 1..]);
      AddAllConcat(c, ts[..j] + [s], ts[j + 1..]);
      AddAllConcat(c, ts[..j], [s]);
      var mid := AddAll(c, ts[..j]);
      assert AddAll(mid, [s]) == AddSample(mid, s) by {
        assert [s][..0] == [];
        assert AddAll(mid, []) == mid;
      }
      AddAllSwap(mid, ts[j + 1..], s);
    }
  }
}
