/** The counters as the machine keeps them, in 64 bits: they are the exact ones modulo 2^64. */
module Counters64 {
  import opened Arithmetic
  import opened Statistics

  const WORD: nat := 0x1_0000_0000_0000_0000

  lemma WordIsPastTheLargest()
    ensures WORD == UINT64_MAX + 1 == Pow2(64)
  {
    Pow2At32();
    Pow2Sum(32, 32);
  }

  lemma Pow2At8()
    ensures Pow2(8) == 0x100
  {
    assert Pow2(2) == 4 && Pow2(4) == 16 && Pow2(6) == 64;
  }

  lemma Pow2At32()
    ensures Pow2(32) == 0x1_0000_0000
  {
    Pow2At8();
    Pow2Sum(8, 8);
    Pow2Sum(16, 16);
  }

  lemma {:induction false} Pow2Sum(a: nat, b: nat)
    ensures Pow2(a + b) == Pow2(a) * Pow2(b)
  {
    if a > 0 {
      Pow2Sum(a - 1, b);
    }
  }

  /** A 64-bit unsigned addition. */
  function Add64(a: nat, b: nat): nat {
    (a + b) % WORD
  }

  function Bump64(c: Count, w: nat): Count {
    Count(Add64(c.count, 1), if w < c.min then w else c.min, if w > c.max then w else c.max, Add64(c.sum, w))
  }

  function AddSample64(c: MemCounters, s: Sample): MemCounters {
    MemCounters(
      Add64(c.totalCount, 1),
      Add64(c.totalWeight, s.weight),
      Add64(c.naMissCount, if Na in s.flags then 1 else 0),
      map b | b in c.buckets :: if Selects(s, b) then Bump64(c.buckets[b], s.weight) else c.buckets[b])
  }

  function AddAll64(c: MemCounters, ss: seq<Sample>): MemCounters {
    if ss == [] then c else AddSample64(AddAll64(c, ss[..|ss| - 1]), ss[|ss| - 1])
  }

  /** Exact counters cut down to 64 bits; minimum and maximum fit anyway. */
  function Cut(c: Count): Count {
    Count(c.count % WORD, c.min, c.max, c.sum % WORD)
  }

  function CutAll(c: MemCounters): MemCounters {
    MemCounters(
      c.totalCount % WORD, c.totalWeight % WORD, c.naMissCount % WORD,
      map b | b in c.buckets :: Cut(c.buckets[b]))
  }

  lemma AddCut(a: nat, b: nat)
    ensures Add64(a % WORD, b) == (a + b) % WORD
  {
    ModShift(a, b, WORD);
  }

  lemma BumpCut(c: Count, w: nat)
    ensures Bump64(Cut(c), w) == Cut(Bump(c, w))
  {
    AddCut(c.count, 1);
    AddCut(c.sum, w);
  }

  lemma AddSampleCut(c: MemCounters, s: Sample)
    ensures AddSample64(CutAll(c), s) == CutAll(AddSample(c, s))
  {
    AddCut(c.totalCount, 1);
    AddCut(c.totalWeight, s.weight);
    AddCut(c.naMissCount, if Na in s.flags then 1 else 0);
    var a, b := AddSample64(CutAll(c), s).buckets, CutAll(AddSample(c, s)).buckets;
    forall k | k in c.buckets
      ensures a[k] == b[k]
    {
      BumpCut(c.buckets[k], s.weight);
    }
    assert a.Keys == b.Keys;
  }

  /** After any samples the 64-bit counters are the exact counters modulo 2^64, so they are exact
      as long as the exact ones stay below. */
  lemma {:induction false} CountersModuloWord(c: MemCounters, ss: seq<Sample>)
    ensures AddAll64(CutAll(c), ss) == CutAll(AddAll(c, ss))
  {
    if ss != [] {
      CountersModuloWord(c, ss[..|ss| - 1]);
      AddSampleCut(AddAll(c, ss[..|ss| - 1]), ss[|ss| - 1]);
    }
  }

  lemma BucketWithinTotals(ss: seq<Sample>, b: Bucket)
    ensures b in AddAll(RESET_COUNTERS, ss).buckets
    ensures var c := AddAll(RESET_COUNTERS, ss);
            c.buckets[b].count <= c.totalCount && c.buckets[b].sum <= c.totalWeight
  {
    LevelWithinTotals(ss, b.level);
    assert b == Bucket(b.level, b.hit);
  }

  lemma {:induction false} NaWithinTotal(ss: seq<Sample>)
    ensures AddAll(RESET_COUNTERS, ss).naMissCount <= |ss|
  {
    if ss != [] {
      NaWithinTotal(ss[..|ss| - 1]);
    }
  }

  /** Counters that are all below 2^64 lose nothing when cut down. */
  lemma NothingCut(c: MemCounters)
    requires c.totalCount < WORD && c.totalWeight < WORD && c.naMissCount < WORD
    requires forall b | b in c.buckets :: Cut(c.buckets[b]) == c.buckets[b]
    ensures CutAll(c) == c
  {
    assert CutAll(c).buckets == c.buckets;
  }

  lemma BelowWord(n: nat)
    requires n < WORD
    ensures n % WORD == n
  {
  }

  /** From a reset on, fewer than 2^64 samples of a total weight below 2^64 keep every one of the
      64-bit counters exact. */
  lemma ExactBelowWord(ss: seq<Sample>)
    requires |ss| < WORD && AddAll(RESET_COUNTERS, ss).totalWeight < WORD
    ensures AddAll64(RESET_COUNTERS, ss) == AddAll(RESET_COUNTERS, ss)
  {
    var c := AddAll(RESET_COUNTERS, ss);
    TotalsExact(RESET_COUNTERS, ss);
    NaWithinTotal(ss);
    forall b | b in c.buckets
      ensures Cut(c.buckets[b]) == c.buckets[b]
    {
      BucketWithinTotals(ss, b);
      BelowWord(c.buckets[b].count);
      BelowWord(c.buckets[b].sum);
    }
    NothingCut(c);
    ResetUncut();
    CountersModuloWord(RESET_COUNTERS, ss);
  }

  lemma ResetUncut()
    ensures CutAll(RESET_COUNTERS) == RESET_COUNTERS
  {
    forall b | b in RESET_COUNTERS.buckets
      ensures Cut(RESET_COUNTERS.buckets[b]) == RESET_COUNTERS.buckets[b]
    {
      assert RESET_COUNTERS.buckets[b] == EMPTY_COUNT;
    }
    NothingCut(RESET_COUNTERS);
  }
}
