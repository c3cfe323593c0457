/** How many samples the profiler lets the kernel take before it drains, against the ring. */
module BufferSizing {
  import opened Arithmetic
  import opened Collection
  import opened PerfRecords
  import opened Ring

  const PAGE_SIZE: nat := 4096
  const MEM_SAMPLE_SIZE: nat := 40

  /** A sample record: the packed sample behind its header. */
  const SAMPLE_RECORD: nat := MEM_SAMPLE_SIZE + HEADER_SIZE

  function RingBytes(pages: nat): nat {
    pages * PAGE_SIZE
  }

  /** The refresh count: as many whole sample records as the ring has room for. */
  function RefreshCount(pages: nat): nat {
    RingBytes(pages) / SAMPLE_RECORD
  }

  /** A refresh burst of sample records stays strictly below the ring exactly when three does
      not divide the page count. */
  lemma BurstBelowRing(pages: nat)
    ensures RefreshCount(pages) * SAMPLE_RECORD < RingBytes(pages) <==> pages % 3 != 0
  {
    assert RingBytes(pages) == 4096 * pages;
    assert SAMPLE_RECORD == 48;
    var q := pages / 3;
    var r := pages % 3;
    assert RingBytes(pages) == 48 * (256 * q) + 4096 * r;
  }

  /** The refresh count is the largest number of 48-byte records that fits in the pages. */
  lemma BurstFills(pages: nat)
    ensures RefreshCount(pages) * 48 <= 4096 * pages < (RefreshCount(pages) + 1) * 48
    ensures RingBytes(pages) == 4096 * pages && SAMPLE_RECORD == 48
  {
  }

  /** Page counts are powers of two, so every refresh burst does. */
  lemma PowerOfTwoBurst(k: nat)
    ensures RefreshCount(Pow2(k)) * SAMPLE_RECORD < RingBytes(Pow2(k))
    ensures RefreshCount(Pow2(k)) > 0
  {
    Pow2NotByThree(k);
    BurstBelowRing(Pow2(k));
    Pow2Positive(k);
  }

  lemma {:induction false} Pow2Below(k: nat, n: nat)
    requires k <= n
    ensures Pow2(k) <= Pow2(n)
    decreases n - k
  {
    if k < n {
      Pow2Below(k + 1, n);
    }
  }

  /** Up to 2^19 pages, a ring's size is one the offsets can address. */
  lemma PagesMakeRings(k: nat)
    requires k <= 19
    ensures RingSize(RingBytes(Pow2(k)))
  {
    Pow2Positive(k);
    Pow2Below(k, 19);
    assert Pow2(3) == 0x8 && Pow2(5) == 0x20 && Pow2(7) == 0x80 && Pow2(9) == 0x200 && Pow2(11) == 0x800;
    assert Pow2(13) == 0x2000 && Pow2(15) == 0x8000 && Pow2(17) == 0x2_0000 && Pow2(19) == 0x8_0000;
  }

  function Appends(i: nat, recs: seq<seq<Byte>>): (es: seq<Event>)
    ensures |es| == |recs|
  {
    if recs == [] then [] else [Append(i, recs[0])] + Appends(i, recs[1..])
  }

  ghost predicate SmallRecords(recs: seq<seq<Byte>>) {
    AllRecords(recs) && forall k | 0 <= k < |recs| :: |recs[k]| <= SAMPLE_RECORD
  }

  lemma {:induction false} SmallRecordsLength(recs: seq<seq<Byte>>)
    requires SmallRecords(recs)
    ensures |Flat(recs)| <= |recs| * SAMPLE_RECORD
  {
    if recs != [] {
      SmallRecordsLength(recs[1..]);
    }
  }

  lemma BurstLength(recs: seq<seq<Byte>>, pages: nat)
    requires SmallRecords(recs) && |recs| <= RefreshCount(pages) && pages % 3 != 0
    ensures |Flat(recs)| < RingBytes(pages)
  {
    SmallRecordsLength(recs);
    BurstBelowRing(pages);
  }

  lemma AppendAdmissible(sizes: seq<nat>, es: seq<Event>, i: nat, rec: seq<Byte>)
    requires Admissible(sizes, es) && i < |sizes| && IsRecord(rec)
    requires |Flat(Pending(es, i) + [rec])| < sizes[i]
    ensures Admissible(sizes, es + [Append(i, rec)])
    ensures Pending(es + [Append(i, rec)], i) == Pending(es, i) + [rec]
  {
    assert (es + [Append(i, rec)])[..|es|] == es;
    FlatConcat(Pending(es, i), [rec]);
    FlatOne(rec);
  }

  lemma FirstOfBatch(waiting: seq<seq<Byte>>, recs: seq<seq<Byte>>)
    requires recs != []
    ensures waiting + [recs[0]] + recs[1..] == waiting + recs
    ensures |Flat(waiting + [recs[0]])| <= |Flat(waiting + recs)|
  {
    assert waiting + recs == waiting + [recs[0]] + recs[1..];
    FlatConcat(waiting + [recs[0]], recs[1..]);
  }

  lemma AppendsFirst(es: seq<Event>, i: nat, recs: seq<seq<Byte>>)
    requires recs != []
    ensures es + Appends(i, recs) == es + [Append(i, recs[0])] + Appends(i, recs[1..])
  {
  }

  /** Records that together fit on top of what is pending can all be appended. */
  lemma {:induction false} BatchAdmissible(sizes: seq<nat>, es: seq<Event>, i: nat, recs: seq<seq<Byte>>)
    requires Admissible(sizes, es) && i < |sizes| && AllRecords(recs)
    requires |Flat(Pending(es, i) + recs)| < sizes[i]
    ensures Admissible(sizes, es + Appends(i, recs))
    ensures Pending(es + Appends(i, recs), i) == Pending(es, i) + recs
    decreases |recs|
  {
    var waiting := Pending(es, i);
    if recs == [] {
      assert es + Appends(i, recs) == es && waiting + recs == waiting;
    } else {
      var e := Append(i, recs[0]);
      FirstOfBatch(waiting, recs);
      AppendAdmissible(sizes, es, i, recs[0]);
      BatchAdmissible(sizes, es + [e], i, recs[1..]);
      AppendsFirst(es, i, recs);
    }
  }

  /** From a drained ring, a refresh burst of records no larger than a sample record can be
      appended whole, so none of it is overwritten or mistaken for nothing: the next drain
      finds exactly those records. */
  lemma BurstIsAdmissible(sizes: seq<nat>, es: seq<Event>, i: nat, pages: nat, recs: seq<seq<Byte>>)
    requires Admissible(sizes, es) && i < |sizes| && Pending(es, i) == []
    requires sizes[i] == RingBytes(pages) && pages % 3 != 0
    requires SmallRecords(recs) && |recs| <= RefreshCount(pages)
    ensures Admissible(sizes, es + Appends(i, recs))
    ensures Pending(es + Appends(i, recs), i) == recs
  {
    BurstLength(recs, pages);
    assert Pending(es, i) + recs == recs;
    BatchAdmissible(sizes, es, i, recs);
  }
}
