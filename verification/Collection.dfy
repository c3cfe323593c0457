/** What the profiler as a whole computes: rings filled by the kernel and drained by the
    profiler in any order, with the ledgers and counters every drain updates. */
module Collection {
  import opened PerfRecords
  import opened Ring
  import opened Statistics

  /** How a record becomes a sample. `decode` reads a record that lies whole in a buffer;
      `rebuild` is whatever is read when a record runs past the end of the buffer. */
  datatype Codec = Codec(decode: seq<Byte> -> Sample, rebuild: (seq<Byte>, nat, nat) -> Sample)

  function SampleAt(codec: Codec, b: seq<Byte>, v: Visit): Sample {
    if v.offset + v.size > |b| then codec.rebuild(b, v.offset, v.size)
    else codec.decode(b[v.offset..v.offset + v.size])
  }

  /** The samples a walk hands to the counters, in order. */
  function SamplesSeen(codec: Codec, b: seq<Byte>, vs: seq<Visit>): seq<Sample> {
    if vs == [] then []
    else
      var v := vs[|vs| - 1];
      SamplesSeen(codec, b, vs[..|vs| - 1]) +
      (if v.kind == PERF_RECORD_SAMPLE then [SampleAt(codec, b, v)] else [])
  }

  /** One more visit adds its sample, if it is one, to the samples seen and to the counters. */
  lemma SeenSnoc(codec: Codec, b: seq<Byte>, vs: seq<Visit>, v: Visit, c: MemCounters)
    ensures var seen, seen' := SamplesSeen(codec, b, vs), SamplesSeen(codec, b, vs + [v]);
            if v.kind == PERF_RECORD_SAMPLE then
              && |seen'| == |seen| + 1
              && AddAll(c, seen') == AddSample(AddAll(c, seen), SampleAt(codec, b, v))
            else seen' == seen
  {
    assert (vs + [v])[..|vs|] == vs;
    var seen, seen' := SamplesSeen(codec, b, vs), SamplesSeen(codec, b, vs + [v]);
    if v.kind == PERF_RECORD_SAMPLE {
      assert seen'[..|seen|] == seen;
    }
  }

  /** The samples among a sequence of records. */
  function SamplesOf(codec: Codec, rs: seq<seq<Byte>>): (ss: seq<Sample>) {
    if rs == [] then []
    else
      var r := rs[|rs| - 1];
      SamplesOf(codec, rs[..|rs| - 1]) + (if IsSample(r) then [codec.decode(r)] else [])
  }

  lemma {:induction false} SamplesConcat(codec: Codec, a: seq<seq<Byte>>, b: seq<seq<Byte>>)
    ensures SamplesOf(codec, a + b) == SamplesOf(codec, a) + SamplesOf(codec, b)
    decreases |b|
  {
    if b == [] {
      assert a + b == a;
    } else {
      var k := |b| - 1;
      SamplesConcat(codec, a, b[..k]);
      assert (a + b)[..|a + b| - 1] == a + b[..k];
      assert SamplesOf(codec, b) == SamplesOf(codec, b[..k]) + (if IsSample(b[k]) then [codec.decode(b[k])] else []);
    }
  }

  lemma {:induction false} SeenUpTo(codec: Codec, rs: seq<seq<Byte>>, n: nat)
    requires AllRecords(rs) && n <= |rs|
    ensures SamplesSeen(codec, Flat(rs), Layout(rs, 0)[..n]) == SamplesOf(codec, rs[..n])
  {
    if n > 0 {
      SeenUpTo(codec, rs, n - 1);
      LayoutAt(rs, 0, n - 1);
      CoversRecord(rs, n - 1);
      assert Layout(rs, 0)[..n][..n - 1] == Layout(rs, 0)[..n - 1];
      assert rs[..n][..n - 1] == rs[..n - 1];
    }
  }

  /** On a buffer of whole records the samples seen are the sample records, decoded. */
  lemma SeenAreTheSamples(codec: Codec, rs: seq<seq<Byte>>)
    requires AllRecords(rs)
    ensures SamplesSeen(codec, Flat(rs), LinearWalk(Flat(rs), 0).visits) == SamplesOf(codec, rs)
  {
    WalkOfStream(rs);
    SeenUpTo(codec, rs, |rs|);
    assert Layout(rs, 0)[..|rs|] == Layout(rs, 0);
    assert rs[..|rs|] == rs;
  }

  // ----- the ledgers -----

  datatype Ledger =
    Ledger(totalBytes: nat, nbSamples: nat, nbBuffers: nat, counters: seq<MemCounters>)

  const RESET: seq<MemCounters> := [RESET_COUNTERS, RESET_COUNTERS]

  /** What draining one chunk does to the ledgers and counters. */
  function Absorb(codec: Codec, g: Ledger, at: AccessType, chunk: seq<Byte>): Ledger
    requires |g.counters| == 2
  {
    if chunk == [] then g
    else
      var ss := SamplesSeen(codec, chunk, LinearWalk(chunk, 0).visits);
      Ledger(
        g.totalBytes + |chunk|,
        g.nbSamples + |ss|,
        g.nbBuffers + 1,
        g.counters[at := AddAll(g.counters[at], ss)])
  }

  /** Draining several chunks, first to last. */
  function AbsorbAll(codec: Codec, g: Ledger, at: AccessType, chunks: seq<seq<Byte>>): (r: Ledger)
    requires |g.counters| == 2
    ensures |r.counters| == 2
  {
    if chunks == [] then g
    else Absorb(codec, AbsorbAll(codec, g, at, chunks[..|chunks| - 1]), at, chunks[|chunks| - 1])
  }

  lemma AbsorbNext(codec: Codec, g: Ledger, at: AccessType, chunks: seq<seq<Byte>>, k: nat)
    requires |g.counters| == 2 && k < |chunks|
    ensures AbsorbAll(codec, g, at, chunks[..k + 1]) ==
            Absorb(codec, AbsorbAll(codec, g, at, chunks[..k]), at, chunks[k])
  {
    assert chunks[..k + 1][..k] == chunks[..k];
  }

  /** Draining as one access type leaves the other's counters as they were. */
  lemma {:induction false} AbsorbAllOther(codec: Codec, g: Ledger, at: AccessType, chunks: seq<seq<Byte>>)
    requires |g.counters| == 2
    ensures AbsorbAll(codec, g, at, chunks).counters[1 - at] == g.counters[1 - at]
  {
    if chunks != [] {
      AbsorbAllOther(codec, g, at, chunks[..|chunks| - 1]);
    }
  }

  // ----- runs -----

  /** The kernel appends a record to a ring, the profiler drains a ring, or the counters are reset. */
  datatype Event = Append(ring: nat, rec: seq<Byte>) | Drain(ring: nat, at: AccessType) | Reset

  datatype Session = Session(lanes: seq<Lane>, ledger: Ledger)

  function Fresh(n: nat): Lane {
    Lane(RingState(seq(n, _ => 0), 0, 0), [], 0, [])
  }

  /** The sizes of a measure's rings. */
  function EqualSizes(rings: nat, size: nat): seq<nat> {
    seq(rings, _ => size)
  }

  function Start(sizes: seq<nat>): Session {
    Session(seq(|sizes|, i requires 0 <= i < |sizes| => Fresh(sizes[i])), Ledger(0, 0, 0, RESET))
  }

  /** The rings have their sizes, and tails lie inside them. */
  ghost predicate Shaped(sizes: seq<nat>, s: Session) {
    && |s.ledger.counters| == 2
    && |s.lanes| == |sizes|
    && forall i | 0 <= i < |sizes| :: s.lanes[i].ring.tail < |s.lanes[i].ring.mem| == sizes[i]
  }

  ghost function Step(codec: Codec, sizes: seq<nat>, s: Session, e: Event): (s': Session)
    requires Shaped(sizes, s) && (!e.Reset? ==> e.ring < |sizes|)
    ensures Shaped(sizes, s')
  {
    match e
    case Append(i, rec) => s.(lanes := s.lanes[i := LaneAppend(s.lanes[i], rec)])
    case Drain(i, at) =>
      Session(
        s.lanes[i := LaneDrain(s.lanes[i])],
        Absorb(codec, s.ledger, at, Unread(s.lanes[i].ring)))
    case Reset => s.(ledger := s.ledger.(counters := RESET))
  }

  // What a run should amount to, read off the events alone.

  /** Every record the kernel appends to ring i. */
  function Produced(es: seq<Event>, i: nat): seq<seq<Byte>> {
    if es == [] then []
    else
      var e := es[|es| - 1];
      Produced(es[..|es| - 1], i) + (if e.Append? && e.ring == i then [e.rec] else [])
  }

  /** Those of ring i that were appended before its last drain. */
  function UpToLastDrain(es: seq<Event>, i: nat): seq<seq<Byte>> {
    if es == [] then []
    else
      var e := es[|es| - 1];
      if e.Drain? && e.ring == i then Produced(es[..|es| - 1], i) else UpToLastDrain(es[..|es| - 1], i)
  }

  /** Those of ring i that were appended after its last drain. */
  function Pending(es: seq<Event>, i: nat): seq<seq<Byte>> {
    if es == [] then []
    else
      var e := es[|es| - 1];
      var before := Pending(es[..|es| - 1], i);
      if e.Append? && e.ring == i then before + [e.rec]
      else if e.Drain? && e.ring == i then []
      else before
  }

  /** All records drained, over all rings, in the order of the drains. */
  function Consumed(es: seq<Event>): seq<seq<Byte>> {
    if es == [] then []
    else
      var e := es[|es| - 1];
      Consumed(es[..|es| - 1]) + (if e.Drain? then Pending(es[..|es| - 1], e.ring) else [])
  }

  /** The records drained as accesses of type `at` since the last reset. */
  function ConsumedAs(es: seq<Event>, at: AccessType): seq<seq<Byte>> {
    if es == [] then []
    else
      var e := es[|es| - 1];
      if e.Reset? then []
      else
        ConsumedAs(es[..|es| - 1], at) +
        (if e.Drain? && e.at == at then Pending(es[..|es| - 1], e.ring) else [])
  }

  /** The records drained before the last reset. */
  function ConsumedBeforeReset(es: seq<Event>): seq<seq<Byte>> {
    if es == [] then []
    else if es[|es| - 1].Reset? then Consumed(es[..|es| - 1])
    else ConsumedBeforeReset(es[..|es| - 1])
  }

  function NonEmptyDrains(es: seq<Event>): nat {
    if es == [] then 0
    else
      var e := es[|es| - 1];
      NonEmptyDrains(es[..|es| - 1]) + (if e.Drain? && Pending(es[..|es| - 1], e.ring) != [] then 1 else 0)
  }

  /** The events name rings that exist, append whole records, and keep the undrained bytes of
      each ring strictly below its size. Drains and resets come at any time. */
  ghost predicate Admissible(sizes: seq<nat>, es: seq<Event>) {
    es == [] ||
    var before, e := es[..|es| - 1], es[|es| - 1];
    && Admissible(sizes, before)
    && (match e
        case Append(i, rec) =>
          i < |sizes| && IsRecord(rec) && |Flat(Pending(before, i))| + |rec| < sizes[i]
        case Drain(i, _) => i < |sizes|
        case Reset => true)
  }

  ghost predicate LaneMatches(l: Lane, n: nat, es: seq<Event>, i: nat) {
    && Consistent(l)
    && |l.ring.mem| == n
    && l.log == Produced(es, i)
    && l.log[..l.taken] == UpToLastDrain(es, i)
    && l.log[l.taken..] == Pending(es, i)
  }

  /** The ledgers the events alone prescribe. */
  ghost predicate TotalsMatch(codec: Codec, g: Ledger, es: seq<Event>) {
    && g.totalBytes == |Flat(Consumed(es))|
    && g.nbSamples == |SamplesOf(codec, Consumed(es))|
    && g.nbBuffers == NonEmptyDrains(es)
  }

  ghost predicate CountersMatch(codec: Codec, g: Ledger, es: seq<Event>, at: AccessType) {
    && |g.counters| == 2
    && g.counters[at] == AddAll(RESET_COUNTERS, SamplesOf(codec, ConsumedAs(es, at)))
  }

  /** Every sample drained since the last reset was drained as one of the two access types. */
  ghost predicate TypesPartition(codec: Codec, es: seq<Event>) {
    |SamplesOf(codec, ConsumedBeforeReset(es))|
       + |SamplesOf(codec, ConsumedAs(es, 0))| + |SamplesOf(codec, ConsumedAs(es, 1))|
       == |SamplesOf(codec, Consumed(es))|
  }

  ghost predicate LedgerMatches(codec: Codec, g: Ledger, es: seq<Event>) {
    && TotalsMatch(codec, g, es)
    && CountersMatch(codec, g, es, 0)
    && CountersMatch(codec, g, es, 1)
    && TypesPartition(codec, es)
  }

  ghost predicate Matches(codec: Codec, sizes: seq<nat>, s: Session, es: seq<Event>) {
    && |s.lanes| == |sizes|
    && (forall i | 0 <= i < |sizes| :: LaneMatches(s.lanes[i], sizes[i], es, i))
    && LedgerMatches(codec, s.ledger, es)
  }

  ghost predicate GoodSizes(sizes: seq<nat>) {
    forall i | 0 <= i < |sizes| :: RingSize(sizes[i])
  }

  /** The rings of any measure, all of one size, make a collection. */
  lemma MeasuresAreGood(rings: nat, size: nat)
    requires RingSize(size)
    ensures GoodSizes(EqualSizes(rings, size)) && |EqualSizes(rings, size)| == rings
  {
  }

  lemma StartMatches(codec: Codec, sizes: seq<nat>)
    requires GoodSizes(sizes)
    ensures Matches(codec, sizes, Start(sizes), [])
  {
    forall i | 0 <= i < |sizes|
      ensures LaneMatches(Start(sizes).lanes[i], sizes[i], [], i)
    {
      assert RingSize(sizes[i]);
      assert Fresh(sizes[i]).log[..0] == [];
    }
  }

  lemma AppendMatches(l: Lane, n: nat, es: seq<Event>, e: Event)
    requires e.Append? && LaneMatches(l, n, es, e.ring)
    requires IsRecord(e.rec) && |Flat(Pending(es, e.ring))| + |e.rec| < n
    ensures LaneMatches(LaneAppend(l, e.rec), n, es + [e], e.ring)
  {
    UnreadIsLogSuffix(l);
    AppendKeepsConsistent(l, e.rec);
    AppendInEvents(es, e);
    SnocSlices(l.log, e.rec, l.taken);
  }

  lemma AppendInEvents(es: seq<Event>, e: Event)
    requires e.Append?
    ensures Produced(es + [e], e.ring) == Produced(es, e.ring) + [e.rec]
    ensures UpToLastDrain(es + [e], e.ring) == UpToLastDrain(es, e.ring)
    ensures Pending(es + [e], e.ring) == Pending(es, e.ring) + [e.rec]
  {
    assert (es + [e])[..|es|] == es;
  }

  lemma SnocSlices<T>(s: seq<T>, x: T, k: nat)
    requires k <= |s|
    ensures (s + [x])[..k] == s[..k] && (s + [x])[k..] == s[k..] + [x]
  {
  }

  lemma DrainMatches(l: Lane, n: nat, es: seq<Event>, e: Event)
    requires e.Drain? && LaneMatches(l, n, es, e.ring)
    ensures l.ring.tail < |l.ring.mem|
    ensures Unread(l.ring) == Flat(Pending(es, e.ring))
    ensures LaneMatches(LaneDrain(l), n, es + [e], e.ring)
  {
    var es' := es + [e];
    UnreadIsLogSuffix(l);
    DrainKeepsConsistent(l);
    assert es'[..|es' | - 1] == es;
    assert l.log[..|l.log|] == l.log && l.log[|l.log|..] == [];
    assert Produced(es', e.ring) == Produced(es, e.ring);
  }

  lemma OtherLaneMatches(l: Lane, n: nat, es: seq<Event>, e: Event, i: nat)
    requires LaneMatches(l, n, es, i) && (e.Reset? || e.ring != i)
    ensures LaneMatches(l, n, es + [e], i)
  {
    assert (es + [e])[..|es|] == es;
  }

  /** Absorbing the stream of some records adds their bytes, their samples and one buffer. */
  lemma AbsorbStream(codec: Codec, g: Ledger, at: AccessType, rs: seq<seq<Byte>>)
    requires AllRecords(rs) && |g.counters| == 2
    ensures Absorb(codec, g, at, Flat(rs)) ==
            Ledger(
              g.totalBytes + |Flat(rs)|,
              g.nbSamples + |SamplesOf(codec, rs)|,
              g.nbBuffers + (if rs != [] then 1 else 0),
              g.counters[at := AddAll(g.counters[at], SamplesOf(codec, rs))])
  {
    FlatAligned(rs);
    if rs != [] {
      SeenAreTheSamples(codec, rs);
    }
  }

  lemma AbsorbCounters(codec: Codec, g: Ledger, at: AccessType, rs: seq<seq<Byte>>, other: AccessType)
    requires AllRecords(rs) && |g.counters| == 2
    ensures Absorb(codec, g, at, Flat(rs)).counters[other] ==
            if other == at then AddAll(g.counters[at], SamplesOf(codec, rs)) else g.counters[other]
  {
    AbsorbStream(codec, g, at, rs);
  }

  lemma DrainTotals(codec: Codec, g: Ledger, es: seq<Event>, e: Event)
    requires e.Drain? && TotalsMatch(codec, g, es) && AllRecords(Pending(es, e.ring)) && |g.counters| == 2
    ensures TotalsMatch(codec, Absorb(codec, g, e.at, Flat(Pending(es, e.ring))), es + [e])
  {
    var rs := Pending(es, e.ring);
    assert (es + [e])[..|es|] == es;
    AbsorbStream(codec, g, e.at, rs);
    FlatConcat(Consumed(es), rs);
    SamplesConcat(codec, Consumed(es), rs);
  }

  lemma DrainCounters(codec: Codec, g: Ledger, es: seq<Event>, e: Event, at: AccessType)
    requires e.Drain? && CountersMatch(codec, g, es, at) && AllRecords(Pending(es, e.ring))
    ensures CountersMatch(codec, Absorb(codec, g, e.at, Flat(Pending(es, e.ring))), es + [e], at)
  {
    DrainInEvents(es, e);
    AbsorbCounters(codec, g, e.at, Pending(es, e.ring), at);
    if e.at == at {
      MoreCounted(codec, ConsumedAs(es, at), Pending(es, e.ring));
    } else {
      assert at == 1 - e.at;
    }
  }

  lemma MoreCounted(codec: Codec, seen: seq<seq<Byte>>, rs: seq<seq<Byte>>)
    ensures AddAll(RESET_COUNTERS, SamplesOf(codec, seen + rs)) ==
            AddAll(AddAll(RESET_COUNTERS, SamplesOf(codec, seen)), SamplesOf(codec, rs))
  {
    SamplesConcat(codec, seen, rs);
    AddAllConcat(RESET_COUNTERS, SamplesOf(codec, seen), SamplesOf(codec, rs));
  }

  lemma DrainPartition(codec: Codec, es: seq<Event>, e: Event)
    requires e.Drain? && TypesPartition(codec, es)
    ensures TypesPartition(codec, es + [e])
  {
    var rs := Pending(es, e.ring);
    DrainInEvents(es, e);
    SamplesConcat(codec, Consumed(es), rs);
    SamplesConcat(codec, ConsumedAs(es, e.at), rs);
    assert e.at == 0 || e.at == 1;
  }

  lemma DrainInEvents(es: seq<Event>, e: Event)
    requires e.Drain?
    ensures Consumed(es + [e]) == Consumed(es) + Pending(es, e.ring)
    ensures ConsumedBeforeReset(es + [e]) == ConsumedBeforeReset(es)
    ensures ConsumedAs(es + [e], e.at) == ConsumedAs(es, e.at) + Pending(es, e.ring)
    ensures ConsumedAs(es + [e], 1 - e.at) == ConsumedAs(es, 1 - e.at)
  {
    assert (es + [e])[..|es|] == es;
  }

  lemma ResetLedger(codec: Codec, g: Ledger, es: seq<Event>)
    requires LedgerMatches(codec, g, es)
    ensures LedgerMatches(codec, g.(counters := RESET), es + [Reset])
  {
    assert (es + [Reset])[..|es|] == es;
    assert Consumed(es + [Reset]) == Consumed(es);
  }

  lemma AppendLedger(codec: Codec, g: Ledger, es: seq<Event>, e: Event)
    requires e.Append? && LedgerMatches(codec, g, es)
    ensures LedgerMatches(codec, g, es + [e])
  {
    assert (es + [e])[..|es|] == es;
    assert Consumed(es + [e]) == Consumed(es);
    assert ConsumedAs(es + [e], 0) == ConsumedAs(es, 0);
    assert ConsumedAs(es + [e], 1) == ConsumedAs(es, 1);
  }

  lemma StepLaneMatches(codec: Codec, sizes: seq<nat>, s: Session, es: seq<Event>, e: Event, i: nat)
    requires Matches(codec, sizes, s, es) && Admissible(sizes, es + [e]) && Shaped(sizes, s) && i < |sizes|
    requires !e.Reset? ==> e.ring < |sizes|
    ensures LaneMatches(Step(codec, sizes, s, e).lanes[i], sizes[i], es + [e], i)
  {
    assert (es + [e])[..|es|] == es;
    assert LaneMatches(s.lanes[i], sizes[i], es, i);
    if e.Reset? || e.ring != i {
      OtherLaneMatches(s.lanes[i], sizes[i], es, e, i);
    } else if e.Append? {
      AppendMatches(s.lanes[i], sizes[i], es, e);
    } else {
      DrainMatches(s.lanes[i], sizes[i], es, e);
    }
  }

  lemma DrainLedger(codec: Codec, g: Ledger, es: seq<Event>, e: Event)
    requires e.Drain? && LedgerMatches(codec, g, es) && AllRecords(Pending(es, e.ring))
    ensures LedgerMatches(codec, Absorb(codec, g, e.at, Flat(Pending(es, e.ring))), es + [e])
  {
    DrainTotals(codec, g, es, e);
    DrainCounters(codec, g, es, e, 0);
    DrainCounters(codec, g, es, e, 1);
    DrainPartition(codec, es, e);
  }

  lemma StepMatches(codec: Codec, sizes: seq<nat>, s: Session, es: seq<Event>, e: Event)
    requires Matches(codec, sizes, s, es) && Admissible(sizes, es + [e]) && Shaped(sizes, s)
    ensures !e.Reset? ==> e.ring < |sizes|
    ensures Matches(codec, sizes, Step(codec, sizes, s, e), es + [e])
  {
    assert (es + [e])[..|es|] == es;
    forall i | 0 <= i < |sizes|
      ensures LaneMatches(Step(codec, sizes, s, e).lanes[i], sizes[i], es + [e], i)
    {
      StepLaneMatches(codec, sizes, s, es, e, i);
    }
    if e.Drain? {
      DrainMatches(s.lanes[e.ring], sizes[e.ring], es, e);
      DrainLedger(codec, s.ledger, es, e);
    } else if e.Append? {
      AppendLedger(codec, s.ledger, es, e);
    } else {
      ResetLedger(codec, s.ledger, es);
    }
  }

  /** The state after a run. */
  ghost function Run(codec: Codec, sizes: seq<nat>, es: seq<Event>): (s: Session)
    requires GoodSizes(sizes) && Admissible(sizes, es)
    ensures Shaped(sizes, s)
    decreases |es|
  {
    if es == [] then
      assert forall i | 0 <= i < |sizes| :: RingSize(sizes[i]);
      Start(sizes)
    else
      Step(codec, sizes, Run(codec, sizes, es[..|es| - 1]), es[|es| - 1])
  }

  lemma {:induction false} RunMatches(codec: Codec, sizes: seq<nat>, es: seq<Event>)
    requires GoodSizes(sizes) && Admissible(sizes, es)
    ensures Matches(codec, sizes, Run(codec, sizes, es), es)
    decreases |es|
  {
    if es == [] {
      StartMatches(codec, sizes);
    } else {
      var before, e := es[..|es| - 1], es[|es| - 1];
      assert before + [e] == es;
      RunMatches(codec, sizes, before);
      StepMatches(codec, sizes, Run(codec, sizes, before), before, e);
    }
  }

  /** Nothing lost, repeated or reordered: whatever the interleaving, the bytes copied out of
      a ring are the stream of the records appended to it before its last drain. */
  lemma ReadExactlyOnce(codec: Codec, sizes: seq<nat>, es: seq<Event>, i: nat)
    requires GoodSizes(sizes) && Admissible(sizes, es) && i < |sizes|
    ensures var l := Run(codec, sizes, es).lanes[i];
            && l.copied == Flat(UpToLastDrain(es, i))
            && l.copied <= Flat(Produced(es, i))
            && l.ring.tail == |l.copied| % sizes[i]
  {
    var l := Run(codec, sizes, es).lanes[i];
    RunMatches(codec, sizes, es);
    assert LaneMatches(l, sizes[i], es, i);
    FlatSplit(l.log, l.taken);
  }

  lemma {:induction false} PendingAreRecords(sizes: seq<nat>, es: seq<Event>, i: nat)
    requires Admissible(sizes, es)
    ensures AllRecords(Pending(es, i))
  {
    if es != [] {
      PendingAreRecords(sizes, es[..|es| - 1], i);
    }
  }

  /** Nothing but whole records is ever drained. */
  lemma {:induction false} ConsumedAreRecords(sizes: seq<nat>, es: seq<Event>)
    requires Admissible(sizes, es)
    ensures AllRecords(Consumed(es)) && AllRecords(ConsumedBeforeReset(es))
    ensures forall at: AccessType :: AllRecords(ConsumedAs(es, at))
  {
    if es != [] {
      ConsumedAreRecords(sizes, es[..|es| - 1]);
      if es[|es| - 1].Drain? {
        PendingAreRecords(sizes, es[..|es| - 1], es[|es| - 1].ring);
      }
    }
  }

  /** The ledgers balance after every run. */
  lemma LedgersBalance(codec: Codec, sizes: seq<nat>, es: seq<Event>)
    requires GoodSizes(sizes) && Admissible(sizes, es)
    ensures var g := Run(codec, sizes, es).ledger;
            && AllRecords(Consumed(es)) && AllRecords(ConsumedBeforeReset(es))
            && g.totalBytes == |Flat(Consumed(es))|
            && g.nbSamples == |SamplesOf(codec, Consumed(es))|
            && g.nbBuffers == NonEmptyDrains(es)
            && g.counters[0].totalCount + g.counters[1].totalCount
               == g.nbSamples - |SamplesOf(codec, ConsumedBeforeReset(es))|
  {
    RunMatches(codec, sizes, es);
    ConsumedAreRecords(sizes, es);
    TotalsExact(RESET_COUNTERS, SamplesOf(codec, ConsumedAs(es, 0)));
    TotalsExact(RESET_COUNTERS, SamplesOf(codec, ConsumedAs(es, 1)));
  }

  /** After every run each counter summarises exactly the samples drained since the last reset
      with its access type that select it. */
  lemma CountersSummarise(codec: Codec, sizes: seq<nat>, es: seq<Event>, at: AccessType, b: Bucket)
    requires GoodSizes(sizes) && Admissible(sizes, es)
    ensures var c := Run(codec, sizes, es).ledger.counters[at];
            && AllRecords(ConsumedAs(es, at))
            && b in c.buckets
            && Summarises(c.buckets[b], Weights(SamplesOf(codec, ConsumedAs(es, at)), b))
  {
    RunCounters(codec, sizes, es, at);
    ConsumedAreRecords(sizes, es);
    BucketsSummarise(SamplesOf(codec, ConsumedAs(es, at)), b);
  }

  /** And the totals beside them, of the same samples: their number, their weight, and how many of
      them carry the flag for an unavailable level. */
  lemma TotalsSummarise(codec: Codec, sizes: seq<nat>, es: seq<Event>, at: AccessType)
    requires GoodSizes(sizes) && Admissible(sizes, es)
    ensures var c, ss := Run(codec, sizes, es).ledger.counters[at], SamplesOf(codec, ConsumedAs(es, at));
            && AllRecords(ConsumedAs(es, at))
            && c.totalCount == |ss|
            && c.totalWeight == Sum(seq(|ss|, i requires 0 <= i < |ss| => ss[i].weight))
            && c.naMissCount == WithNa(ss)
  {
    var ss := SamplesOf(codec, ConsumedAs(es, at));
    RunCounters(codec, sizes, es, at);
    ConsumedAreRecords(sizes, es);
    TotalsExact(RESET_COUNTERS, ss);
    NaExact(RESET_COUNTERS, ss);
  }

  lemma RunCounters(codec: Codec, sizes: seq<nat>, es: seq<Event>, at: AccessType)
    requires GoodSizes(sizes) && Admissible(sizes, es)
    ensures CountersMatch(codec, Run(codec, sizes, es).ledger, es, at)
  {
    RunMatches(codec, sizes, es);
    LedgerCounters(codec, Run(codec, sizes, es).ledger, es, at);
  }

  lemma LedgerCounters(codec: Codec, g: Ledger, es: seq<Event>, at: AccessType)
    requires LedgerMatches(codec, g, es)
    ensures CountersMatch(codec, g, es, at)
  {
    assert at == 0 || at == 1;
  }

  // ----- several rings at once -----

  ghost predicate AllConsistent(ls: seq<Lane>) {
    forall t | 0 <= t < |ls| :: Consistent(ls[t])
  }

  /** A ring drained; reduced tails lie inside the ring. */
  function OneDrained(l: Lane): Lane {
    if l.ring.tail < |l.ring.mem| then LaneDrain(l) else l
  }

  function OneUnread(l: Lane): seq<Byte> {
    if l.ring.tail < |l.ring.mem| then Unread(l.ring) else []
  }

  /** The first n rings drained, the others as they were. */
  function DrainFirst(ls: seq<Lane>, n: nat): (r: seq<Lane>)
    ensures |r| == |ls|
  {
    seq(|ls|, t requires 0 <= t < |ls| => if t < n then OneDrained(ls[t]) else ls[t])
  }

  function DrainAll(ls: seq<Lane>): seq<Lane> {
    DrainFirst(ls, |ls|)
  }

  /** What is unread in each ring. */
  function UnreadAll(ls: seq<Lane>): (r: seq<seq<Byte>>)
    ensures |r| == |ls|
  {
    seq(|ls|, t requires 0 <= t < |ls| => OneUnread(ls[t]))
  }

  lemma DrainAllConsistent(ls: seq<Lane>)
    requires AllConsistent(ls)
    ensures AllConsistent(DrainAll(ls))
    ensures forall t | 0 <= t < |ls| :: ls[t].ring.tail < |ls[t].ring.mem| && DrainAll(ls)[t] == LaneDrain(ls[t])
  {
    forall t | 0 <= t < |ls|
      ensures ls[t].ring.tail < |ls[t].ring.mem| && Consistent(LaneDrain(ls[t]))
    {
      assert Consistent(ls[t]);
      DrainKeepsConsistent(ls[t]);
    }
  }

  /** With nothing appended since the last drain, the next drain of a ring changes nothing. */
  lemma SecondDrainIdle(l: Lane)
    requires Consistent(l)
    ensures l.ring.tail < |l.ring.mem|
    ensures LaneDrain(l).ring.tail < |l.ring.mem|
    ensures LaneDrain(LaneDrain(l)) == LaneDrain(l)
    ensures Unread(LaneDrain(l).ring) == []
  {
    UnreadIsLogSuffix(l);
    DrainKeepsConsistent(l);
    assert l.copied + Unread(l.ring) + [] == l.copied + Unread(l.ring);
  }

  /** Chunks that are all empty change no ledger. */
  lemma {:induction false} AbsorbNothing(codec: Codec, g: Ledger, at: AccessType, chunks: seq<seq<Byte>>)
    requires |g.counters| == 2 && forall t | 0 <= t < |chunks| :: chunks[t] == []
    ensures AbsorbAll(codec, g, at, chunks) == g
  {
    if chunks != [] {
      AbsorbNothing(codec, g, at, chunks[..|chunks| - 1]);
    }
  }

  /** A second pass over any number of rings changes no ring, ledger or counter. */
  lemma SecondPassIdle(codec: Codec, ls: seq<Lane>, g: Ledger, at: AccessType)
    requires AllConsistent(ls) && |g.counters| == 2
    ensures DrainAll(DrainAll(ls)) == DrainAll(ls)
    ensures AbsorbAll(codec, g, at, UnreadAll(DrainAll(ls))) == g
  {
    DrainAllConsistent(ls);
    forall t | 0 <= t < |ls|
      ensures UnreadAll(DrainAll(ls))[t] == [] && DrainAll(DrainAll(ls))[t] == DrainAll(ls)[t]
    {
      assert Consistent(ls[t]);
      SecondDrainIdle(ls[t]);
    }
    AbsorbNothing(codec, g, at, UnreadAll(DrainAll(ls)));
  }

  // ----- a pass as part of a run -----

  /** Rings that exist, no ring twice: those of one measure among all of them. */
  ghost predicate SomeRings(idx: seq<nat>, n: nat) {
    && (forall t | 0 <= t < |idx| :: idx[t] < n)
    && (forall t, u | 0 <= t < u < |idx| :: idx[t] != idx[u])
  }

  /** Among them, all rings in order. */
  lemma AllAreSome(n: nat)
    ensures SomeRings(seq(n, i => i), n)
  {
  }

  function Select(ls: seq<Lane>, idx: seq<nat>): (r: seq<Lane>)
    requires forall t | 0 <= t < |idx| :: idx[t] < |ls|
    ensures |r| == |idx|
  {
    if idx == [] then [] else Select(ls, idx[..|idx| - 1]) + [ls[idx[|idx| - 1]]]
  }

  /** One drain for each of the rings, in order. */
  function Pass(idx: seq<nat>, at: AccessType): seq<Event> {
    if idx == [] then [] else Pass(idx[..|idx| - 1], at) + [Drain(idx[|idx| - 1], at)]
  }

  /** What a pass as the profiler makes it leaves of a session: its own rings drained, the
      others as they were, and the ledgers with what was unread in its rings. */
  ghost predicate PassDone(codec: Codec, s: Session, s': Session, at: AccessType, idx: seq<nat>)
    requires SomeRings(idx, |s.lanes|) && |s.ledger.counters| == 2
  {
    && |s'.lanes| == |s.lanes|
    && (forall i | 0 <= i < |s.lanes| :: s'.lanes[i] == if i in idx then OneDrained(s.lanes[i]) else s.lanes[i])
    && s'.ledger == AbsorbAll(codec, s.ledger, at, UnreadAll(Select(s.lanes, idx)))
  }

  lemma {:induction false} SelectAt(ls: seq<Lane>, idx: seq<nat>, t: nat)
    requires SomeRings(idx, |ls|) && t < |idx|
    ensures Select(ls, idx)[t] == ls[idx[t]]
  {
    if t < |idx| - 1 {
      SelectAt(ls, idx[..|idx| - 1], t);
    }
  }

  /** Seen from its own rings, a pass is the profiler's pass. */
  lemma PassOnRings(codec: Codec, s: Session, s': Session, at: AccessType, idx: seq<nat>)
    requires SomeRings(idx, |s.lanes|) && |s.ledger.counters| == 2 && PassDone(codec, s, s', at, idx)
    ensures Select(s'.lanes, idx) == DrainAll(Select(s.lanes, idx))
  {
    forall t | 0 <= t < |idx|
      ensures Select(s'.lanes, idx)[t] == DrainAll(Select(s.lanes, idx))[t]
    {
      SelectAt(s.lanes, idx, t);
      SelectAt(s'.lanes, idx, t);
      assert idx[t] in idx;
    }
  }

  lemma UnreadSnoc(codec: Codec, g: Ledger, at: AccessType, ls: seq<Lane>, l: Lane)
    requires |g.counters| == 2
    ensures AbsorbAll(codec, g, at, UnreadAll(ls + [l])) ==
            Absorb(codec, AbsorbAll(codec, g, at, UnreadAll(ls)), at, OneUnread(l))
  {
    var chunks := UnreadAll(ls + [l]);
    assert chunks[..|ls|] == UnreadAll(ls) && chunks[|ls|] == OneUnread(l);
  }

  lemma PassNext(codec: Codec, sizes: seq<nat>, s: Session, s': Session, at: AccessType, idx: seq<nat>, r: nat)
    requires Shaped(sizes, s) && Shaped(sizes, s') && r < |sizes| && r !in idx
    requires SomeRings(idx, |sizes|) && SomeRings(idx + [r], |sizes|) && PassDone(codec, s, s', at, idx)
    ensures PassDone(codec, s, Step(codec, sizes, s', Drain(r, at)), at, idx + [r])
  {
    assert s'.lanes[r] == s.lanes[r] && OneDrained(s.lanes[r]) == LaneDrain(s.lanes[r]);
    SelectSnoc(s.lanes, idx, r);
    UnreadSnoc(codec, s.ledger, at, Select(s.lanes, idx), s.lanes[r]);
  }

  lemma SelectSnoc(ls: seq<Lane>, idx: seq<nat>, r: nat)
    requires r < |ls| && forall t | 0 <= t < |idx| :: idx[t] < |ls|
    ensures Select(ls, idx + [r]) == Select(ls, idx) + [ls[r]]
  {
    assert (idx + [r])[..|idx|] == idx;
  }

  lemma FewerRings(idx: seq<nat>, n: nat)
    requires SomeRings(idx, n) && idx != []
    ensures SomeRings(idx[..|idx| - 1], n) && idx[|idx| - 1] < n && idx[|idx| - 1] !in idx[..|idx| - 1]
    ensures idx[..|idx| - 1] + [idx[|idx| - 1]] == idx
  {
  }

  /** One drain step for each of the rings, in order. */
  ghost function DrainEach(codec: Codec, sizes: seq<nat>, s: Session, at: AccessType, idx: seq<nat>): (r: Session)
    requires Shaped(sizes, s) && forall t | 0 <= t < |idx| :: idx[t] < |sizes|
    ensures Shaped(sizes, r)
  {
    if idx == [] then s
    else Step(codec, sizes, DrainEach(codec, sizes, s, at, idx[..|idx| - 1]), Drain(idx[|idx| - 1], at))
  }

  /** A pass over some rings, as the drain makes it, is a series of single drain steps. */
  lemma {:induction false} PassIsDrains(codec: Codec, sizes: seq<nat>, s: Session, at: AccessType, idx: seq<nat>)
    requires Shaped(sizes, s) && SomeRings(idx, |sizes|)
    ensures PassDone(codec, s, DrainEach(codec, sizes, s, at, idx), at, idx)
  {
    if idx != [] {
      var before, r := idx[..|idx| - 1], idx[|idx| - 1];
      FewerRings(idx, |sizes|);
      PassIsDrains(codec, sizes, s, at, before);
      PassNext(codec, sizes, s, DrainEach(codec, sizes, s, at, before), at, before, r);
    }
  }

  /** A run can always go on with a drain. */
  lemma RunDrain(codec: Codec, sizes: seq<nat>, es: seq<Event>, e: Event)
    requires GoodSizes(sizes) && Admissible(sizes, es) && e.Drain? && e.ring < |sizes|
    ensures Admissible(sizes, es + [e])
    ensures Run(codec, sizes, es + [e]) == Step(codec, sizes, Run(codec, sizes, es), e)
  {
    assert (es + [e])[..|es|] == es;
  }

  lemma RunNext(codec: Codec, sizes: seq<nat>, es: seq<Event>, e: Event)
    requires GoodSizes(sizes) && Admissible(sizes, es) && Admissible(sizes, es + [e])
    ensures !e.Reset? ==> e.ring < |sizes|
    ensures Run(codec, sizes, es + [e]) == Step(codec, sizes, Run(codec, sizes, es), e)
  {
    assert (es + [e])[..|es|] == es;
  }

  /** Drains and resets come at any time, and a record whenever it stays below the ring with what
      is pending. */
  lemma EventsAreFree(sizes: seq<nat>, es: seq<Event>, i: nat, at: AccessType, rec: seq<Byte>)
    requires Admissible(sizes, es)
    ensures Admissible(sizes, es + [Reset])
    ensures Admissible(sizes, es + [Drain(i, at)]) <==> i < |sizes|
    ensures Admissible(sizes, es + [Append(i, rec)])
            <==> i < |sizes| && IsRecord(rec) && |Flat(Pending(es, i))| + |rec| < sizes[i]
  {
    assert (es + [Reset])[..|es|] == es && (es + [Drain(i, at)])[..|es|] == es;
    assert (es + [Append(i, rec)])[..|es|] == es;
  }

  lemma PassSnoc(es: seq<Event>, idx: seq<nat>, at: AccessType)
    requires idx != []
    ensures es + Pass(idx, at) == es + Pass(idx[..|idx| - 1], at) + [Drain(idx[|idx| - 1], at)]
  {
  }

  lemma {:induction false} RunDrains(codec: Codec, sizes: seq<nat>, es: seq<Event>, at: AccessType, idx: seq<nat>)
    requires GoodSizes(sizes) && Admissible(sizes, es) && SomeRings(idx, |sizes|)
    ensures Admissible(sizes, es + Pass(idx, at))
    ensures Run(codec, sizes, es + Pass(idx, at)) == DrainEach(codec, sizes, Run(codec, sizes, es), at, idx)
    decreases |idx|
  {
    if idx == [] {
      assert es + Pass(idx, at) == es;
    } else {
      var before, r := idx[..|idx| - 1], idx[|idx| - 1];
      FewerRings(idx, |sizes|);
      RunDrains(codec, sizes, es, at, before);
      RunDrain(codec, sizes, es + Pass(before, at), Drain(r, at));
      PassSnoc(es, idx, at);
    }
  }

  /** A pass over the rings of a measure takes the state of any run to the state of the run that
      goes on with one drain of each of them: the measure's rings are drained, all others and
      the order of events before are untouched, and the ledgers absorb what was unread. */
  lemma PassOnRun(codec: Codec, sizes: seq<nat>, es: seq<Event>, at: AccessType, idx: seq<nat>)
    requires GoodSizes(sizes) && Admissible(sizes, es) && SomeRings(idx, |sizes|)
    ensures Admissible(sizes, es + Pass(idx, at))
    ensures var s, s' := Run(codec, sizes, es), Run(codec, sizes, es + Pass(idx, at));
            && Select(s'.lanes, idx) == DrainAll(Select(s.lanes, idx))
            && (forall i | 0 <= i < |sizes| && i !in idx :: s'.lanes[i] == s.lanes[i])
            && s'.ledger == AbsorbAll(codec, s.ledger, at, UnreadAll(Select(s.lanes, idx)))
  {
    RunDrains(codec, sizes, es, at, idx);
    PassIsDrains(codec, sizes, Run(codec, sizes, es), at, idx);
    PassOnRings(codec, Run(codec, sizes, es), Run(codec, sizes, es + Pass(idx, at)), at, idx);
  }
}
