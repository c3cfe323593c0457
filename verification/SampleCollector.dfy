/** The profiler's side of the rings as it runs: the linearising copy, the record walk and
    the drain, all updating global state in place. */
module SampleCollector {
  import opened PerfRecords
  import opened Ring
  import opened RecordWalk
  import opened Statistics
  import opened Collection
  import opened Measures

  /** A buffer to analyse: a ring in place, or a linearised copy. */
  datatype SampleList = SampleList(
    buffer: array<Byte>, dataTail: nat, dataHead: nat, bufferSize: nat, accessType: AccessType)

  /** How a drain ends: normally, at one of the two aborts (an assertion on the first header of
      a copy; a zero size met by the walk), or by reading a header outside the buffer. */
  datatype Outcome = Done | AssertFailed | Aborted | ReadOutside

  method MemCpy(dst: array<Byte>, dstStart: nat, src: array<Byte>, srcStart: nat, n: nat)
    requires dst != src && dstStart + n <= dst.Length && srcStart + n <= src.Length
    modifies dst
    ensures dst[..] == old(dst[..dstStart]) + src[srcStart..srcStart + n] + old(dst[dstStart + n..])
  {
    forall i | 0 <= i < n {
      dst[dstStart + i] := src[srcStart + i];
    }
  }

  /** Whether the program gets through a chunk without aborting or reading outside it. */
  ghost predicate Accepts(chunk: seq<Byte>) {
    chunk == [] ||
    (&& HEADER_SIZE <= |chunk|
     && HeaderAt(chunk, 0).kind < PERF_RECORD_MAX
     && LinearWalk(chunk, 0).ending.Finished?)
  }

  lemma StreamAccepted(rs: seq<seq<Byte>>)
    requires AllRecords(rs)
    ensures Accepts(Flat(rs))
  {
    WalkOfStream(rs);
    if rs != [] {
      LayoutAt(rs, 0, 0);
      WalkAdvances(Flat(rs), 0);
    }
  }

  // ----- walking in place against walking the copy -----

  /** A record that is not split gives the same sample in place as in the copy. */
  lemma SameSampleInPlace(codec: Codec, mem: seq<Byte>, tail: nat, live: seq<Byte>, v: Visit)
    requires |mem| > 0 && InPlace(mem, tail, live, v)
    ensures var u := v.(offset := (tail + v.offset) % |mem|);
            u.offset + u.size <= |mem| ==> SampleAt(codec, mem, u) == SampleAt(codec, live, v)
  {
  }

  ghost predicate SameSamples(codec: Codec, a: seq<Byte>, vs: seq<Visit>, b: seq<Byte>, us: seq<Visit>) {
    && |SamplesSeen(codec, a, vs)| == |SamplesSeen(codec, b, us)|
    && (NoneSplit(vs, |a|) ==> SamplesSeen(codec, a, vs) == SamplesSeen(codec, b, us))
  }

  lemma SameSamplesNext(codec: Codec, a: seq<Byte>, vs: seq<Visit>, b: seq<Byte>, us: seq<Visit>, v: Visit, u: Visit)
    requires SameSamples(codec, a, vs, b, us) && v.kind == u.kind
    requires v.offset + v.size <= |a| ==> SampleAt(codec, a, v) == SampleAt(codec, b, u)
    ensures SameSamples(codec, a, vs + [v], b, us + [u])
  {
    assert (vs + [v])[..|vs|] == vs && (us + [u])[..|us|] == us;
    if NoneSplit(vs + [v], |a|) {
      assert forall i | 0 <= i < |vs| :: (vs + [v])[i] == vs[i];
      assert (vs + [v])[|vs|] == v;
    }
  }

  /** Visits whose unsplit stretches lie in place give the same samples, one by one. */
  lemma {:induction false} InPlaceUpTo(codec: Codec, mem: seq<Byte>, tail: nat, live: seq<Byte>, vs: seq<Visit>)
    requires |mem| > 0 && forall i | 0 <= i < |vs| :: InPlace(mem, tail, live, vs[i])
    ensures SameSamples(codec, mem, Shifted(vs, tail, |mem|), live, vs)
  {
    if vs != [] {
      var k := |vs| - 1;
      InPlaceUpTo(codec, mem, tail, live, vs[..k]);
      SameSampleInPlace(codec, mem, tail, live, vs[k]);
      assert vs == vs[..k] + [vs[k]];
      ShiftedSnoc(vs[..k], vs[k], tail, |mem|);
      var u := vs[k].(offset := (tail + vs[k].offset) % |mem|);
      SameSamplesNext(codec, mem, Shifted(vs[..k], tail, |mem|), live, vs[..k], u, vs[k]);
    }
  }

  lemma ShiftedSnoc(vs: seq<Visit>, v: Visit, tail: nat, n: nat)
    requires n > 0
    ensures Shifted(vs + [v], tail, n) == Shifted(vs, tail, n) + [v.(offset := (tail + v.offset) % n)]
  {
  }

  /** No record crosses the end of the ring. */
  ghost predicate NoneSplit(vs: seq<Visit>, n: nat) {
    forall i | 0 <= i < |vs| :: vs[i].offset + vs[i].size <= n
  }

  /** Walking a ring in place counts as many samples as walking its linearised copy, and, when
      no record crosses the end of the ring, the very same samples. */
  lemma InPlaceMatchesCopy(codec: Codec, mem: seq<Byte>, tail: nat, head: nat)
    requires IsRing(mem, tail, head)
    ensures var live := Logical(mem, tail, head);
            var vs := LinearWalk(live, 0).visits;
            SameSamples(codec, mem, Shifted(vs, tail, |mem|), live, vs)
  {
    var live := Logical(mem, tail, head);
    var vs := LinearWalk(live, 0).visits;
    forall i | 0 <= i < |vs|
      ensures InPlace(mem, tail, live, vs[i])
    {
      WholeRecordInPlace(mem, tail, head, i);
    }
    InPlaceUpTo(codec, mem, tail, live, vs);
  }

  /** In a copy of whole records none is ever split, so none is ever rebuilt. */
  lemma CopiesNeverSplit(rs: seq<seq<Byte>>)
    requires AllRecords(rs)
    ensures NoneSplit(LinearWalk(Flat(rs), 0).visits, |Flat(rs)|)
  {
    WalkOfStream(rs);
    forall i | 0 <= i < |rs|
      ensures Layout(rs, 0)[i].offset + Layout(rs, 0)[i].size <= |Flat(rs)|
    {
      assert Covers(Flat(rs), Layout(rs, 0)[i], rs[i]);
    }
  }

  /** A copied chunk waiting in the queue. */
  datatype Chunk = Chunk(bytes: seq<Byte>, at: AccessType)

  ghost predicate WholeCopy(n: SampleList) {
    0 < n.bufferSize == n.buffer.Length <= MAX_RING && n.dataTail == 0 && n.dataHead == n.bufferSize
  }

  ghost function ChunkOf(n: SampleList): Chunk
    reads n.buffer
  {
    Chunk(n.buffer[..], n.accessType)
  }

  /** The queue, most recent first. */
  ghost function Chunks(queue: seq<SampleList>): seq<Chunk>
    reads set n <- queue :: n.buffer
  {
    if queue == [] then [] else [ChunkOf(queue[0])] + Chunks(queue[1..])
  }

  ghost predicate Finishes(c: Chunk) {
    LinearWalk(c.bytes, 0).ending.Finished?
  }

  ghost predicate AllFinish(q: seq<Chunk>)
    decreases |q|
  {
    q == [] || (Finishes(q[0]) && AllFinish(q[1..]))
  }

  /** How the first chunk ends whose walk does not finish, if there is one. */
  ghost function QueueEnding(q: seq<Chunk>): Ending
    decreases |q|
  {
    if q == [] then Finished
    else if Finishes(q[0]) then QueueEnding(q[1..])
    else LinearWalk(q[0].bytes, 0).ending
  }

  /** The outcome of a walk: a zero size aborts, a header outside the buffer is read. */
  ghost predicate Reports(outcome: Outcome, ending: Ending) {
    match ending
    case Finished => outcome == Done
    case ZeroSize => outcome == Aborted
    case OutOfBounds => outcome == ReadOutside
  }

  /** The outcome of copying a chunk out: as its walk, unless its first header is missing or
      fails one of the two assertions. */
  ghost predicate CopyReports(outcome: Outcome, chunk: seq<Byte>) {
    if chunk == [] then outcome == Done
    else if |chunk| < HEADER_SIZE then outcome == ReadOutside
    else if HeaderAt(chunk, 0).kind >= PERF_RECORD_MAX || HeaderAt(chunk, 0).size == 0 then outcome == AssertFailed
    else Reports(outcome, LinearWalk(chunk, 0).ending)
  }

  /** Emptying a queue: its chunks were counted as buffers when they were put there. */
  function Emptied(codec: Codec, g: Ledger, q: seq<Chunk>): (r: Ledger)
    requires |g.counters| == 2
    ensures |r.counters| == 2
    decreases |q|
  {
    if q == [] then g else Emptied(codec, Absorb(codec, g, q[0].at, q[0].bytes).(nbBuffers := g.nbBuffers), q[1..])
  }

  lemma EmptiedOne(codec: Codec, g: Ledger, c: Chunk)
    requires |g.counters| == 2
    ensures Emptied(codec, g, [c]) == Absorb(codec, g, c.at, c.bytes).(nbBuffers := g.nbBuffers)
    ensures AllFinish([c]) <==> Finishes(c)
    ensures QueueEnding([c]) == LinearWalk(c.bytes, 0).ending
  {
    var g' := Absorb(codec, g, c.at, c.bytes).(nbBuffers := g.nbBuffers);
    assert Emptied(codec, g', [c][1..]) == g';
  }

  lemma ChunksOfOne(n: SampleList)
    ensures Chunks([n]) == [ChunkOf(n)]
  {
    assert Chunks([n]) == [ChunkOf(n)] + Chunks([]);
  }

  class Collector {
    var samples: seq<SampleList>
    var nbSampleBuffers: nat
    var nbSamplesTotal: nat
    var totalBufferSize: nat
    const globalCounters: array<MemCounters>

    ghost predicate Valid()
      reads this, globalCounters
    {
      && globalCounters.Length == 2
      && Complete(globalCounters[0]) && Complete(globalCounters[1])
    }

    /** Between drains nothing is queued. */
    ghost predicate Idle()
      reads this, globalCounters
    {
      Valid() && samples == []
    }

    ghost function Totals(): Ledger
      reads this, globalCounters
    {
      Ledger(totalBufferSize, nbSamplesTotal, nbSampleBuffers, globalCounters[..])
    }

    constructor ()
      ensures Idle() && fresh(globalCounters) && Totals() == Ledger(0, 0, 0, RESET)
    {
      samples := [];
      nbSampleBuffers, nbSamplesTotal, totalBufferSize := 0, 0, 0;
      globalCounters := new MemCounters[2](_ => RESET_COUNTERS);
      ResetIsComplete();
    }

    method InitMemCounters()
      requires Valid()
      modifies globalCounters
      ensures Valid() && globalCounters[..] == RESET
    {
      ResetIsComplete();
      globalCounters[0] := RESET_COUNTERS;
      globalCounters[1] := RESET_COUNTERS;
    }

    /** Counts the sample record at `cur`; one that runs past the end is rebuilt first. */
    method CountSample(s: SampleList, cur: nat, event: Header, codec: Codec)
      requires Valid()
      requires cur < s.bufferSize == s.buffer.Length <= MAX_RING && event.size < 0x1_0000
      modifies globalCounters
      ensures Valid()
      ensures globalCounters[s.accessType] == AddSample(old(globalCounters[s.accessType]),
                SampleAt(codec, s.buffer[..], Visit(cur, event.kind, event.size)))
      ensures globalCounters[1 - s.accessType] == old(globalCounters[1 - s.accessType])
    {
      var sample: Sample;
      if U32(cur + event.size) > s.bufferSize {
        sample := codec.rebuild(s.buffer[..], cur, event.size);
      } else {
        sample := codec.decode(s.buffer[cur..cur + event.size]);
        assert s.buffer[cur..cur + event.size] == s.buffer[..][cur..cur + event.size];
      }
      UpdateCounters(globalCounters, s.accessType, sample);
    }

    /** The counters hold `before` and, on one side, the samples among some visits. */
    ghost predicate Counted(codec: Codec, mem: seq<Byte>, visits: seq<Visit>, at: AccessType,
                            before: seq<MemCounters>, nbSamples: nat)
      reads this, globalCounters
    {
      && |before| == 2 && Valid()
      && nbSamples == |SamplesSeen(codec, mem, visits)|
      && globalCounters[at] == AddAll(before[at], SamplesSeen(codec, mem, visits))
      && globalCounters[1 - at] == before[1 - at]
    }

    /** Counts the record at `cur` if it is a sample. */
    method CountRecord(s: SampleList, cur: nat, event: Header, codec: Codec, nbSamples: nat,
                       ghost visits: seq<Visit>, ghost before: seq<MemCounters>) returns (n: nat)
      requires Counted(codec, s.buffer[..], visits, s.accessType, before, nbSamples)
      requires cur < s.bufferSize == s.buffer.Length <= MAX_RING && event.size < 0x1_0000
      modifies globalCounters
      ensures Counted(codec, s.buffer[..], visits + [Visit(cur, event.kind, event.size)], s.accessType, before, n)
    {
      SeenSnoc(codec, s.buffer[..], visits, Visit(cur, event.kind, event.size), before[s.accessType]);
      n := nbSamples;
      if event.kind == PERF_RECORD_SAMPLE {
        n := n + 1;
        CountSample(s, cur, event, codec);
      }
    }

    /** Steps over a record and, at the end of a ring, back to its start. */
    method NextOffset(cur: nat, stop: nat, size: nat, reset: nat, head: nat) returns (cur': nat, stop': nat)
      requires cur < reset <= MAX_RING && head <= reset && size < 0x1_0000
      ensures cur' == if cur + size >= reset && reset != head then cur + size - reset else cur + size
      ensures stop' == if cur + size >= reset && reset != head then head else stop
    {
      cur', stop' := U32(cur + size), stop;
      if cur' >= reset && reset != head {
        cur' := U32(cur' - reset);
        stop' := U32(head);
      }
    }

    /** Walks the records of a buffer, ring or copy. The visits are those of the linear walk
        over the live bytes, each at its offset modulo the buffer size; every sample among
        them is counted once. `wraps` counts the returns to the start of the buffer. */
    method AnalyzeBuffer(s: SampleList, codec: Codec)
      returns (outcome: Outcome, nbSamples: nat, ghost visits: seq<Visit>, ghost wraps: nat, ghost end: nat)
      requires Valid()
      requires 0 < s.bufferSize == s.buffer.Length <= MAX_RING
      requires IsCopy(s.bufferSize, s.dataTail, s.dataHead) || IsRing(s.buffer[..], s.dataTail, s.dataHead)
      modifies globalCounters
      ensures Valid()
      ensures var w := LinearWalk(Logical(s.buffer[..], s.dataTail, s.dataHead), 0);
              && visits == Shifted(w.visits, s.dataTail, s.bufferSize)
              && (outcome.Done? <==> w.ending.Finished?)
              && (outcome.Aborted? <==> w.ending.ZeroSize?)
              && (outcome.ReadOutside? <==> w.ending.OutOfBounds?)
      ensures nbSamples == |SamplesSeen(codec, s.buffer[..], visits)|
      ensures globalCounters[s.accessType] ==
              AddAll(old(globalCounters[s.accessType]), SamplesSeen(codec, s.buffer[..], visits))
      ensures globalCounters[1 - s.accessType] == old(globalCounters[1 - s.accessType])
      ensures IsCopy(s.bufferSize, s.dataTail, s.dataHead) ==> wraps == 0
      ensures IsRing(s.buffer[..], s.dataTail, s.dataHead) ==> wraps <= 1 && outcome.Done? && end == s.dataHead
    {
      ghost var mem := s.buffer[..];
      var tail, head := s.dataTail, s.dataHead;
      assert tail <= MAX_RING && head <= MAX_RING;
      if tail == head {
        return Done, 0, [], 0, head;
      }
      var start := U32(tail);
      var stop: nat := U32(head);
      if stop < start {
        stop := U32(s.bufferSize);
      }
      StartsOnCourse(mem, tail, head);
      ghost var k;
      outcome, nbSamples, k := VisitRecords(s, codec, start, stop);
      EndsOnCourse(mem, tail, head, k);
      visits, wraps, end := k.visits, k.wraps, k.cur;
    }

    /** The loop of the walk, and where it stops: past its limit, at a header outside the
        buffer, or at a header of size zero. */
    method VisitRecords(s: SampleList, codec: Codec, start: nat, limit: nat)
      returns (outcome: Outcome, nbSamples: nat, ghost k: Cursor)
      requires Valid() && s.bufferSize == s.buffer.Length <= MAX_RING
      requires Readable(s.buffer[..], s.dataTail, s.dataHead) && s.dataHead <= MAX_RING
      requires OnCourse(s.buffer[..], s.dataTail, s.dataHead, Cursor(start, limit, 0, 0, []))
      modifies globalCounters
      ensures OnCourse(s.buffer[..], s.dataTail, s.dataHead, k)
      ensures Counted(codec, s.buffer[..], k.visits, s.accessType, old(globalCounters[..]), nbSamples)
      ensures match outcome
              case Done => k.cur >= k.stop
              case ReadOutside => k.cur < k.stop && k.cur + HEADER_SIZE > s.bufferSize
              case Aborted =>
                && k.cur < k.stop && k.cur + HEADER_SIZE <= s.bufferSize
                && HeaderAt(s.buffer[..], k.cur).size == 0
              case AssertFailed => false
    {
      ghost var mem, before, tail := s.buffer[..], globalCounters[..], s.dataTail;
      var head, reset := s.dataHead, s.bufferSize;
      var cur, stop := start, limit;
      outcome, nbSamples := Done, 0;
      k := Cursor(cur, stop, 0, 0, []);
      while cur < stop
        invariant s.buffer[..] == mem
        invariant OnCourse(mem, tail, head, k) && k.cur == cur && k.stop == stop
        invariant Counted(codec, mem, k.visits, s.accessType, before, nbSamples)
        decreases |Logical(mem, tail, head)| - k.lin
      {
        ReadsOnCourse(mem, tail, head, k);
        if cur + HEADER_SIZE > reset {
          return ReadOutside, nbSamples, k;
        }
        var event := HeaderAt(s.buffer[..], cur);
        if event.size == 0 {
          return Aborted, nbSamples, k;
        }
        nbSamples := CountRecord(s, cur, event, codec, nbSamples, k.visits, before);
        cur, stop := NextOffset(cur, stop, event.size, reset, head);
        StaysOnCourse(mem, tail, head, k);
        k := NextCursor(reset, head, k, event);
      }
      return Done, nbSamples, k;
    }

    /** Copies the live bytes of a ring, in one or two blocks, into a fresh buffer. */
    method Linearise(s: SampleList) returns (copy: array<Byte>)
      requires s.dataTail < s.bufferSize && s.dataHead < s.bufferSize == s.buffer.Length
      ensures fresh(copy)
      ensures copy[..] == Logical(s.buffer[..], s.dataTail, s.dataHead)
    {
      var bufferSize: int := s.dataHead - s.dataTail;
      if s.dataHead < s.dataTail {
        bufferSize := s.bufferSize - s.dataTail + s.dataHead;
      }
      copy := new Byte[bufferSize](_ => 0);
      if s.dataHead < s.dataTail {
        var firstBlockSize := s.bufferSize - s.dataTail;
        MemCpy(copy, 0, s.buffer, s.dataTail, firstBlockSize);
        assert copy[..firstBlockSize] == s.buffer[s.dataTail..];
        var secondBlockSize := s.dataHead;
        MemCpy(copy, firstBlockSize, s.buffer, 0, secondBlockSize);
        assert copy[..] == s.buffer[s.dataTail..] + s.buffer[..s.dataHead];
      } else {
        MemCpy(copy, 0, s.buffer, s.dataTail, bufferSize);
        assert copy[..] == s.buffer[s.dataTail..s.dataHead];
      }
    }

    /** Analyses a whole copy. */
    method AnalyzeCopy(node: SampleList, codec: Codec) returns (outcome: Outcome, nbSamples: nat)
      requires Valid() && WholeCopy(node)
      modifies globalCounters
      ensures Valid()
      ensures outcome.Done? <==> Finishes(ChunkOf(node))
      ensures Reports(outcome, LinearWalk(node.buffer[..], 0).ending)
      ensures outcome.Done? ==>
                var ss := SamplesSeen(codec, node.buffer[..], LinearWalk(node.buffer[..], 0).visits);
                && nbSamples == |ss|
                && globalCounters[..] ==
                   old(globalCounters[..])[node.accessType := AddAll(old(globalCounters[..])[node.accessType], ss)]
    {
      ghost var bytes := node.buffer[..];
      assert Logical(bytes, 0, node.bufferSize) == bytes;
      ShiftedByZero(bytes, node.bufferSize);
      ghost var visits, wraps, end;
      outcome, nbSamples, visits, wraps, end := AnalyzeBuffer(node, codec);
    }

    /** Analyses the most recent of the queued copies and takes it off the queue. */
    method DrainNext(codec: Codec) returns (outcome: Outcome)
      requires Valid() && samples != [] && WholeCopy(samples[0])
      modifies this, globalCounters
      ensures Valid()
      ensures outcome.Done? <==> Finishes(old(ChunkOf(samples[0])))
      ensures Reports(outcome, LinearWalk(old(ChunkOf(samples[0])).bytes, 0).ending)
      ensures outcome.Done? ==>
                && samples == old(samples[1..])
                && Totals() == Emptied(codec, old(Totals()), [old(ChunkOf(samples[0]))])
    {
      var current := samples[0];
      EmptiedOne(codec, Totals(), ChunkOf(current));
      var nbSamples;
      outcome, nbSamples := AnalyzeCopy(current, codec);
      if !outcome.Done? {
        return;
      }
      nbSamplesTotal := nbSamplesTotal + nbSamples;
      totalBufferSize := totalBufferSize + current.bufferSize;
      samples := samples[1..];
    }

    /** Analyses every queued copy, most recent first. */
    method DrainQueue(codec: Codec) returns (outcome: Outcome)
      requires Valid() && forall n <- samples :: WholeCopy(n)
      modifies this, globalCounters
      ensures Valid()
      ensures outcome.Done? <==> AllFinish(old(Chunks(samples)))
      ensures Reports(outcome, QueueEnding(old(Chunks(samples))))
      ensures outcome.Done? ==> Idle() && Totals() == Emptied(codec, old(Totals()), old(Chunks(samples)))
    {
      ghost var queue, totals := Chunks(samples), Totals();
      while samples != []
        invariant Valid() && forall n <- samples :: WholeCopy(n)
        invariant AllFinish(queue) <==> AllFinish(Chunks(samples))
        invariant QueueEnding(queue) == QueueEnding(Chunks(samples))
        invariant Emptied(codec, Totals(), Chunks(samples)) == Emptied(codec, totals, queue)
        decreases |samples|
      {
        ghost var rest := Chunks(samples);
        outcome := DrainNext(codec);
        if !outcome.Done? {
          return;
        }
      }
      return Done;
    }

    /** Linearises what is live in a ring, queues the copy, and empties the queue. */
    method CopyBuffer(s: SampleList, codec: Codec) returns (outcome: Outcome)
      requires Idle()
      requires s.dataTail < s.bufferSize && s.dataHead < s.bufferSize == s.buffer.Length <= MAX_RING
      modifies this, globalCounters
      ensures Valid()
      ensures outcome.Done? <==> Accepts(Logical(s.buffer[..], s.dataTail, s.dataHead))
      ensures CopyReports(outcome, Logical(s.buffer[..], s.dataTail, s.dataHead))
      ensures outcome.Done? ==>
                && Idle()
                && Totals() == Absorb(codec, old(Totals()), s.accessType, Logical(s.buffer[..], s.dataTail, s.dataHead))
    {
      if s.dataHead == s.dataTail {
        return Done;
      }
      var copy := Linearise(s);
      var node := SampleList(copy, 0, copy.Length, copy.Length, s.accessType);
      if copy.Length < HEADER_SIZE {
        return ReadOutside;
      }
      var event := HeaderAt(copy[..], 0);
      if event.kind >= PERF_RECORD_MAX || event.size == 0 {
        return AssertFailed;
      }
      outcome := QueueAndDrain(node, codec);
    }

    /** Queues a copy and empties the queue. */
    method QueueAndDrain(node: SampleList, codec: Codec) returns (outcome: Outcome)
      requires Idle() && WholeCopy(node)
      modifies this, globalCounters
      ensures Valid() && Reports(outcome, LinearWalk(node.buffer[..], 0).ending)
      ensures outcome.Done? ==>
                Idle() && Totals() == Absorb(codec, old(Totals()), node.accessType, node.buffer[..])
    {
      samples := [node] + samples;
      nbSampleBuffers := nbSampleBuffers + 1;
      ChunksOfOne(node);
      EmptiedOne(codec, Totals(), ChunkOf(node));
      outcome := DrainQueue(codec);
    }

    /** One pass of the drain over a single ring. */
    method DrainPage(page: MetadataPage, accessType: AccessType, codec: Codec)
      requires Idle() && page.Valid()
      modifies this, globalCounters, page`dataTail, page`taken, page`copied
      ensures Idle() && page.Valid()
      ensures page.History() == LaneDrain(old(page.History()))
      ensures Totals() == Absorb(codec, old(Totals()), accessType, old(Unread(page.State())))
    {
      UnreadIsLogSuffix(page.History());
      DrainKeepsConsistent(page.History());
      StreamAccepted(page.log[page.taken..]);
      ghost var chunk := Unread(page.State());
      var dataHead := page.dataHead % page.data.Length;
      var s := SampleList(page.data, page.dataTail, dataHead, page.data.Length, accessType);
      var outcome := CopyBuffer(s, codec);
      assert outcome.Done?;
      page.dataTail := dataHead;
      page.taken := |page.log|;
      page.copied := page.copied + chunk;
    }

    /** The pass over the `thread`-th ring leaves the others alone. */
    method DrainThread(page: MetadataPage, accessType: AccessType, codec: Codec,
                       ghost pages: seq<MetadataPage>, ghost thread: nat, ghost before: seq<Lane>)
      requires Idle() && thread < |pages| == |before| && Distinct(pages) && pages[thread] == page
      requires page.live && Consistent(before[thread]) && Lanes(pages) == DrainFirst(before, thread)
      modifies this, globalCounters, page`dataTail, page`taken, page`copied
      ensures Idle() && Lanes(pages) == DrainFirst(before, thread + 1)
      ensures Totals() == Absorb(codec, old(Totals()), accessType, UnreadAll(before)[thread])
    {
      forall t | 0 <= t < |pages|
        ensures pages[t].History() == DrainFirst(before, thread)[t]
      {
        LanesAt(pages, t);
      }
      UnreadIsLogSuffix(before[thread]);
      DrainPage(page, accessType, codec);
      forall t | 0 <= t < |pages|
        ensures pages[t].History() == DrainFirst(before, thread + 1)[t]
      {
        if t != thread {
          assert pages[t].History() == old(pages[t].History());
        }
      }
      LanesAre(pages, DrainFirst(before, thread + 1));
    }

    /** Drains every ring of a measure once, in order. */
    method ProcessSamples(m: Measure, accessType: AccessType, codec: Codec)
      requires Idle() && m.Ready()
      modifies this, globalCounters, m.Rings()`dataTail, m.Rings()`taken, m.Rings()`copied
      ensures Idle() && m.Ready() && m.Rings() == old(m.Rings())
      ensures Lanes(m.Rings()) == DrainAll(old(Lanes(m.Rings())))
      ensures Totals() == AbsorbAll(codec, old(Totals()), accessType, UnreadAll(old(Lanes(m.Rings()))))
    {
      ghost var pages := m.Rings();
      DrainRings(m, accessType, codec, pages);
    }

    /** The loop over the rings. */
    method DrainRings(m: Measure, accessType: AccessType, codec: Codec, ghost pages: seq<MetadataPage>)
      requires Idle() && m.Shape() && m.AllMapped() && pages == m.Rings() && Mapped(pages)
      modifies this, globalCounters, pages`dataTail, pages`taken, pages`copied
      ensures Idle() && Mapped(pages) && Lanes(pages) == DrainAll(old(Lanes(pages)))
      ensures Totals() == AbsorbAll(codec, old(Totals()), accessType, UnreadAll(old(Lanes(pages))))
    {
      ghost var before, totals := Lanes(pages), Totals();
      ghost var chunks := UnreadAll(before);
      assert DrainFirst(before, 0) == before;
      for thread := 0 to m.nbThreads
        invariant Idle() && Lanes(pages) == DrainFirst(before, thread)
        invariant Totals() == AbsorbAll(codec, totals, accessType, chunks[..thread])
      {
        var page := m.pagesPerTid[thread];
        assert page == pages[thread];
        AbsorbNext(codec, totals, accessType, chunks, thread);
        DrainThread(page, accessType, codec, pages, thread, before);
      }
      assert chunks[..|pages|] == chunks;
      DrainAllConsistent(before);
    }
  }
}
