/** A drain as it really runs: the head is read, the bytes are copied one by one, the copy is
    analysed, and only then is the tail written back, while the kernel goes on appending
    against the old tail. Seen from its end, it is the single step of `Collection`. */
module SplitDrain {
  import opened PerfRecords
  import opened Ring
  import opened Statistics
  import opened Collection

  /** Where the profiler stands. `stop` is the reduced head it read when `records` records had
      been appended; `buf` is what it has copied since. */
  datatype Phase =
    | Idle
    | Copying(ring: nat, at: AccessType, stop: nat, records: nat, buf: seq<Byte>)
    | Analysed(ring: nat, at: AccessType, stop: nat, records: nat, buf: seq<Byte>)

  datatype Split = Split(session: Session, phase: Phase)

  /** One step of the kernel or of the profiler. */
  datatype Move =
    | KernelAppend(ring: nat, rec: seq<Byte>)
    | ReadHead(ring: nat, at: AccessType)
    | CopyByte
    | Analyse
    | WriteTail
    | ResetCounters

  /** The length of the copy, as the program computes it from the tail and the head it read. */
  function CopyLength(l: Lane, stop: nat): nat
    requires l.ring.tail < |l.ring.mem|
  {
    if stop < l.ring.tail then |l.ring.mem| - l.ring.tail + stop else stop - l.ring.tail
  }

  /** The ring being drained exists, and offsets lie inside it. */
  ghost predicate Placed(sizes: seq<nat>, s: Split) {
    && Shaped(sizes, s.session)
    && (!s.phase.Idle? ==>
          && s.phase.ring < |sizes| && s.phase.stop < sizes[s.phase.ring]
          && s.session.lanes[s.phase.ring].ring.tail < |s.session.lanes[s.phase.ring].ring.mem|)
  }

  /** The ring being drained. */
  ghost function Current(sizes: seq<nat>, s: Split): (l: Lane)
    requires Placed(sizes, s) && !s.phase.Idle?
    ensures s.phase.stop < |l.ring.mem| && l.ring.tail < |l.ring.mem|
  {
    s.session.lanes[s.phase.ring]
  }

  /** The kernel may append at any time, as long as what it sees as unread, counted from the
      tail last written, stays below the ring. The profiler does one thing after another. */
  ghost predicate Allowed(sizes: seq<nat>, s: Split, v: Move)
    requires Placed(sizes, s)
  {
    match v
    case KernelAppend(i, rec) =>
      && i < |sizes| && IsRecord(rec)
      && s.session.lanes[i].taken <= |s.session.lanes[i].log| && Fits(s.session.lanes[i], rec)
    case ReadHead(i, _) => s.phase.Idle? && i < |sizes|
    case CopyByte => s.phase.Copying? && |s.phase.buf| < CopyLength(Current(sizes, s), s.phase.stop)
    case Analyse => s.phase.Copying? && |s.phase.buf| == CopyLength(Current(sizes, s), s.phase.stop)
    case WriteTail => s.phase.Analysed?
    case ResetCounters => s.phase.Idle?
  }

  /** The lane once the tail is written. */
  function TailWritten(l: Lane, stop: nat, records: nat, copy: seq<Byte>): Lane {
    Lane(l.ring.(tail := stop), l.log, records, l.copied + copy)
  }

  ghost function Perform(codec: Codec, sizes: seq<nat>, s: Split, v: Move): (s': Split)
    requires Placed(sizes, s) && Allowed(sizes, s, v)
    ensures Placed(sizes, s')
  {
    match v
    case KernelAppend(i, rec) => s.(session := Step(codec, sizes, s.session, Append(i, rec)))
    case ReadHead(i, at) =>
      var l := s.session.lanes[i];
      assert l.ring.tail < |l.ring.mem| == sizes[i];
      s.(phase := Copying(i, at, ReducedHead(l.ring), |l.log|, []))
    case CopyByte =>
      var l, p := Current(sizes, s), s.phase;
      var byte := l.ring.mem[Place(l.ring.tail, |p.buf|, |l.ring.mem|)];
      s.(phase := Copying(p.ring, p.at, p.stop, p.records, p.buf + [byte]))
    case Analyse =>
      var p := s.phase;
      Split(
        s.session.(ledger := Absorb(codec, s.session.ledger, p.at, p.buf)),
        Analysed(p.ring, p.at, p.stop, p.records, p.buf))
    case WriteTail =>
      var p := s.phase;
      var l := TailWritten(Current(sizes, s), p.stop, p.records, p.buf);
      Split(s.session.(lanes := s.session.lanes[p.ring := l]), Idle)
    case ResetCounters => s.(session := Step(codec, sizes, s.session, Reset))
  }

  /** Any interleaving of allowed steps. */
  ghost predicate IsPath(codec: Codec, sizes: seq<nat>, ss: seq<Split>, vs: seq<Move>) {
    && |ss| == |vs| + 1
    && (forall i | 0 <= i < |ss| :: Placed(sizes, ss[i]))
    && (forall i | 0 <= i < |vs| :: Allowed(sizes, ss[i], vs[i]) && ss[i + 1] == Perform(codec, sizes, ss[i], vs[i]))
  }

  /** One from the start. */
  ghost predicate IsRun(codec: Codec, sizes: seq<nat>, ss: seq<Split>, vs: seq<Move>) {
    IsPath(codec, sizes, ss, vs) && ss[0] == Split(Start(sizes), Idle)
  }

  /** What a step amounts to: a drain happens where its head is read. */
  function EventOf(v: Move): seq<Event> {
    match v
    case KernelAppend(i, rec) => [Append(i, rec)]
    case ReadHead(i, at) => [Drain(i, at)]
    case ResetCounters => [Reset]
    case _ => []
  }

  function Events(vs: seq<Move>): seq<Event> {
    if vs == [] then [] else Events(vs[..|vs| - 1]) + EventOf(vs[|vs| - 1])
  }

  // ----- refinement -----

  /** The records a drain under way takes. */
  ghost function Taking(l: Lane, records: nat): seq<Byte>
    requires l.taken <= records <= |l.log|
  {
    Flat(l.log[l.taken..records])
  }

  /** A drain that read its head after `records` records. */
  ghost predicate UnderWay(l: Lane, stop: nat, records: nat) {
    && Consistent(l)
    && l.taken <= records <= |l.log|
    && stop == |Flat(l.log[..records])| % |l.ring.mem|
  }

  /** The split state against the state `t` in which the drain under way is already over. */
  ghost predicate Refines(codec: Codec, s: Split, t: Session) {
    && |s.session.lanes| == |t.lanes| && |s.session.ledger.counters| == 2
    && match s.phase
       case Idle => s.session == t
       case Copying(i, at, stop, records, buf) =>
         && Behind(s.session, t, i, stop, records)
         && buf <= Taking(s.session.lanes[i], records)
         && t.ledger == Absorb(codec, s.session.ledger, at, Taking(s.session.lanes[i], records))
       case Analysed(i, at, stop, records, buf) =>
         && Behind(s.session, t, i, stop, records)
         && buf == Taking(s.session.lanes[i], records)
         && t.ledger == s.session.ledger
  }

  /** Only the ring being drained differs, by the tail not yet written. */
  ghost predicate Behind(s: Session, t: Session, i: nat, stop: nat, records: nat) {
    && i < |s.lanes| == |t.lanes|
    && UnderWay(s.lanes[i], stop, records)
    && t.lanes == s.lanes[i := TailWritten(s.lanes[i], stop, records, Taking(s.lanes[i], records))]
  }

  lemma TakingAfterAppend(l: Lane, records: nat, rec: seq<Byte>)
    requires l.taken <= records <= |l.log|
    ensures (l.log + [rec])[l.taken..records] == l.log[l.taken..records]
    ensures (l.log + [rec])[..records] == l.log[..records]
  {
  }

  /** An append while a drain is under way: what the drain takes stays as it is, byte for byte,
      and the append is one the finished drain would have allowed. */
  lemma AppendUnderWay(l: Lane, stop: nat, records: nat, rec: seq<Byte>)
    requires UnderWay(l, stop, records) && IsRecord(rec) && Fits(l, rec)
    ensures UnderWay(LaneAppend(l, rec), stop, records)
    ensures Taking(LaneAppend(l, rec), records) == Taking(l, records)
    ensures TailWritten(LaneAppend(l, rec), stop, records, Taking(l, records)) ==
            LaneAppend(TailWritten(l, stop, records, Taking(l, records)), rec)
  {
    AppendKeepsConsistent(l, rec);
    TakingAfterAppend(l, records, rec);
  }

  /** The ring as it stood when the head was read, over the memory of now. */
  ghost function AtHead(l: Lane, records: nat): Lane
    requires records <= |l.log|
  {
    Lane(RingState(l.ring.mem, |Flat(l.log[..records])|, l.ring.tail), l.log[..records], l.taken, l.copied)
  }

  lemma AtHeadConsistent(l: Lane, stop: nat, records: nat)
    requires UnderWay(l, stop, records)
    ensures Consistent(AtHead(l, records))
  {
    FlatSplit(l.log, records);
    FlatSplit(l.log[..records], l.taken);
    assert l.log[..records][..l.taken] == l.log[..l.taken];
  }

  /** What the program is to copy, in length and in bytes, is what the drain takes. */
  lemma CopyIsTaking(l: Lane, stop: nat, records: nat)
    requires UnderWay(l, stop, records)
    ensures l.ring.tail < |l.ring.mem| && stop < |l.ring.mem|
    ensures Logical(l.ring.mem, l.ring.tail, stop) == Taking(l, records)
    ensures CopyLength(l, stop) == |Taking(l, records)|
  {
    AtHeadConsistent(l, stop, records);
    UnreadIsLogSuffix(AtHead(l, records));
    assert l.log[..records][l.taken..] == l.log[l.taken..records];
  }

  lemma ByteOfCopy(l: Lane, stop: nat, records: nat, k: nat)
    requires UnderWay(l, stop, records) && k < |Taking(l, records)|
    ensures l.ring.tail < |l.ring.mem| && k < |l.ring.mem|
    ensures l.ring.mem[Place(l.ring.tail, k, |l.ring.mem|)] == Taking(l, records)[k]
  {
    CopyIsTaking(l, stop, records);
  }

  lemma CopyByteRefines(codec: Codec, sizes: seq<nat>, s: Split, t: Session)
    requires Placed(sizes, s) && Refines(codec, s, t) && Allowed(sizes, s, CopyByte)
    ensures Refines(codec, Perform(codec, sizes, s, CopyByte), t)
  {
    var l, p := Current(sizes, s), s.phase;
    CopyIsTaking(l, p.stop, p.records);
    ByteOfCopy(l, p.stop, p.records, |p.buf|);
  }

  lemma AnalyseRefines(codec: Codec, sizes: seq<nat>, s: Split, t: Session)
    requires Placed(sizes, s) && Refines(codec, s, t) && Allowed(sizes, s, Analyse)
    ensures Refines(codec, Perform(codec, sizes, s, Analyse), t)
  {
    var l, p := Current(sizes, s), s.phase;
    CopyIsTaking(l, p.stop, p.records);
    assert p.buf == Taking(l, p.records);
  }

  lemma WriteTailRefines(codec: Codec, sizes: seq<nat>, s: Split, t: Session)
    requires Placed(sizes, s) && Refines(codec, s, t) && Allowed(sizes, s, WriteTail)
    ensures Refines(codec, Perform(codec, sizes, s, WriteTail), t)
  {
  }

  lemma ReadHeadRefines(codec: Codec, sizes: seq<nat>, s: Split, t: Session, i: nat, at: AccessType)
    requires Placed(sizes, s) && Refines(codec, s, t) && Allowed(sizes, s, ReadHead(i, at))
    requires Consistent(t.lanes[i])
    ensures Refines(codec, Perform(codec, sizes, s, ReadHead(i, at)), Step(codec, sizes, t, Drain(i, at)))
  {
    var l := t.lanes[i];
    UnreadIsLogSuffix(l);
    assert l.log[..|l.log|] == l.log && l.log[l.taken..|l.log|] == l.log[l.taken..];
  }

  lemma AppendRefines(codec: Codec, sizes: seq<nat>, s: Split, t: Session, i: nat, rec: seq<Byte>)
    requires Placed(sizes, s) && Refines(codec, s, t) && Shaped(sizes, t)
    requires Allowed(sizes, s, KernelAppend(i, rec))
    ensures Refines(codec, Perform(codec, sizes, s, KernelAppend(i, rec)), Step(codec, sizes, t, Append(i, rec)))
  {
    if !s.phase.Idle? && s.phase.ring == i {
      AppendUnderWay(s.session.lanes[i], s.phase.stop, s.phase.records, rec);
    }
  }

  /** What fits against the old tail fits against the new one. */
  lemma FitsOnceWritten(l: Lane, stop: nat, records: nat, rec: seq<Byte>)
    requires UnderWay(l, stop, records) && Fits(l, rec)
    ensures Fits(TailWritten(l, stop, records, Taking(l, records)), rec)
  {
    FlatSplit(l.log[..records], l.taken);
    assert l.log[..records][..l.taken] == l.log[..l.taken];
  }

  lemma FittingIsAdmissible(codec: Codec, sizes: seq<nat>, es: seq<Event>, i: nat, rec: seq<Byte>)
    requires GoodSizes(sizes) && Admissible(sizes, es) && i < |sizes| && IsRecord(rec)
    requires var l := Run(codec, sizes, es).lanes[i]; l.taken <= |l.log| && Fits(l, rec)
    ensures Admissible(sizes, es + [Append(i, rec)])
  {
    var l := Run(codec, sizes, es).lanes[i];
    RunMatches(codec, sizes, es);
    assert LaneMatches(l, sizes[i], es, i);
    UnreadIsLogSuffix(l);
    assert (es + [Append(i, rec)])[..|es|] == es;
  }

  lemma AppendIsAdmissible(codec: Codec, sizes: seq<nat>, s: Split, es: seq<Event>, i: nat, rec: seq<Byte>)
    requires GoodSizes(sizes) && Admissible(sizes, es) && Placed(sizes, s)
    requires Refines(codec, s, Run(codec, sizes, es)) && Allowed(sizes, s, KernelAppend(i, rec))
    ensures Admissible(sizes, es + [Append(i, rec)])
  {
    if !s.phase.Idle? && s.phase.ring == i {
      FitsOnceWritten(s.session.lanes[i], s.phase.stop, s.phase.records, rec);
    }
    FittingIsAdmissible(codec, sizes, es, i, rec);
  }

  lemma RunLaneConsistent(codec: Codec, sizes: seq<nat>, es: seq<Event>, i: nat)
    requires GoodSizes(sizes) && Admissible(sizes, es) && i < |sizes|
    ensures Consistent(Run(codec, sizes, es).lanes[i])
  {
    RunMatches(codec, sizes, es);
    assert LaneMatches(Run(codec, sizes, es).lanes[i], sizes[i], es, i);
  }

  /** One step of the split run is one event of the run, or none. */
  lemma StepRefines(codec: Codec, sizes: seq<nat>, s: Split, es: seq<Event>, v: Move)
    requires GoodSizes(sizes) && Admissible(sizes, es) && Placed(sizes, s) && Allowed(sizes, s, v)
    requires Refines(codec, s, Run(codec, sizes, es))
    ensures Admissible(sizes, es + EventOf(v))
    ensures Refines(codec, Perform(codec, sizes, s, v), Run(codec, sizes, es + EventOf(v)))
  {
    var t := Run(codec, sizes, es);
    match v
    case KernelAppend(i, rec) =>
      AppendIsAdmissible(codec, sizes, s, es, i, rec);
      RunNext(codec, sizes, es, Append(i, rec));
      AppendRefines(codec, sizes, s, t, i, rec);
    case ReadHead(i, at) =>
      RunDrain(codec, sizes, es, Drain(i, at));
      RunLaneConsistent(codec, sizes, es, i);
      ReadHeadRefines(codec, sizes, s, t, i, at);
    case CopyByte =>
      assert es + EventOf(v) == es;
      CopyByteRefines(codec, sizes, s, t);
    case Analyse =>
      assert es + EventOf(v) == es;
      AnalyseRefines(codec, sizes, s, t);
    case WriteTail =>
      assert es + EventOf(v) == es;
      WriteTailRefines(codec, sizes, s, t);
    case ResetCounters =>
      assert (es + [Reset])[..|es|] == es;
      RunNext(codec, sizes, es, Reset);
  }

  /** Whatever the kernel appends between the steps of a drain, the rings, ledgers and counters
      are at every moment those of the run in which the drain was one step, up to the tail not
      yet written, and the bytes in the copy are the first of those it is to take. */
  lemma {:induction false} RunRefines(codec: Codec, sizes: seq<nat>, ss: seq<Split>, vs: seq<Move>, i: nat)
    requires GoodSizes(sizes) && IsRun(codec, sizes, ss, vs) && i < |ss|
    ensures Admissible(sizes, Events(vs[..i]))
    ensures Refines(codec, ss[i], Run(codec, sizes, Events(vs[..i])))
  {
    if i > 0 {
      var k := i - 1;
      RunRefines(codec, sizes, ss, vs, k);
      assert vs[..i][..k] == vs[..k] && ss[k + 1] == Perform(codec, sizes, ss[k], vs[k]);
      StepRefines(codec, sizes, ss[k], Events(vs[..k]), vs[k]);
    }
  }

  /** Between drains nothing tells the two apart, so all that holds after every run of single
      steps holds here. */
  lemma DrainIsAtomic(codec: Codec, sizes: seq<nat>, ss: seq<Split>, vs: seq<Move>, i: nat)
    requires GoodSizes(sizes) && IsRun(codec, sizes, ss, vs) && i < |ss| && ss[i].phase.Idle?
    ensures Admissible(sizes, Events(vs[..i]))
    ensures ss[i].session == Run(codec, sizes, Events(vs[..i]))
  {
    RunRefines(codec, sizes, ss, vs, i);
  }

  /** The bytes copied out of ring j so far, those of the copy being made included. */
  function CopiedSoFar(s: Split, j: nat): seq<Byte>
    requires j < |s.session.lanes|
  {
    s.session.lanes[j].copied + (if !s.phase.Idle? && s.phase.ring == j then s.phase.buf else [])
  }

  /** Nothing lost, repeated or reordered, at any moment of a drain: what has been copied out of
      a ring is a prefix of the stream appended to it, and, unless a copy is being made, exactly
      what was appended before its last head was read. */
  lemma CopiedExactlyOnce(codec: Codec, sizes: seq<nat>, ss: seq<Split>, vs: seq<Move>, i: nat, j: nat)
    requires GoodSizes(sizes) && IsRun(codec, sizes, ss, vs) && i < |ss| && j < |sizes|
    ensures CopiedSoFar(ss[i], j) <= Flat(Produced(Events(vs[..i]), j))
    ensures !(ss[i].phase.Copying? && ss[i].phase.ring == j) ==>
              CopiedSoFar(ss[i], j) == Flat(UpToLastDrain(Events(vs[..i]), j))
  {
    var es := Events(vs[..i]);
    RunRefines(codec, sizes, ss, vs, i);
    ReadExactlyOnce(codec, sizes, es, j);
    var s, t := ss[i], Run(codec, sizes, es);
    CopiedAgainst(codec, s, t, j);
  }

  lemma CopiedAgainst(codec: Codec, s: Split, t: Session, j: nat)
    requires Refines(codec, s, t) && j < |t.lanes|
    ensures CopiedSoFar(s, j) <= t.lanes[j].copied
    ensures !(s.phase.Copying? && s.phase.ring == j) ==> CopiedSoFar(s, j) == t.lanes[j].copied
  {
    if !s.phase.Idle? && s.phase.ring == j {
      assert s.phase.buf <= Taking(s.session.lanes[j], s.phase.records);
    }
  }

  // ----- progress -----

  /** The kernel waits for nobody: a record is kept back only if it would fill the ring, counted
      from the tail last written. */
  lemma AppendsAreFree(sizes: seq<nat>, s: Split, i: nat, rec: seq<Byte>)
    requires Placed(sizes, s) && i < |sizes| && Consistent(s.session.lanes[i]) && IsRecord(rec)
    ensures Allowed(sizes, s, KernelAppend(i, rec)) <==>
            |Unread(s.session.lanes[i].ring)| + |rec| < sizes[i]
  {
    UnreadIsLogSuffix(s.session.lanes[i]);
  }

  /** With no drain under way any ring may be drained next, or the counters reset. */
  lemma IdleIsFree(sizes: seq<nat>, s: Split, i: nat, at: AccessType)
    requires Placed(sizes, s) && s.phase.Idle?
    ensures Allowed(sizes, s, ReadHead(i, at)) <==> i < |sizes|
    ensures Allowed(sizes, s, ResetCounters)
  {
  }

  lemma PathsJoin(codec: Codec, sizes: seq<nat>, ss: seq<Split>, vs: seq<Move>, ts: seq<Split>, us: seq<Move>)
    requires IsPath(codec, sizes, ss, vs) && IsPath(codec, sizes, ts, us) && ts[0] == ss[|vs|]
    ensures IsPath(codec, sizes, ss + ts[1..], vs + us)
    ensures (ss + ts[1..])[|vs| + |us|] == ts[|us|]
  {
    var all, moves := ss + ts[1..], vs + us;
    forall i | 0 <= i < |moves|
      ensures Placed(sizes, all[i]) && Allowed(sizes, all[i], moves[i])
      ensures all[i + 1] == Perform(codec, sizes, all[i], moves[i])
    {
      if i < |vs| {
        assert Allowed(sizes, ss[i], vs[i]) && ss[i + 1] == Perform(codec, sizes, ss[i], vs[i]);
      } else {
        var k := i - |vs|;
        assert Allowed(sizes, ts[k], us[k]) && ts[k + 1] == Perform(codec, sizes, ts[k], us[k]);
        assert all[i] == ts[k];
      }
    }
  }

  lemma EventsSnoc(vs: seq<Move>, v: Move)
    ensures Events(vs + [v]) == Events(vs) + EventOf(v)
  {
    assert (vs + [v])[..|vs|] == vs;
  }

  lemma Regroup<T>(a: seq<T>, b: seq<T>, c: seq<T>)
    ensures a + b + c == a + (b + c)
  {
  }

  lemma ConcatStep(vs: seq<Move>, us: seq<Move>, u: Move)
    requires Events(vs + us) == Events(vs) + Events(us)
    ensures Events(vs + (us + [u])) == Events(vs) + Events(us + [u])
  {
    Regroup(vs, us, [u]);
    EventsSnoc(vs + us, u);
    EventsSnoc(us, u);
    Regroup(Events(vs), Events(us), EventOf(u));
  }

  lemma {:induction false} EventsConcat(vs: seq<Move>, us: seq<Move>)
    ensures Events(vs + us) == Events(vs) + Events(us)
    decreases |us|
  {
    if us == [] {
      NothingMore(vs);
    } else {
      var init, u := us[..|us| - 1], us[|us| - 1];
      assert us == init + [u];
      EventsConcat(vs, init);
      ConcatStep(vs, init, u);
    }
  }

  lemma NothingMore(vs: seq<Move>)
    ensures vs + [] == vs && Events(vs) + Events([]) == Events(vs)
  {
  }

  /** One allowed step as a path. */
  lemma OneMove(codec: Codec, sizes: seq<nat>, s: Split, v: Move)
    requires Placed(sizes, s) && Allowed(sizes, s, v)
    ensures IsPath(codec, sizes, [s, Perform(codec, sizes, s, v)], [v]) && Events([v]) == EventOf(v)
  {
    assert Events([v]) == Events([]) + EventOf(v);
  }

  /** How far a drain is from its end. */
  ghost function StepsLeft(sizes: seq<nat>, s: Split): nat
    requires Placed(sizes, s)
  {
    match s.phase
    case Idle => 0
    case Analysed(_, _, _, _, _) => 1
    case Copying(_, _, stop, _, buf) =>
      var n := CopyLength(Current(sizes, s), stop);
      2 + (if |buf| < n then n - |buf| else 0)
  }

  /** What the profiler does next in a drain under way. */
  ghost function NextMove(sizes: seq<nat>, s: Split): Move
    requires Placed(sizes, s) && !s.phase.Idle?
  {
    if s.phase.Analysed? then WriteTail
    else if |s.phase.buf| < CopyLength(Current(sizes, s), s.phase.stop) then CopyByte
    else Analyse
  }

  /** A drain under way can always make its next step, and comes one step nearer its end. */
  lemma DrainProgresses(codec: Codec, sizes: seq<nat>, s: Split, t: Session)
    requires Placed(sizes, s) && Refines(codec, s, t) && !s.phase.Idle?
    ensures var v := NextMove(sizes, s);
            && Allowed(sizes, s, v) && EventOf(v) == []
            && Refines(codec, Perform(codec, sizes, s, v), t)
            && StepsLeft(sizes, Perform(codec, sizes, s, v)) < StepsLeft(sizes, s)
  {
    if s.phase.Analysed? {
      WriteTailRefines(codec, sizes, s, t);
    } else {
      CopyIsTaking(Current(sizes, s), s.phase.stop, s.phase.records);
      if NextMove(sizes, s) == CopyByte {
        CopyByteRefines(codec, sizes, s, t);
      } else {
        AnalyseRefines(codec, sizes, s, t);
      }
    }
  }

  /** So wherever it stands it can finish, without any help from the kernel. */
  lemma {:induction false} DrainCanFinish(codec: Codec, sizes: seq<nat>, s: Split, t: Session)
    returns (ss: seq<Split>, vs: seq<Move>)
    requires Placed(sizes, s) && Refines(codec, s, t)
    ensures IsPath(codec, sizes, ss, vs) && ss[0] == s && ss[|vs|].phase.Idle? && Events(vs) == []
    decreases StepsLeft(sizes, s)
  {
    if s.phase.Idle? {
      ss, vs := [s], [];
    } else {
      var v := NextMove(sizes, s);
      DrainProgresses(codec, sizes, s, t);
      OneMove(codec, sizes, s, v);
      var s' := Perform(codec, sizes, s, v);
      var ts, us := DrainCanFinish(codec, sizes, s', t);
      PathsJoin(codec, sizes, [s, s'], [v], ts, us);
      EventsConcat([v], us);
      ss, vs := [s, s'] + ts[1..], [v] + us;
    }
  }

  /** A ring that holds one record, none of it drained. */
  ghost predicate HoldsOne(l: Lane, n: nat, r: seq<Byte>) {
    && |l.ring.mem| == n && l.log == [r] && l.taken == 0
    && l.ring.head == |r| && l.ring.tail == 0 && Position(l) == 0
  }

  lemma FirstAppend(codec: Codec, sizes: seq<nat>, r: seq<Byte>)
    requires GoodSizes(sizes) && sizes != [] && IsRecord(r) && 2 * |r| < sizes[0]
    ensures var s := Split(Start(sizes), Idle);
            && Placed(sizes, s) && Allowed(sizes, s, KernelAppend(0, r))
            && HoldsOne(Perform(codec, sizes, s, KernelAppend(0, r)).session.lanes[0], sizes[0], r)
  {
    assert forall i | 0 <= i < |sizes| :: RingSize(sizes[i]);
    var l := Start(sizes).lanes[0];
    assert l == Fresh(sizes[0]) && l.log[..0] == [] && l.log + [r] == [r] && [r][..0] == [];
  }

  /** From there a drain reads the head and copies a byte, and another record is appended. */
  lemma SecondAppend(codec: Codec, sizes: seq<nat>, at: AccessType, r: seq<Byte>, s: Split)
    returns (ss: seq<Split>)
    requires Placed(sizes, s) && s.phase.Idle? && sizes != [] && IsRecord(r) && 2 * |r| < sizes[0]
    requires HoldsOne(s.session.lanes[0], sizes[0], r)
    ensures |ss| == 4 && ss[0] == s
    ensures IsPath(codec, sizes, ss, [ReadHead(0, at), CopyByte, KernelAppend(0, r)])
  {
    HeadBelow(|r|, sizes[0]);
    var s2 := Perform(codec, sizes, s, ReadHead(0, at));
    var s3 := Perform(codec, sizes, s2, CopyByte);
    var s4 := Perform(codec, sizes, s3, KernelAppend(0, r));
    ss := [s, s2, s3, s4];
  }

  /** The first four steps of the run below. */
  lemma AppendAfterOneByte(codec: Codec, sizes: seq<nat>, at: AccessType, r: seq<Byte>)
    returns (ss: seq<Split>, vs: seq<Move>)
    requires GoodSizes(sizes) && sizes != [] && IsRecord(r) && 2 * |r| < sizes[0]
    ensures IsRun(codec, sizes, ss, vs)
    ensures vs == [KernelAppend(0, r), ReadHead(0, at), CopyByte, KernelAppend(0, r)]
  {
    var s0, v := Split(Start(sizes), Idle), KernelAppend(0, r);
    FirstAppend(codec, sizes, r);
    var s1 := Perform(codec, sizes, s0, v);
    OneMove(codec, sizes, s0, v);
    var ts := SecondAppend(codec, sizes, at, r, s1);
    PathsJoin(codec, sizes, [s0, s1], [v], ts, [ReadHead(0, at), CopyByte, KernelAppend(0, r)]);
    ss, vs := [s0, s1] + ts[1..], [v] + [ReadHead(0, at), CopyByte, KernelAppend(0, r)];
  }

  lemma HeadBelow(head: nat, n: nat)
    requires head < n
    ensures head % n == head
  {
  }

  /** Every run can be brought to the end of its drain, and that adds no event. */
  lemma RunCanFinish(codec: Codec, sizes: seq<nat>, ss: seq<Split>, vs: seq<Move>)
    returns (ts: seq<Split>, us: seq<Move>)
    requires GoodSizes(sizes) && IsRun(codec, sizes, ss, vs)
    ensures IsRun(codec, sizes, ts, us) && vs <= us && ts[|us|].phase.Idle?
    ensures Events(us) == Events(vs)
  {
    RunRefines(codec, sizes, ss, vs, |vs|);
    var more, moves := DrainCanFinish(codec, sizes, ss[|vs|], Run(codec, sizes, Events(vs[..|vs|])));
    PathsJoin(codec, sizes, ss, vs, more, moves);
    EventsConcat(vs, moves);
    ts, us := ss + more[1..], vs + moves;
  }

  lemma CopiedAtEnd(codec: Codec, sizes: seq<nat>, ss: seq<Split>, vs: seq<Move>, j: nat)
    requires GoodSizes(sizes) && IsRun(codec, sizes, ss, vs) && j < |sizes| && ss[|vs|].phase.Idle?
    ensures ss[|vs|].session.lanes[j].copied == Flat(UpToLastDrain(Events(vs), j))
  {
    assert vs[..|vs|] == vs;
    CopiedExactlyOnce(codec, sizes, ss, vs, |vs|, j);
  }

  /** There are such runs: a record is appended, its drain copies a byte, the kernel appends
      another record, and the drain goes on to its end. It has copied the first record. */
  lemma AppendInMidCopy(codec: Codec, sizes: seq<nat>, at: AccessType, r: seq<Byte>)
    returns (ss: seq<Split>, vs: seq<Move>)
    requires GoodSizes(sizes) && sizes != [] && IsRecord(r) && 2 * |r| < sizes[0]
    ensures IsRun(codec, sizes, ss, vs)
    ensures [KernelAppend(0, r), ReadHead(0, at), CopyByte, KernelAppend(0, r)] <= vs
    ensures ss[|vs|].phase.Idle? && ss[|vs|].session.lanes[0].copied == r
    ensures Events(vs) == [Append(0, r), Drain(0, at), Append(0, r)]
  {
    var ss1, vs1 := AppendAfterOneByte(codec, sizes, at, r);
    ss, vs := RunCanFinish(codec, sizes, ss1, vs1);
    FirstEvents(at, r);
    CopiedAtEnd(codec, sizes, ss, vs, 0);
    FlatOne(r);
  }

  lemma FirstEvents(at: AccessType, r: seq<Byte>)
    ensures Events([KernelAppend(0, r), ReadHead(0, at), CopyByte, KernelAppend(0, r)]) ==
            [Append(0, r), Drain(0, at), Append(0, r)]
    ensures UpToLastDrain([Append(0, r), Drain(0, at), Append(0, r)], 0) == [r]
  {
    var a, d: Move, c, e: Event, f: Event := KernelAppend(0, r), ReadHead(0, at), CopyByte, Append(0, r), Drain(0, at);
    assert [a, d, c, a][..3] == [a, d, c] && [a, d, c][..2] == [a, d] && [a, d][..1] == [a] && [a][..0] == [];
    assert [e, f, e][..2] == [e, f] && [e, f][..1] == [e] && [e][..0] == [];
    assert Events([a]) == [] + [e] == [e];
    assert Events([a, d]) == [e] + [f] == [e, f];
    assert Events([a, d, c]) == [e, f] + [] == [e, f];
    assert Events([a, d, c, a]) == [e, f] + [e] == [e, f, e];
    assert Produced([e], 0) == [] + [r] == [r];
    assert UpToLastDrain([e, f], 0) == [r];
  }
}
