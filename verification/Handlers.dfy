/** The overflow handler and the closing of a measure: what stops a measure and drains its rings. */
module Handlers {
  import opened Ring
  import opened Statistics
  import opened Collection
  import opened Measures
  import opened SampleCollector
  import opened Lifecycle
  import opened Sampling

  const ACCESS_WRITE: AccessType := 1

  /** One round of the overflow handler: stop, drain, resume. */
  method HandlerRound(m: Measure, c: Collector, codec: Codec)
    requires m.Ready() && c.Idle()
    modifies m`started, c, c.globalCounters, m.Rings()`dataTail, m.Rings()`taken, m.Rings()`copied
    ensures m.started == 1 && m.Ready() && c.Idle() && m.Rings() == old(m.Rings())
    ensures Lanes(m.Rings()) == DrainAll(old(Lanes(m.Rings())))
    ensures c.Totals() == AbsorbAll(codec, old(c.Totals()), ACCESS_WRITE, UnreadAll(old(Lanes(m.Rings()))))
  {
    var stopped := m.Stop();
    c.ProcessSamples(m, ACCESS_WRITE, codec);
    var resumed := m.Resume();
  }

  /** The overflow handler: `rounds` times, stop the measure, drain its rings and resume. One
      round does all the work; the measure ends up started. */
  method GenericHandler(m: Measure, rounds: nat, c: Collector, codec: Codec)
    requires m.Ready() && c.Idle()
    modifies m`started, c, c.globalCounters, m.Rings()`dataTail, m.Rings()`taken, m.Rings()`copied
    ensures m.started == if rounds == 0 then old(m.started) else 1
    ensures m.Ready() && c.Idle() && m.Rings() == old(m.Rings())
    ensures Lanes(m.Rings()) == if rounds == 0 then old(Lanes(m.Rings())) else DrainAll(old(Lanes(m.Rings())))
    ensures c.Totals() == if rounds == 0 then old(c.Totals())
                          else AbsorbAll(codec, old(c.Totals()), ACCESS_WRITE, UnreadAll(old(Lanes(m.Rings()))))
    ensures c.globalCounters[0] == old(c.globalCounters[0])
  {
    ghost var before, totals := Lanes(m.Rings()), c.Totals();
    ghost var drained := AbsorbAll(codec, totals, ACCESS_WRITE, UnreadAll(before));
    AbsorbAllOther(codec, totals, ACCESS_WRITE, UnreadAll(before));
    assert totals.counters[0] == c.globalCounters[0];
    for i := 0 to rounds
      invariant m.Ready() && c.Idle() && m.Rings() == old(m.Rings())
      invariant i == 0 ==> m.started == old(m.started) && Lanes(m.Rings()) == before && c.Totals() == totals
      invariant i > 0 ==> m.started == 1 && Lanes(m.Rings()) == DrainAll(before) && c.Totals() == drained
    {
      SecondPassIdle(codec, before, drained, ACCESS_WRITE);
      HandlerRound(m, c, codec);
    }
  }

  method ClearCounters(m: Measure, c: Collector)
    requires c.Idle()
    modifies c.globalCounters
    ensures c.Idle() && c.Totals() == old(c.Totals()).(counters := RESET)
    ensures m.RingsKept()
  {
    c.InitMemCounters();
  }

  /** The report of a measure whose rings were just drained: the counters are cleared and the
      rings drained once more for every thread. */
  method Report(m: Measure, c: Collector, codec: Codec, ghost before: seq<Lane>)
    requires m.Ready() && c.Idle() && AllConsistent(before) && Lanes(m.Rings()) == DrainAll(before)
    modifies c, c.globalCounters, m.Rings()`dataTail, m.Rings()`taken, m.Rings()`copied
    ensures m.Ready() && c.Idle() && m.Rings() == old(m.Rings()) && Lanes(m.Rings()) == DrainAll(before)
    ensures c.Totals() == old(c.Totals()).(counters := RESET)
  {
    ClearCounters(m, c);
    SecondPassIdle(codec, before, c.Totals(), ACCESS_WRITE);
    for thread := 0 to m.nbThreads
      invariant m.Ready() && c.Idle() && m.Rings() == old(m.Rings()) && Lanes(m.Rings()) == DrainAll(before)
      invariant c.Totals() == old(c.Totals()).(counters := RESET)
    {
      c.ProcessSamples(m, ACCESS_WRITE, codec);
    }
  }

  /** A measure's rings were drained once into the ledgers, and the counters cleared. */
  twostate predicate Reported(m: Measure, c: Collector, codec: Codec)
    requires old(m.Ready()) && old(c.Idle())
    reads m, m.pagesPerTid, m.pagesPerTid[..], set p <- m.pagesPerTid[..] | p != null :: p.data
    reads c, c.globalCounters
  {
    && m.Ready() && c.Idle() && m.Rings() == old(m.Rings())
    && Lanes(m.Rings()) == DrainAll(old(Lanes(m.Rings())))
    && c.Totals() ==
       AbsorbAll(codec, old(c.Totals()), ACCESS_WRITE, UnreadAll(old(Lanes(m.Rings())))).(counters := RESET)
  }

  /** The last drain of a stopped measure. It counts writes, so the read counters stay. */
  method LastDrain(m: Measure, c: Collector, codec: Codec)
    requires m.Ready() && c.Idle()
    modifies c, c.globalCounters, m.Rings()`dataTail, m.Rings()`taken, m.Rings()`copied
    ensures m.Ready() && c.Idle() && m.Rings() == old(m.Rings())
    ensures Lanes(m.Rings()) == DrainAll(old(Lanes(m.Rings())))
    ensures c.Totals() == AbsorbAll(codec, old(c.Totals()), ACCESS_WRITE, UnreadAll(old(Lanes(m.Rings()))))
    ensures c.globalCounters[0] == old(c.globalCounters[0])
  {
    ghost var totals, before := c.Totals(), Lanes(m.Rings());
    AbsorbAllOther(codec, totals, ACCESS_WRITE, UnreadAll(before));
    assert totals.counters[0] == c.globalCounters[0];
    c.ProcessSamples(m, ACCESS_WRITE, codec);
    assert c.Totals().counters[0] == c.globalCounters[0];
  }

  /** The last drain of a stopped measure and its report. The report's drains find nothing, so
      it leaves the byte and sample totals of the drain before it, over cleared counters. */
  method DrainAndReport(m: Measure, c: Collector, codec: Codec)
    requires m.Ready() && c.Idle()
    modifies c, c.globalCounters, m.Rings()`dataTail, m.Rings()`taken, m.Rings()`copied
    ensures Reported(m, c, codec)
  {
    ghost var before := Lanes(m.Rings());
    LastDrain(m, c, codec);
    Report(m, c, codec, before);
  }

  method StopAndReport(m: Measure, c: Collector, codec: Codec)
    requires m.started != 0 && m.Ready() && c.Idle()
    modifies m`started, c, c.globalCounters, m.Rings()`dataTail, m.Rings()`taken, m.Rings()`copied
    ensures Reported(m, c, codec) && m.View() == StopMeasure(old(m.View())).0
  {
    var stopped := m.Stop();
    DrainAndReport(m, c, codec);
  }

  /** The same, as the sampler sees it. */
  method StopAndReportIn(ghost s: Sampler, m: Measure, c: Collector, codec: Codec)
    requires s.Separate() && m in s.measures && m.started != 0 && m.Ready() && c.Idle()
    modifies m`started, c, c.globalCounters, m.Rings()`dataTail, m.Rings()`taken, m.Rings()`copied
    ensures s.Separate() && s.View() == Perform(old(s.View()), Call.Stop(m)) && m.started == 0
    ensures Reported(m, c, codec)
  {
    StopAndReport(m, c, codec);
    s.WorldOfStop(m);
  }

  /** Ending a measure that has all its rings takes every one of them away. The collector is
      left alone. */
  method EndReady(s: Sampler, m: Measure, ghost c: Collector)
    requires s.Separate() && m in s.measures && m.Ready() && c.Idle()
    modifies s`list, s`open, m`gone, m.pagesPerTid[..m.nbThreads]`live
    ensures s.Separate() && s.list == null && s.View() == Perform(old(s.View()), Call.End(m))
    ensures AllUnmapped(m) && m.started == old(m.started)
    ensures c.Idle() && c.Totals() == old(c.Totals())
  {
    m.ReadyIsSound();
    s.End(m);
  }

  /** Every slot holds an address, and no page is there any more. */
  ghost predicate AllUnmapped(m: Measure)
    reads m`nbThreads, m`dataSize, m`gone, m.pagesPerTid
    reads m.pagesPerTid[..], set p <- m.pagesPerTid[..] | p != null :: p.data
  {
    m.Shape() && m.PagesSound() && m.AllMapped() && forall p <- m.Rings() :: !p.live
  }

  /** Closing a started measure: stop, drain, report, end. `atEnd` are its rings as the end
      found them; it unmaps them, and empties the whole list. */
  method FinalizeMeasure(s: Sampler, m: Measure, c: Collector, codec: Codec) returns (ghost atEnd: seq<Lane>)
    requires s.Separate() && m in s.measures && m.started != 0 && m.Ready() && c.Idle()
    modifies s`list, s`open, m`started, m`gone, c, c.globalCounters
    modifies m.Rings()`dataTail, m.Rings()`taken, m.Rings()`copied, m.pagesPerTid[..m.nbThreads]`live
    ensures s.Separate() && m.started == 0 && s.list == null
    ensures s.View() == Perform(Perform(old(s.View()), Call.Stop(m)), Call.End(m))
    ensures AllUnmapped(m)
    ensures c.Idle() && atEnd == DrainAll(old(Lanes(m.Rings())))
    ensures c.Totals() ==
            AbsorbAll(codec, old(c.Totals()), ACCESS_WRITE, UnreadAll(old(Lanes(m.Rings())))).(counters := RESET)
  {
    StopAndReportIn(s, m, c, codec);
    atEnd := Lanes(m.Rings());
    EndReady(s, m, c);
  }
}
