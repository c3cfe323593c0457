/** Measures, the list of opened descriptors, and the calls on them, as they update the heap. */
module Sampling {
  import opened Ring
  import opened Collection
  import opened Measures
  import opened Lifecycle
  import opened Wrappers

  /** A node of the list; nodes never change once published. */
  class LinkFdMeasure {
    const next: LinkFdMeasure?
    const fd: int
    const measure: Measure
    ghost const chain: seq<LinkFdMeasure>

    ghost predicate Valid()
      decreases |chain|
    {
      && chain != [] && chain[0] == this
      && (next == null ==> |chain| == 1)
      && (next != null ==> next.chain == chain[1..] && next.Valid())
    }

    constructor (next: LinkFdMeasure?, fd: int, measure: Measure)
      requires next != null ==> next.Valid()
      ensures Valid()
      ensures this.next == next && this.fd == fd && this.measure == measure
    {
      this.next, this.fd, this.measure := next, fd, measure;
      this.chain := [this] + (if next == null then [] else next.chain);
    }
  }

  ghost predicate ValidList(n: LinkFdMeasure?) {
    n != null ==> n.Valid()
  }

  /** The nodes from `n` on, as values. */
  ghost function Entries(n: LinkFdMeasure?): seq<Entry<Measure>>
    requires ValidList(n)
    decreases if n == null then 0 else |n.chain|
  {
    if n == null then [] else [Entry(n.fd, n.measure)] + Entries(n.next)
  }

  class Sampler {
    var list: LinkFdMeasure?
    /** The measures initialised so far, and every descriptor seen from the kernel. */
    ghost var measures: set<Measure>
    ghost var open: set<int>

    ghost predicate Separate()
      reads this, measures
    {
      && ValidList(list)
      && (forall m <- measures :: m.Shape())
      && (forall m, k | m in measures && k in measures && m != k ::
            m.fdPerTid != k.fdPerTid && m.pagesPerTid != k.pagesPerTid)
    }

    ghost function View(): World<Measure>
      requires Separate()
      reads this, measures, set m <- measures :: m.fdPerTid, set m <- measures :: m.pagesPerTid
    {
      World(map m | m in measures :: m.View(), Entries(list), open)
    }

    constructor ()
      ensures Separate() && measures == {} && View() == InitialWorld()
    {
      list := null;
      measures, open := {}, {0, 1, 2};
    }

    /** The overflow handler's search for the measure of a descriptor. */
    method FindMeasure(fd: int) returns (m: Measure?)
      requires Separate()
      ensures m == null <==> Lookup(Entries(list), fd) == None
      ensures m != null ==> Lookup(Entries(list), fd) == Some(m)
    {
      var current := list;
      while current != null && current.fd != fd
        invariant ValidList(current)
        invariant Lookup(Entries(list), fd) == Lookup(Entries(current), fd)
        decreases if current == null then 0 else |current.chain|
      {
        current := current.next;
      }
      if current == null {
        return null;
      }
      return current.measure;
    }

    method Init(m: Measure, threads: nat, dataBytes: nat)
      requires Separate() && m !in measures
      requires threads <= MAX_NB_THREADS == m.fdPerTid.Length == m.pagesPerTid.Length && RingSize(dataBytes)
      requires forall k <- measures :: k.fdPerTid != m.fdPerTid && k.pagesPerTid != m.pagesPerTid
      modifies this`measures, m, m.fdPerTid, m.pagesPerTid
      ensures Separate() && View() == Perform(old(View()), Call.Init(m, threads))
      ensures m.Shape() && m.PagesSound()
      ensures measures == old(measures) + {m}
      ensures m.nbThreads == threads && m.dataSize == dataBytes && m.NonePaged()
    {
      m.Init(threads, dataBytes);
      measures := measures + {m};
      WorldOf(m);
    }

    method Stop(m: Measure) returns (code: int)
      requires Separate() && m in measures
      modifies m`started
      ensures Separate() && View() == Perform(old(View()), Call.Stop(m))
      ensures code == StopMeasure(old(m.View())).1
      ensures old(m.started) == 0 ==> code == -6 && m.started == 0
      ensures old(m.started) != 0 ==> code == 0 && m.started == 0
      ensures m.RingsKept()
    {
      code := m.Stop();
      WorldOf(m);
    }

    method Resume(m: Measure) returns (code: int)
      requires Separate() && m in measures
      modifies m`started
      ensures Separate() && View() == Perform(old(View()), Call.Resume(m))
      ensures code == ResumeMeasure(old(m.View())).1
      ensures old(m.started) != 0 ==> code == -5 && m.started == old(m.started)
      ensures old(m.started) == 0 ==> code == 0 && m.started == 1
      ensures m.RingsKept()
    {
      code := m.Resume();
      WorldOf(m);
    }

    /** Frees every node of the list, whoever owns it. */
    method FreeList()
      requires Separate()
      modifies this`list
      ensures list == null
    {
      while list != null
        invariant ValidList(list)
        decreases if list == null then 0 else |list.chain|
      {
        list := list.next;
      }
    }

    /** Frees the list, unmaps the measure's pages and closes its descriptors. The slots keep
        the addresses and the numbers. */
    method End(m: Measure)
      requires Separate() && m in measures && m.PagesSound()
      modifies this`list, this`open, m`gone, m.pagesPerTid[..m.nbThreads]`live
      ensures Separate() && list == null && View() == Perform(old(View()), Call.End(m))
      ensures m.PagesSound()
      ensures forall t | 0 <= t < m.nbThreads && m.pagesPerTid[t] != null :: !m.pagesPerTid[t].live
      ensures open == old(open) - old(m.Descriptors())
    {
      m.DescriptorsInView();
      FreeList();
      open := open - SlotFds(m.View());
      m.UnmapPages();
      WorldOf(m);
    }

    /** Starts a measure. `answers` are the kernel's answers to the openings this call makes.
        Success leaves every slot with an address, of a new ring unless it had one before. So
        every thread has its ring exactly if none of the kept addresses was dangling. */
    method Start(m: Measure, answers: seq<Answer>) returns (code: int)
      requires Separate() && m in measures && m.PagesSound()
      requires FreshAnswers(answers, open)
      modifies this`list, this`open, m`started, m.fdPerTid, m.pagesPerTid
      ensures Separate() && measures == old(measures)
      ensures View() == Perform(old(View()), Call.Start(m, answers))
      ensures code == StartMeasure(old(m.View()), old(Entries(list)), m, answers).code
      ensures m.PagesSound() && m.RingsOpened()
      ensures code == 0 ==> m.AllMapped() && (m.Ready() <==> old(m.NoneDangling()))
      ensures old(m.started) != 0 ==> code == -5 && m.started == old(m.started)
      ensures old(m.started) == 0 ==> (code == 0 || code == -3) && m.started == 1
    {
      if m.started != 0 {
        code := RefuseStart(m);
      } else {
        code := StartStopped(m, answers);
        if code == 0 {
          m.OpeningMakesReady();
        }
      }
      WorldOf(m);
    }

    /** A measure's first start, right after it is initialised: success leaves it with all its
        rings, where the runs of appends and drains begin. */
    method InitAndStart(m: Measure, threads: nat, dataBytes: nat, answers: seq<Answer>) returns (code: int)
      requires Separate() && m !in measures && FreshAnswers(answers, open)
      requires threads <= MAX_NB_THREADS == m.fdPerTid.Length == m.pagesPerTid.Length && RingSize(dataBytes)
      requires forall k <- measures :: k.fdPerTid != m.fdPerTid && k.pagesPerTid != m.pagesPerTid
      modifies this, m, m.fdPerTid, m.pagesPerTid
      ensures Separate()
      ensures View() == Perform(Perform(old(View()), Call.Init(m, threads)), Call.Start(m, answers))
      ensures code == 0 ==>
                && m.Ready() && m.nbThreads == threads
                && Lanes(m.Rings()) == Collection.Start(EqualSizes(threads, dataBytes)).lanes
    {
      Init(m, threads, dataBytes);
      label Initialised:
      code := Start(m, answers);
      if code == 0 {
        m.FirstStartStartsRuns@Initialised();
      }
    }

    /** A start of a started measure. */
    method RefuseStart(m: Measure) returns (code: int)
      requires Separate() && m in measures && m.PagesSound() && m.started != 0
      modifies this`open
      ensures Separate() && open == old(open) + Fds(Entries(list))
      ensures m.PagesSound() && m.RingsOpened() && m.View() == old(m.View())
      ensures code == -5
    {
      open := open + Fds(Entries(list));
      code := ERROR_NUMAP_ALREADY_STARTED;
    }

    /** A start of a stopped measure. */
    method StartStopped(m: Measure, answers: seq<Answer>) returns (code: int)
      requires Separate() && m in measures && m.PagesSound() && m.started == 0
      modifies this`list, this`open, m`started, m.fdPerTid, m.pagesPerTid
      ensures Separate() && open == old(open) + Fds(Entries(list))
      ensures Opening(m.View(), Entries(list), code) == StartMeasure(old(m.View()), old(Entries(list)), m, answers)
      ensures m.PagesSound() && m.RingsOpened()
      ensures code == 0 ==> m.AllMapped()
      ensures (code == 0 || code == -3) && m.started == 1
    {
      open := open + Fds(StartMeasure(m.View(), Entries(list), m, answers).list);
      m.started := m.started + 1;
      OpensOnlyUnmapped(m.View(), Entries(list), m, 0, answers);
      code := OpenSlots(m, answers);
      if code == 0 {
        AllSlotsMapped(m);
      }
    }

    lemma AllSlotsMapped(m: Measure)
      requires m.Shape() && forall t | 0 <= t < m.nbThreads :: m.View().slots[t].mapped
      ensures m.AllMapped()
    {
      forall t | 0 <= t < m.nbThreads
        ensures m.pagesPerTid[t] != null
      {
        assert m.View().slots[t].mapped;
      }
    }

    /** The world after a call that touched only measure `m`, the list and the descriptors. */
    twostate lemma WorldOf(m: Measure)
      requires old(Separate()) && Separate() && measures == old(measures) + {m}
      requires forall k | k in old(measures) && k != m ::
                 unchanged(k) && unchanged(k.fdPerTid) && unchanged(k.pagesPerTid)
      ensures View() == World(old(View()).measures[m := m.View()], Entries(list), open)
    {
    }

    twostate lemma WorldOfStop(m: Measure)
      requires old(Separate()) && Separate() && measures == old(measures) && m in measures
      requires list == old(list) && open == old(open)
      requires forall k | k in old(measures) && k != m ::
                 unchanged(k) && unchanged(k.fdPerTid) && unchanged(k.pagesPerTid)
      requires m.View() == StopMeasure(old(m.View())).0
      ensures View() == Perform(old(View()), Call.Stop(m))
    {
      WorldOf(m);
    }

    /** A successful opening: the descriptor, its mapping, and a new node in front of the list. */
    method OpenSlot(m: Measure, thread: nat, fd: int)
      requires Separate() && m in measures && thread < m.nbThreads && thread !in m.gone
      modifies this`list, m.fdPerTid, m.pagesPerTid
      ensures Separate()
      ensures m.View() == old(m.View()).(slots := old(m.View()).slots[thread := Slot(fd, true, true)])
      ensures Entries(list) == [Entry(fd, m)] + old(Entries(list))
      ensures NewRing(m.pagesPerTid[thread], m.dataSize)
      ensures m.pagesPerTid[thread].Valid()
      ensures forall t | 0 <= t < m.nbThreads && t != thread :: m.pagesPerTid[t] == old(m.pagesPerTid[t])
    {
      ghost var before := m.View();
      m.fdPerTid[thread] := fd;
      var page := new MetadataPage(m.dataSize);
      m.pagesPerTid[thread] := page;
      assert m.View() == before.(slots := before.slots[thread := Slot(fd, true, true)]);
      list := new LinkFdMeasure(list, fd, m);
    }

    /** A failed opening leaves its mark in the slot. */
    method MarkFailed(m: Measure, thread: nat)
      requires Separate() && m in measures && thread < m.nbThreads && m.pagesPerTid[thread] == null
      modifies m.fdPerTid
      ensures Separate()
      ensures m.View() == old(m.View()).(slots := old(m.View()).slots[thread := Slot(-1, false, false)])
    {
      ghost var before := m.View();
      m.fdPerTid[thread] := -1;
      assert m.View() == before.(slots := before.slots[thread := Slot(-1, false, false)]);
    }

    /** One turn of the loop over the slots: a mapped slot is skipped, any other takes the next
        answer. */
    method OpenThread(m: Measure, thread: nat, answers: seq<Answer>) returns (code: int, rest: seq<Answer>)
      requires Separate() && m in measures && m.PagesSound() && thread < m.nbThreads
      modifies this`list, m.fdPerTid, m.pagesPerTid
      ensures Separate() && m.PagesSound() && m.RingsOpened()
      ensures forall t | 0 <= t < m.nbThreads && t != thread ::
                m.pagesPerTid[t] == old(m.pagesPerTid[t]) && SamePage(m.pagesPerTid[t])
      ensures code == 0 || code == -3
      ensures var o := OpenFrom(old(m.View()), old(Entries(list)), m, thread, answers);
              o == if code == 0 then OpenFrom(m.View(), Entries(list), m, thread + 1, rest)
                   else Opening(m.View(), Entries(list), code)
      ensures code == 0 ==> m.pagesPerTid[thread] != null
    {
      code, rest := 0, answers;
      if m.pagesPerTid[thread] == null {
        if answers == [] || answers[0].Failed? {
          MarkFailed(m, thread);
          code := ERROR_PERF_EVENT_OPEN;
        } else {
          OpenSlot(m, thread, answers[0].fd);
          rest := answers[1..];
        }
      }
    }

    /** The loop over the slots. */
    method OpenSlots(m: Measure, answers: seq<Answer>) returns (code: int)
      requires Separate() && m in measures && m.PagesSound()
      modifies this`list, m.fdPerTid, m.pagesPerTid
      ensures Separate()
      ensures Opening(m.View(), Entries(list), code) == OpenFrom(old(m.View()), old(Entries(list)), m, 0, answers)
      ensures code == 0 || code == -3
      ensures m.PagesSound() && m.RingsOpened()
    {
      ghost var o := OpenFrom(m.View(), Entries(list), m, 0, answers);
      var rest := answers;
      for thread := 0 to m.nbThreads
        invariant Separate() && m.PagesSound() && m.RingsOpened()
        invariant o == OpenFrom(m.View(), Entries(list), m, thread, rest)
        invariant forall t | thread <= t < m.nbThreads :: m.pagesPerTid[t] == old(m.pagesPerTid[t])
      {
        code, rest := OpenThread(m, thread, rest);
        if code != 0 {
          return;
        }
      }
      return 0;
    }
  }
}
