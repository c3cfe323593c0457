/** The mapped rings and the measures that own them, as they lie in memory. */
module Measures {
  import opened PerfRecords
  import opened Ring
  import opened Collection
  import opened Lifecycle

  /** A mapped ring: the metadata page's head and tail and the data area behind it. The ghost
      fields record whether it is still mapped, and its history. An unmapped page is not valid:
      nobody may read it. */
  class MetadataPage {
    ghost var live: bool
    const data: array<Byte>
    var dataHead: nat
    var dataTail: nat
    ghost var log: seq<seq<Byte>>
    ghost var taken: nat
    ghost var copied: seq<Byte>

    ghost function State(): RingState
      reads this, data
    {
      RingState(data[..], dataHead, dataTail)
    }

    ghost function History(): Lane
      reads this, data
    {
      Lane(State(), log, taken, copied)
    }

    ghost predicate Valid()
      reads this, data
    {
      live && Consistent(History())
    }

    constructor (size: nat)
      requires RingSize(size)
      ensures Valid() && fresh(data) && History() == Fresh(size)
    {
      live := true;
      data := new Byte[size](_ => 0);
      dataHead, dataTail := 0, 0;
      log, taken, copied := [], 0, [];
      new;
      assert data[..] == seq(size, _ => 0);
      assert log[..0] == [];
    }

    method Unmap()
      modifies this`live
      ensures !live
    {
      live := false;
    }

    /** Writes bytes at the head, around the end of the ring if need be. */
    method WriteBytes(bytes: seq<Byte>)
      requires data.Length > 0
      modifies data
      ensures data[..] == Put(old(data[..]), dataHead, bytes)
    {
      ghost var before := data[..];
      for i := 0 to |bytes|
        invariant data[..] == Put(before, dataHead, bytes[..i])
      {
        PutNext(before, dataHead, bytes, i);
        data[(dataHead + i) % data.Length] := bytes[i];
      }
      assert bytes[..|bytes|] == bytes;
    }

    /** The kernel writes a record at the head and then advances the head. */
    method KernelAppend(rec: seq<Byte>)
      requires Valid() && IsRecord(rec) && Fits(History(), rec)
      modifies this`dataHead, this`log, data
      ensures Valid() && History() == LaneAppend(old(History()), rec)
    {
      AppendKeepsConsistent(History(), rec);
      WriteBytes(rec);
      dataHead := dataHead + |rec|;
      log := log + [rec];
    }
  }

  /** The rings of some pages, in order. */
  ghost function Lanes(pages: seq<MetadataPage>): (ls: seq<Lane>)
    reads pages, set p <- pages :: p.data
    ensures |ls| == |pages|
  {
    if pages == [] then [] else Lanes(pages[..|pages| - 1]) + [pages[|pages| - 1].History()]
  }

  lemma {:induction false} LanesAt(pages: seq<MetadataPage>, t: nat)
    requires t < |pages|
    ensures Lanes(pages)[t] == pages[t].History()
  {
    if t < |pages| - 1 {
      LanesAt(pages[..|pages| - 1], t);
    }
  }

  /** Lanes are read off the pages and nothing else. */
  lemma LanesAre(pages: seq<MetadataPage>, ls: seq<Lane>)
    requires |ls| == |pages| && forall t | 0 <= t < |pages| :: pages[t].History() == ls[t]
    ensures Lanes(pages) == ls
  {
    forall t | 0 <= t < |pages|
      ensures Lanes(pages)[t] == ls[t]
    {
      LanesAt(pages, t);
    }
  }

  ghost predicate Distinct(pages: seq<MetadataPage>) {
    forall t, u | 0 <= t < u < |pages| :: pages[t] != pages[u] && pages[t].data != pages[u].data
  }

  /** The rings of a measure: distinct pages over distinct memory, each mapped and consistent. */
  ghost predicate Mapped(pages: seq<MetadataPage>)
    reads pages, set p <- pages :: p.data
  {
    Distinct(pages) && (forall p <- pages :: p.live) && AllConsistent(Lanes(pages))
  }

  /** A ring that did not exist before and holds nothing. */
  twostate predicate NewRing(new page: MetadataPage?, size: nat)
    reads page, if page == null then {} else {page.data}
  {
    page != null && fresh(page) && fresh(page.data) && page.live && page.History() == Fresh(size)
  }

  const MAX_NB_THREADS: nat := 24

  /** A page whose ring is as it was. */
  twostate predicate SamePage(page: MetadataPage?)
    reads page, if page == null then {} else {page.data}
  {
    page != null ==> page.History() == old(page.History())
  }

  /** The slots as values; `gone` are those whose page has been unmapped. */
  ghost function SlotsOf(fds: seq<int>, pages: seq<MetadataPage?>, gone: set<nat>): seq<Slot>
    requires |fds| == |pages|
  {
    seq(|fds|, t requires 0 <= t < |fds| => Slot(fds[t], pages[t] != null, pages[t] != null && t !in gone))
  }

  /** A measurement: per-thread descriptors and mapped rings. */
  class Measure {
    var nbThreads: nat
    var dataSize: nat
    var started: int
    const fdPerTid: array<int>
    const pagesPerTid: array<MetadataPage?>
    /** The slots that hold the address of a page that has been unmapped. */
    ghost var gone: set<nat>

    ghost predicate Shape()
      reads this`nbThreads, this`dataSize
    {
      nbThreads <= MAX_NB_THREADS == fdPerTid.Length == pagesPerTid.Length && RingSize(dataSize)
    }

    ghost function View(): Slots
      requires Shape()
      reads this, fdPerTid, pagesPerTid
    {
      Slots(started, SlotsOf(fdPerTid[..nbThreads], pagesPerTid[..nbThreads], gone))
    }

    /** The numbers in the descriptor slots. */
    ghost function Descriptors(): set<int>
      requires Shape()
      reads this`nbThreads, this`dataSize, fdPerTid
    {
      set t | 0 <= t < nbThreads :: fdPerTid[t]
    }

    lemma DescriptorsInView()
      requires Shape()
      ensures SlotFds(View()) == Descriptors()
    {
      var slots := View().slots;
      assert forall t | 0 <= t < nbThreads :: slots[t] in slots && slots[t].fd == fdPerTid[t];
    }

    ghost predicate AllMapped()
      requires Shape()
      reads this`nbThreads, this`dataSize, pagesPerTid
    {
      forall t | 0 <= t < nbThreads :: pagesPerTid[t] != null
    }

    /** The rings, once every slot is mapped. */
    ghost function Rings(): seq<MetadataPage>
      requires Shape() && AllMapped()
      reads this`nbThreads, this`dataSize, pagesPerTid
    {
      pagesPerTid[..nbThreads]
    }

    /** No slot holds an address. */
    ghost predicate NonePaged()
      requires Shape()
      reads this`nbThreads, this`dataSize, pagesPerTid
    {
      forall t | 0 <= t < nbThreads :: pagesPerTid[t] == null
    }

    /** No slot holds the address of a page that has been unmapped. */
    ghost predicate NoneDangling()
      requires Shape()
      reads this`nbThreads, this`dataSize, pagesPerTid, pagesPerTid[..]
    {
      forall t | 0 <= t < nbThreads && pagesPerTid[t] != null :: pagesPerTid[t].live
    }

    /** Pages not gone are mapped, those mapped are valid, and no two slots share a page or
        its memory. */
    ghost predicate PagesSound()
      requires Shape()
      reads this`nbThreads, this`dataSize, this`gone, pagesPerTid
      reads pagesPerTid[..], set p <- pagesPerTid[..] | p != null :: p.data
    {
      && (forall t | 0 <= t < nbThreads :: t in gone <==> (pagesPerTid[t] != null && !pagesPerTid[t].live))
      && (forall t | 0 <= t < nbThreads && pagesPerTid[t] != null && pagesPerTid[t].live :: pagesPerTid[t].Valid())
      && (forall t, u | 0 <= t < u < nbThreads && pagesPerTid[t] != null && pagesPerTid[u] != null ::
            pagesPerTid[t] != pagesPerTid[u] && pagesPerTid[t].data != pagesPerTid[u].data)
    }

    /** Every thread has its ring: what a drain of the measure needs. */
    ghost predicate Ready()
      reads this`nbThreads, this`dataSize, this`gone, pagesPerTid
      reads pagesPerTid[..], set p <- pagesPerTid[..] | p != null :: p.data
    {
      Shape() && AllMapped() && (forall t | 0 <= t < nbThreads :: t !in gone) && Mapped(Rings())
    }

    /** Each slot kept its page or, having had none, may have got a fresh empty ring. */
    twostate predicate RingsOpened()
      requires Shape()
      reads this`nbThreads, this`dataSize, pagesPerTid
      reads pagesPerTid[..], set p <- pagesPerTid[..] | p != null :: p.data
    {
      forall t | 0 <= t < nbThreads ::
        pagesPerTid[t] == old(pagesPerTid[t]) ||
        (old(pagesPerTid[t]) == null && NewRing(pagesPerTid[t], dataSize))
    }

    /** What touches nothing but the started mark. */
    twostate predicate RingsKept()
      reads this`nbThreads, this`dataSize, this`gone, pagesPerTid
      reads pagesPerTid[..], set p <- pagesPerTid[..] | p != null :: p.data
    {
      old(Ready()) ==> Ready() && Rings() == old(Rings()) && Lanes(Rings()) == old(Lanes(Rings()))
    }

    /** A measure with a page in every slot is ready exactly if none has been unmapped. */
    lemma SoundIsReady()
      requires Shape() && AllMapped() && PagesSound()
      ensures Ready() <==> NoneDangling()
    {
      if NoneDangling() {
        forall t | 0 <= t < nbThreads
          ensures Consistent(Lanes(Rings())[t])
        {
          LanesAt(Rings(), t);
          assert pagesPerTid[t].Valid();
        }
      } else {
        var t :| 0 <= t < nbThreads && !pagesPerTid[t].live;
        assert Rings()[t] == pagesPerTid[t];
      }
    }

    lemma ReadyIsSound()
      requires Ready()
      ensures PagesSound()
    {
      forall t | 0 <= t < nbThreads
        ensures pagesPerTid[t].live && pagesPerTid[t].Valid()
      {
        LanesAt(Rings(), t);
        assert Rings()[t].live;
      }
      assert Distinct(Rings());
    }

    /** A measure is ready exactly if all its slots are live. */
    lemma ReadyIsAllLive()
      requires Shape() && PagesSound()
      ensures Ready() <==> AllLive(View())
    {
      if AllLive(View()) {
        forall t | 0 <= t < nbThreads
          ensures pagesPerTid[t] != null && pagesPerTid[t].live
        {
          assert View().slots[t].live;
        }
        SoundIsReady();
      } else if AllMapped() {
        var t: nat :| t < nbThreads && !View().slots[t].live;
        assert t in gone;
      }
    }

    /** Opening every slot that held no page makes a measure ready exactly if none of the slots
        it skipped was dangling. */
    twostate lemma OpeningMakesReady()
      requires old(Shape()) && Shape() && nbThreads == old(nbThreads)
      requires AllMapped() && PagesSound() && RingsOpened()
      requires forall t | 0 <= t < nbThreads && old(pagesPerTid[t]) != null ::
                 old(pagesPerTid[t]).live == old(pagesPerTid[t].live)
      ensures Ready() <==> old(NoneDangling())
    {
      SoundIsReady();
    }

    /** If each of its rings is new, a measure starts where runs of the collection start. */
    lemma NewRingsStartRuns()
      requires Ready() && forall t | 0 <= t < nbThreads :: pagesPerTid[t].History() == Fresh(dataSize)
      ensures Lanes(Rings()) == Collection.Start(EqualSizes(nbThreads, dataSize)).lanes
    {
      LanesAre(Rings(), Collection.Start(EqualSizes(nbThreads, dataSize)).lanes);
    }

    /** So does a measure that had no page before it was opened. */
    twostate lemma FirstStartStartsRuns()
      requires Ready() && RingsOpened()
      requires old(Shape()) && old(NonePaged()) && nbThreads == old(nbThreads)
      ensures Lanes(Rings()) == Collection.Start(EqualSizes(nbThreads, dataSize)).lanes
    {
      NewRingsStartRuns();
    }

    /** Unmaps the pages; the slots keep their addresses. */
    method UnmapPages()
      requires Shape() && PagesSound()
      modifies this`gone, pagesPerTid[..nbThreads]`live
      ensures Shape() && PagesSound() && View() == Unmapped(old(View()))
      ensures forall t | 0 <= t < nbThreads && pagesPerTid[t] != null :: !pagesPerTid[t].live
    {
      for thread := 0 to nbThreads
        invariant forall t | 0 <= t < thread && pagesPerTid[t] != null :: !pagesPerTid[t].live
      {
        if pagesPerTid[thread] != null {
          pagesPerTid[thread].Unmap();
        }
      }
      gone := set t | 0 <= t < nbThreads && pagesPerTid[t] != null;
    }

    constructor ()
      ensures fresh(fdPerTid) && fresh(pagesPerTid)
      ensures fdPerTid.Length == pagesPerTid.Length == MAX_NB_THREADS == 24
    {
      nbThreads, dataSize, started, gone := 0, 0, 0, {};
      fdPerTid := new int[MAX_NB_THREADS](_ => 0);
      pagesPerTid := new MetadataPage?[MAX_NB_THREADS](_ => null);
    }

    /** Prepares the slots. `dataBytes` is the mapping's length without its metadata page. */
    method Init(threads: nat, dataBytes: nat)
      requires threads <= MAX_NB_THREADS == fdPerTid.Length == pagesPerTid.Length && RingSize(dataBytes)
      modifies this, fdPerTid, pagesPerTid
      ensures Shape() && View() == InitMeasure(threads) && PagesSound()
      ensures nbThreads == threads && dataSize == dataBytes && NonePaged() && started == 0
      ensures forall t | 0 <= t < threads :: fdPerTid[t] == 0
    {
      started := 0;
      dataSize := dataBytes;
      nbThreads, gone := threads, {};
      for thread := 0 to nbThreads
        invariant started == 0 && nbThreads == threads && dataSize == dataBytes && gone == {}
        invariant forall t | 0 <= t < thread :: fdPerTid[t] == 0 && pagesPerTid[t] == null
      {
        fdPerTid[thread] := 0;
        pagesPerTid[thread] := null;
      }
    }

    /** Stops sampling, unless it is already stopped. */
    method Stop() returns (code: int)
      requires Shape()
      modifies this`started
      ensures Shape() && (View(), code) == StopMeasure(old(View()))
      ensures old(started) == 0 ==> code == -6 && started == 0
      ensures old(started) != 0 ==> code == 0 && started == 0
      ensures RingsKept()
    {
      if started == 0 {
        return ERROR_NUMAP_STOP_BEFORE_START;
      }
      started := 0;
      return 0;
    }

    method Resume() returns (code: int)
      requires Shape()
      modifies this`started
      ensures Shape() && (View(), code) == ResumeMeasure(old(View()))
      ensures old(started) != 0 ==> code == -5 && started == old(started)
      ensures old(started) == 0 ==> code == 0 && started == 1
      ensures RingsKept()
    {
      if started != 0 {
        return ERROR_NUMAP_ALREADY_STARTED;
      }
      started := started + 1;
      return 0;
    }
  }
}
