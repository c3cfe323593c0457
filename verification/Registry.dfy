/** The table of registered threads: it doubles when full and is searched by thread id. */
module Registry {
  import opened Arithmetic
  import opened Measures
  import opened Wrappers

  /** An entry of the table; `file` tells whether the thread's output file could be opened. */
  datatype ThreadInfo = ThreadInfo(tid: int, rank: nat, sm: Measure, smWr: Measure, file: bool)

  /** What one registration asks for. */
  datatype Request = Request(tid: int, sm: Measure, smWr: Measure, file: bool)

  const FIRST_CAPACITY: nat := 128

  /** The capacity after n registrations. */
  function Capacity(n: nat): nat {
    if n == 0 then 0
    else if n == 1 then FIRST_CAPACITY
    else if n - 1 >= Capacity(n - 1) then 2 * Capacity(n - 1)
    else Capacity(n - 1)
  }

  /** The slots moved by growing the table, over n registrations. */
  function Moved(n: nat): nat {
    if n <= 1 then 0
    else Moved(n - 1) + (if n - 1 >= Capacity(n - 1) then Capacity(n - 1) else 0)
  }

  /** The capacity is 128 doubled some number of times, holds every entry, and beyond 128 is
      less than twice their number. */
  lemma {:induction false} CapacityIsTight(n: nat) returns (j: nat)
    requires n > 0
    ensures Capacity(n) == 128 * Pow2(j)
    ensures n <= Capacity(n)
    ensures Capacity(n) > 128 ==> Capacity(n) < 2 * n
  {
    if n == 1 {
      j := 0;
    } else {
      j := CapacityIsTight(n - 1);
      if n - 1 >= Capacity(n - 1) {
        j := j + 1;
      }
    }
  }

  /** Growth is amortised: all moves together touch fewer than two slots per registration. */
  lemma {:induction false} MovesAreAmortised(n: nat)
    requires n > 0
    ensures Moved(n) == Capacity(n) - 128
    ensures Moved(n) < 2 * n
  {
    var j := CapacityIsTight(n);
    if n > 1 {
      MovesAreAmortised(n - 1);
      var i := CapacityIsTight(n - 1);
    }
  }

  /** The first request with a thread id. */
  function FirstWithTid(log: seq<Request>, tid: int): Option<nat> {
    if log == [] then None
    else if log[0].tid == tid then Some(0)
    else
      match FirstWithTid(log[1..], tid)
      case None => None
      case Some(i) => Some(i + 1)
  }

  lemma {:induction false} FirstIsFirst(log: seq<Request>, tid: int)
    ensures match FirstWithTid(log, tid)
            case None => forall i | 0 <= i < |log| :: log[i].tid != tid
            case Some(k) => k < |log| && log[k].tid == tid && forall i | 0 <= i < k :: log[i].tid != tid
  {
    if log != [] && log[0].tid != tid {
      FirstIsFirst(log[1..], tid);
      assert forall i | 0 < i < |log| :: log[i] == log[1..][i - 1];
    }
  }

  /** Later registrations never change what an id resolves to. */
  lemma {:induction false} LookupIsStable(log: seq<Request>, more: seq<Request>, tid: int)
    ensures FirstWithTid(log, tid).Some? ==> FirstWithTid(log + more, tid) == FirstWithTid(log, tid)
    ensures FirstWithTid(log, tid).None? ==>
              FirstWithTid(log + more, tid) ==
              match FirstWithTid(more, tid)
              case None => None
              case Some(i) => Some(|log| + i)
  {
    if log == [] {
      assert log + more == more;
    } else {
      assert (log + more)[1..] == log[1..] + more;
      LookupIsStable(log[1..], more, tid);
    }
  }

  /** What the i-th request leaves in the table. */
  function EntryFor(r: Request, i: nat): ThreadInfo {
    ThreadInfo(r.tid, i, r.sm, r.smWr, r.file)
  }

  /** Field by field, what an entry holds of the request it was made for. */
  ghost predicate Holds(e: Option<ThreadInfo>, r: Request, i: nat) {
    && e.Some?
    && e.value.tid == r.tid && e.value.rank == i
    && e.value.sm == r.sm && e.value.smWr == r.smWr
    && e.value.file == r.file
  }

  class ThreadTable {
    var allocatedThreads: nat
    var nthreads: nat
    var rank: nat
    /** Memory that was never written is None. */
    var entries: array<Option<ThreadInfo>>
    ghost var log: seq<Request>
    ghost var moved: nat

    ghost predicate Valid()
      reads this, entries
    {
      && nthreads == |log|
      && allocatedThreads == entries.Length == Capacity(nthreads)
      && moved == Moved(nthreads)
      && nthreads <= allocatedThreads
      && (nthreads > 0 ==> rank == nthreads - 1)
      && forall i | 0 <= i < nthreads :: entries[i] == Some(EntryFor(log[i], i))
    }

    /** Every entry holds the request it was made for, and its place. */
    lemma EntriesHold()
      requires Valid()
      ensures nthreads == |log| <= entries.Length
      ensures forall i | 0 <= i < nthreads :: Holds(entries[i], log[i], i)
    {
    }

    constructor ()
      ensures Valid() && log == [] && fresh(entries)
    {
      allocatedThreads, nthreads, rank := 0, 0, 0;
      entries := new Option<ThreadInfo>[0];
      log, moved := [], 0;
    }

    /** Moves the table into a larger block. */
    method Realloc(size: nat)
      requires entries.Length <= size
      modifies this`entries, this`moved
      ensures fresh(entries) && entries.Length == size
      ensures entries[..old(entries.Length)] == old(entries[..])
      ensures moved == old(moved + entries.Length)
    {
      var temp := new Option<ThreadInfo>[size](_ => None);
      forall i | 0 <= i < entries.Length {
        temp[i] := entries[i];
      }
      moved := moved + entries.Length;
      entries := temp;
    }

    /** Makes room for one more entry: the first block, or doublings of the block. */
    method EnsureRoom()
      requires Valid()
      modifies this`allocatedThreads, this`entries, this`moved
      ensures nthreads < allocatedThreads == entries.Length == Capacity(nthreads + 1)
      ensures moved == Moved(nthreads + 1)
      ensures entries[..nthreads] == old(entries[..nthreads])
      ensures entries == old(entries) || fresh(entries)
    {
      if nthreads > 0 {
        ghost var j := CapacityIsTight(nthreads);
      }
      if allocatedThreads == 0 {
        allocatedThreads := FIRST_CAPACITY;
        entries := new Option<ThreadInfo>[allocatedThreads](_ => None);
      }
      while nthreads >= allocatedThreads
        invariant 0 < allocatedThreads == entries.Length
        invariant nthreads <= entries.Length && entries[..nthreads] == old(entries[..nthreads])
        invariant entries == old(entries) || fresh(entries)
        invariant nthreads < allocatedThreads ==>
                    allocatedThreads == Capacity(nthreads + 1) && moved == Moved(nthreads + 1)
        invariant nthreads >= allocatedThreads ==>
                    allocatedThreads == Capacity(nthreads) && moved == Moved(nthreads)
        decreases nthreads + 1 - allocatedThreads
      {
        allocatedThreads := allocatedThreads * 2;
        Realloc(allocatedThreads);
      }
    }

    /** Registers a thread under the next rank. When its file cannot be opened the entry stays,
        without a file. */
    method Register(r: Request)
      requires Valid()
      modifies this, entries
      ensures Valid() && log == old(log) + [r] && rank == old(nthreads)
      ensures nthreads == old(nthreads) + 1 <= entries.Length
      ensures var e := entries[old(nthreads)];
              && e.Some? && e.value.tid == r.tid && e.value.rank == old(nthreads)
              && e.value.sm == r.sm && e.value.smWr == r.smWr && e.value.file == r.file
      ensures forall i | 0 <= i < old(nthreads) :: entries[i] == old(entries[i])
      ensures entries == old(entries) || fresh(entries)
    {
      ghost var before := entries[..nthreads];
      assert forall i | 0 <= i < nthreads :: before[i] == Some(EntryFor(log[i], i));
      EnsureRoom();
      rank := nthreads;
      nthreads := nthreads + 1;
      entries[rank] := Some(ThreadInfo(r.tid, rank, r.sm, r.smWr, r.file));
      log := log + [r];
      assert entries[..nthreads - 1] == before;
      assert forall i | 0 <= i < nthreads - 1 :: entries[i] == before[i];
    }

    /** The first entry with a thread id, as an index. */
    method GetThreadInfo(tid: int) returns (found: Option<nat>)
      requires Valid()
      ensures found == FirstWithTid(log, tid)
      ensures found.Some? ==>
                && found.value < nthreads
                && entries[found.value] == Some(EntryFor(log[found.value], found.value))
                && Holds(entries[found.value], log[found.value], found.value)
                && entries[found.value].value.tid == tid
    {
      FirstIsFirst(log, tid);
      for i := 0 to nthreads
        invariant FirstWithTid(log, tid) == match FirstWithTid(log[i..], tid)
                                            case None => None
                                            case Some(k) => Some(i + k)
      {
        assert log[i..][1..] == log[i + 1..];
        if entries[i].value.tid == tid {
          return Some(i);
        }
      }
      return None;
    }
  }
}
