/** Thread creation and start-up as interleaved atomic steps on the shared counters and on the
    status slots of the created threads. */
module ThreadRanks {
  import opened Wrappers

  const MAX_THREADS: nat := 1024

  datatype Status = StatusNone | StatusCreated | StatusFinalized

  /** A slot index, or none for the thread that loaded the library. */
  datatype SlotOf = NoSlot | InSlot(slot: nat)

  /** How far a thread has come: its start routine is about to run; it has taken its profiling
      rank; it is in the table; its slot says created; its slot says finalized. */
  datatype Phase = Spawned | Ranked | Registered | Running | Finished

  /** `rank` is what the thread took from the counter of profiling ranks, `entry` the index it
      was given in the table. */
  datatype Thread = Thread(slot: SlotOf, phase: Phase, rank: Option<nat>, entry: Option<nat>)

  /** `nbThreads` and `nextRank` are the two fetch-and-add counters, `nthreads` the number of
      table entries; `reserved` holds the ranks taken by creations not yet under way. The array
      of slots has a fixed length that nothing checks: `outside` holds the indices past its end
      that have been written. */
  datatype State = State(
    nbThreads: nat, nextRank: nat, nthreads: nat,
    status: seq<Status>, threads: seq<Thread>, reserved: set<nat>, outside: set<nat>)

  /** The atomic steps. A creation takes a rank, then the real creation succeeds or fails; the
      new thread takes its profiling rank, registers, marks its slot, runs, and marks it again. */
  datatype Action =
    | Reserve
    | Create(rank: nat, succeeds: bool)
    | TakeRank(thread: nat)
    | Register(thread: nat)
    | MarkCreated(thread: nat)
    | MarkFinalized(thread: nat)

  function NewThread(slot: SlotOf): Thread {
    Thread(slot, Spawned, None, None)
  }

  function Initial(): State {
    State(0, 0, 0, seq(MAX_THREADS, _ => StatusNone), [NewThread(NoSlot)], {}, {})
  }

  predicate Enabled(s: State, a: Action) {
    match a
    case Reserve => true
    case Create(r, _) => r in s.reserved
    case TakeRank(t) => t < |s.threads| && s.threads[t].phase == Spawned
    case Register(t) => t < |s.threads| && s.threads[t].phase == Ranked
    case MarkCreated(t) => t < |s.threads| && s.threads[t].phase == Registered && s.threads[t].slot.InSlot?
    case MarkFinalized(t) => t < |s.threads| && s.threads[t].phase == Running
  }

  /** The thread after its next step. */
  function Advanced(s: State, t: nat, p: Phase): (th: Thread)
    requires t < |s.threads|
    ensures th.slot == s.threads[t].slot && th.phase == p
  {
    var th := s.threads[t].(phase := p);
    match p
    case Ranked => th.(rank := Some(s.nextRank))
    case Registered => th.(entry := Some(s.nthreads))
    case _ => th
  }

  function Advance(s: State, t: nat, p: Phase): (ts: seq<Thread>)
    requires t < |s.threads|
    ensures |ts| == |s.threads|
  {
    s.threads[t := Advanced(s, t, p)]
  }

  function Mark(s: State, t: nat, v: Status): (r: seq<Status>)
    requires t < |s.threads|
    ensures |r| == |s.status|
  {
    if s.threads[t].slot.InSlot? && s.threads[t].slot.slot < |s.status|
    then s.status[s.threads[t].slot.slot := v] else s.status
  }

  /** A write to the slot of that index. The real creation writes the thread's id there, whether
      it succeeds or not; the marks write the status. */
  function Written(s: State, slot: nat): set<nat> {
    if slot < MAX_THREADS then s.outside else s.outside + {slot}
  }

  function MarkWritten(s: State, t: nat): set<nat>
    requires t < |s.threads|
  {
    if s.threads[t].slot.InSlot? then Written(s, s.threads[t].slot.slot) else s.outside
  }

  function Apply(s: State, a: Action): State
    requires Enabled(s, a)
  {
    match a
    case Reserve => s.(nbThreads := s.nbThreads + 1, reserved := s.reserved + {s.nbThreads})
    case Create(r, ok) =>
      s.(reserved := s.reserved - {r},
         outside := Written(s, r),
         threads := if ok then s.threads + [NewThread(InSlot(r))] else s.threads)
    case TakeRank(t) => s.(nextRank := s.nextRank + 1, threads := Advance(s, t, Ranked))
    case Register(t) => s.(nthreads := s.nthreads + 1, threads := Advance(s, t, Registered))
    case MarkCreated(t) =>
      s.(status := Mark(s, t, StatusCreated), outside := MarkWritten(s, t), threads := Advance(s, t, Running))
    case MarkFinalized(t) =>
      s.(status := Mark(s, t, StatusFinalized), outside := MarkWritten(s, t), threads := Advance(s, t, Finished))
  }

  function Order(p: Phase): nat {
    match p
    case Spawned => 0
    case Ranked => 1
    case Registered => 2
    case Running => 3
    case Finished => 4
  }

  /** How many threads have come at least so far. */
  function Reached(ts: seq<Thread>, n: nat): nat {
    if ts == [] then 0
    else Reached(ts[..|ts| - 1], n) + (if Order(ts[|ts| - 1].phase) >= n then 1 else 0)
  }

  /** What a slot says about the thread in it. */
  function StatusFor(p: Phase): Status {
    match p
    case Running => StatusCreated
    case Finished => StatusFinalized
    case _ => StatusNone
  }

  /** No two threads, and no thread and pending creation, have the same rank. */
  ghost predicate SlotsDistinct(s: State) {
    && (forall r <- s.reserved :: r < s.nbThreads)
    && (forall t | 0 <= t < |s.threads| && s.threads[t].slot.InSlot? ::
          s.threads[t].slot.slot < s.nbThreads && s.threads[t].slot.slot !in s.reserved)
    && (forall t, u | 0 <= t < u < |s.threads| && s.threads[t].slot.InSlot? :: s.threads[t].slot != s.threads[u].slot)
  }

  /** Each slot's status is that of the one thread in it; a slot without a thread says none. */
  ghost predicate StatusesRight(s: State) {
    && |s.status| == MAX_THREADS
    && (forall t | 0 <= t < |s.threads| && s.threads[t].slot.InSlot? && s.threads[t].slot.slot < MAX_THREADS ::
          s.status[s.threads[t].slot.slot] == StatusFor(s.threads[t].phase))
    && (forall r | 0 <= r < MAX_THREADS && (forall t | 0 <= t < |s.threads| :: s.threads[t].slot != InSlot(r)) ::
          s.status[r] == StatusNone)
  }

  ghost predicate CountsRight(s: State) {
    && s.nextRank == Reached(s.threads, 1)
    && s.nthreads == Reached(s.threads, 2)
    && 1 <= |s.threads| && |s.threads| + |s.reserved| <= s.nbThreads + 1
    && s.threads[0].slot == NoSlot && Order(s.threads[0].phase) <= 2
    && (forall t | 1 <= t < |s.threads| :: s.threads[t].slot.InSlot?)
  }

  /** Profiling ranks and table entries: who has one, below which counter, and no two alike. */
  ghost predicate RanksRight(s: State) {
    && (forall t | 0 <= t < |s.threads| ::
          && (s.threads[t].rank.Some? <==> Order(s.threads[t].phase) >= 1)
          && (s.threads[t].entry.Some? <==> Order(s.threads[t].phase) >= 2)
          && (s.threads[t].rank.Some? ==> s.threads[t].rank.value < s.nextRank)
          && (s.threads[t].entry.Some? ==> s.threads[t].entry.value < s.nthreads))
    && (forall t, u | 0 <= t < u < |s.threads| ::
          && (s.threads[t].rank.Some? ==> s.threads[t].rank != s.threads[u].rank)
          && (s.threads[t].entry.Some? ==> s.threads[t].entry != s.threads[u].entry))
  }

  ghost predicate Inv(s: State) {
    SlotsDistinct(s) && StatusesRight(s) && CountsRight(s) && RanksRight(s)
  }

  lemma {:induction false} ReachedAdvance(ts: seq<Thread>, t: nat, th: Thread, n: nat)
    requires t < |ts|
    ensures Reached(ts[t := th], n) ==
            Reached(ts, n) - (if Order(ts[t].phase) >= n then 1 else 0) + (if Order(th.phase) >= n then 1 else 0)
  {
    var k := |ts| - 1;
    if t == k {
      assert ts[t := th][..k] == ts[..k];
    } else {
      ReachedAdvance(ts[..k], t, th, n);
      assert ts[t := th][..k] == ts[..k][t := th];
    }
  }

  lemma {:induction false} ReachedBounds(ts: seq<Thread>, n: nat)
    ensures Reached(ts, n + 1) <= Reached(ts, n) <= |ts|
  {
    if ts != [] {
      ReachedBounds(ts[..|ts| - 1], n);
    }
  }

  lemma InitialInv()
    ensures Inv(Initial())
  {
    var ts := Initial().threads;
    assert ts[..0] == [];
    assert Reached(ts, 1) == 0 && Reached(ts, 2) == 0;
  }

  lemma ReserveKeeps(s: State)
    requires Inv(s) && Enabled(s, Reserve)
    ensures Inv(Apply(s, Reserve))
  {
    var s' := Apply(s, Reserve);
    assert s.nbThreads !in s.reserved;
    assert StatusesRight(s');
  }

  lemma CreateKeeps(s: State, r: nat, ok: bool)
    requires Inv(s) && Enabled(s, Create(r, ok))
    ensures Inv(Apply(s, Create(r, ok)))
  {
    if ok {
      CreateKeepsStatuses(s, r);
      CreateKeepsSlots(s, r);
      CreateKeepsRanks(s, r);
      assert Apply(s, Create(r, true)).threads[..|s.threads|] == s.threads;
    } else {
      CreateFails(s, r);
    }
  }

  lemma CreateKeepsSlots(s: State, r: nat)
    requires SlotsDistinct(s) && r in s.reserved
    ensures SlotsDistinct(Apply(s, Create(r, true)))
  {
  }

  lemma CreateKeepsRanks(s: State, r: nat)
    requires RanksRight(s) && r in s.reserved
    ensures RanksRight(Apply(s, Create(r, true)))
  {
  }

  lemma CreateFails(s: State, r: nat)
    requires Inv(s) && r in s.reserved
    ensures Inv(Apply(s, Create(r, false)))
  {
    assert StatusesRight(Apply(s, Create(r, false)));
  }

  lemma CreateKeepsStatuses(s: State, r: nat)
    requires SlotsDistinct(s) && StatusesRight(s) && r in s.reserved
    ensures StatusesRight(Apply(s, Create(r, true)))
  {
    var s' := Apply(s, Create(r, true));
    var k := |s.threads|;
    forall t | 0 <= t < |s'.threads| && s'.threads[t].slot.InSlot? && s'.threads[t].slot.slot < MAX_THREADS
      ensures s'.status[s'.threads[t].slot.slot] == StatusFor(s'.threads[t].phase)
    {
      if t == k {
        assert forall u | 0 <= u < |s.threads| :: s.threads[u].slot != InSlot(r);
      }
    }
    forall q | 0 <= q < MAX_THREADS && (forall t | 0 <= t < |s'.threads| :: s'.threads[t].slot != InSlot(q))
      ensures s'.status[q] == StatusNone
    {
      assert forall t | 0 <= t < |s.threads| :: s.threads[t] == s'.threads[t];
    }
  }

  lemma AdvanceKeepsStatuses(s: State, t: nat, p: Phase, s': State)
    requires SlotsDistinct(s) && StatusesRight(s) && t < |s.threads|
    requires Order(p) == Order(s.threads[t].phase) + 1
    requires Order(p) >= 3 ==> s.threads[t].slot.InSlot?
    requires s'.threads == Advance(s, t, p) && s'.nbThreads == s.nbThreads
    requires s'.status == if Order(p) >= 3 then Mark(s, t, StatusFor(p)) else s.status
    ensures StatusesRight(s')
  {
    assert forall u | 0 <= u < |s.threads| :: s'.threads[u].slot == s.threads[u].slot;
    forall u | 0 <= u < |s'.threads| && s'.threads[u].slot.InSlot? && s'.threads[u].slot.slot < MAX_THREADS
      ensures s'.status[s'.threads[u].slot.slot] == StatusFor(s'.threads[u].phase)
    {
      if u < t {
        assert s.threads[u].slot != s.threads[t].slot;
      } else if t < u && s.threads[t].slot.InSlot? {
        assert s.threads[t].slot != s.threads[u].slot;
      }
    }
    forall q | 0 <= q < MAX_THREADS && (forall u | 0 <= u < |s'.threads| :: s'.threads[u].slot != InSlot(q))
      ensures s'.status[q] == StatusNone
    {
      assert forall u | 0 <= u < |s.threads| :: s.threads[u].slot != InSlot(q);
    }
  }

  lemma AdvanceKeepsRanks(s: State, t: nat, p: Phase, s': State)
    requires RanksRight(s) && t < |s.threads| && Order(p) == Order(s.threads[t].phase) + 1
    requires s'.threads == Advance(s, t, p)
    requires s'.nextRank == s.nextRank + (if p == Ranked then 1 else 0)
    requires s'.nthreads == s.nthreads + (if p == Registered then 1 else 0)
    ensures RanksRight(s')
  {
  }

  lemma AdvanceKeepsSlots(s: State, t: nat, p: Phase, s': State)
    requires SlotsDistinct(s) && t < |s.threads|
    requires s'.threads == Advance(s, t, p) && s'.reserved == s.reserved && s'.nbThreads == s.nbThreads
    ensures SlotsDistinct(s')
  {
    assert forall u | 0 <= u < |s.threads| :: s'.threads[u].slot == s.threads[u].slot;
  }

  lemma AdvanceKeeps(s: State, t: nat, p: Phase, s': State)
    requires Inv(s) && t < |s.threads| && Order(p) == Order(s.threads[t].phase) + 1
    requires Order(p) >= 3 ==> s.threads[t].slot.InSlot?
    requires s'.threads == Advance(s, t, p) && s'.reserved == s.reserved && s'.nbThreads == s.nbThreads
    requires s'.status == if Order(p) >= 3 then Mark(s, t, StatusFor(p)) else s.status
    requires s'.nextRank == s.nextRank + (if p == Ranked then 1 else 0)
    requires s'.nthreads == s.nthreads + (if p == Registered then 1 else 0)
    ensures Inv(s')
  {
    ReachedAdvance(s.threads, t, Advanced(s, t, p), 1);
    ReachedAdvance(s.threads, t, Advanced(s, t, p), 2);
    AdvanceKeepsStatuses(s, t, p, s');
    AdvanceKeepsRanks(s, t, p, s');
    AdvanceKeepsSlots(s, t, p, s');
  }

  lemma ApplyKeeps(s: State, a: Action)
    requires Inv(s) && Enabled(s, a)
    ensures Inv(Apply(s, a))
  {
    match a
    case Reserve => ReserveKeeps(s);
    case Create(r, ok) => CreateKeeps(s, r, ok);
    case TakeRank(t) => AdvanceKeeps(s, t, Ranked, Apply(s, a));
    case Register(t) => AdvanceKeeps(s, t, Registered, Apply(s, a));
    case MarkCreated(t) => AdvanceKeeps(s, t, Running, Apply(s, a));
    case MarkFinalized(t) => AdvanceKeeps(s, t, Finished, Apply(s, a));
  }

  /** Any interleaving of enabled steps from the start. */
  ghost predicate IsRun(ss: seq<State>, acts: seq<Action>) {
    && |ss| == |acts| + 1
    && ss[0] == Initial()
    && forall i | 0 <= i < |acts| :: Enabled(ss[i], acts[i]) && ss[i + 1] == Apply(ss[i], acts[i])
  }

  lemma {:induction false} RunInv(ss: seq<State>, acts: seq<Action>, i: nat)
    requires IsRun(ss, acts) && i < |ss|
    ensures Inv(ss[i])
  {
    if i == 0 {
      InitialInv();
    } else {
      RunInv(ss, acts, i - 1);
      ApplyKeeps(ss[i - 1], acts[i - 1]);
      assert ss[i - 1 + 1] == Apply(ss[i - 1], acts[i - 1]);
    }
  }

  /** In every state of every interleaving no two threads share a slot, a profiling rank or a
      table entry, and the counters are ordered; the one extra registration is that of the thread
      that loaded the library. */
  lemma RanksAreDistinct(ss: seq<State>, acts: seq<Action>, i: nat)
    requires IsRun(ss, acts) && i < |ss|
    ensures forall t, u | 0 <= t < u < |ss[i].threads| && ss[i].threads[t].slot.InSlot? ::
              ss[i].threads[t].slot != ss[i].threads[u].slot
    ensures forall t, u | 0 <= t < u < |ss[i].threads| && ss[i].threads[t].rank.Some? ::
              ss[i].threads[t].rank != ss[i].threads[u].rank
    ensures forall t, u | 0 <= t < u < |ss[i].threads| && ss[i].threads[t].entry.Some? ::
              ss[i].threads[t].entry != ss[i].threads[u].entry
    ensures forall t | 0 <= t < |ss[i].threads| ::
              && (ss[i].threads[t].rank.Some? ==> ss[i].threads[t].rank.value < ss[i].nextRank)
              && (ss[i].threads[t].entry.Some? ==> ss[i].threads[t].entry.value < ss[i].nthreads)
    ensures ss[i].nthreads <= ss[i].nextRank <= |ss[i].threads| <= ss[i].nbThreads + 1
  {
    RunInv(ss, acts, i);
    ReachedBounds(ss[i].threads, 1);
    ReachedBounds(ss[i].threads, 0);
  }

  function StatusOrder(v: Status): nat {
    match v
    case StatusNone => 0
    case StatusCreated => 1
    case StatusFinalized => 2
  }

  lemma StepAdvances(s: State, a: Action, r: nat)
    requires Inv(s) && Enabled(s, a) && r < MAX_THREADS
    ensures |Apply(s, a).status| == MAX_THREADS
    ensures StatusOrder(s.status[r]) <= StatusOrder(Apply(s, a).status[r]) <= StatusOrder(s.status[r]) + 1
  {
  }

  lemma RunStepAdvances(ss: seq<State>, acts: seq<Action>, i: nat, r: nat)
    requires IsRun(ss, acts) && i + 1 < |ss| && r < MAX_THREADS
    ensures |ss[i].status| == |ss[i + 1].status| == MAX_THREADS
    ensures StatusOrder(ss[i].status[r]) <= StatusOrder(ss[i + 1].status[r]) <= StatusOrder(ss[i].status[r]) + 1
  {
    RunInv(ss, acts, i);
    StepAdvances(ss[i], acts[i], r);
  }

  // ----- the length of the array -----

  /** The indices written past the end are the ranks from the array's length on that a creation
      has used. */
  ghost predicate OutsideRight(s: State) {
    forall r: nat :: r in s.outside <==> MAX_THREADS <= r < s.nbThreads && r !in s.reserved
  }

  lemma ApplyKeepsOutside(s: State, a: Action)
    requires Inv(s) && OutsideRight(s) && Enabled(s, a)
    ensures OutsideRight(Apply(s, a))
    ensures s.outside <= Apply(s, a).outside
  {
    match a
    case Reserve => assert s.nbThreads !in s.reserved;
    case Create(r, _) => assert r < s.nbThreads;
    case TakeRank(_) =>
    case Register(_) =>
    case MarkCreated(t) => assert s.threads[t].slot.slot !in s.reserved;
    case MarkFinalized(t) =>
  }

  lemma {:induction false} RunOutside(ss: seq<State>, acts: seq<Action>, i: nat)
    requires IsRun(ss, acts) && i < |ss|
    ensures OutsideRight(ss[i])
  {
    if i > 0 {
      RunOutside(ss, acts, i - 1);
      RunInv(ss, acts, i - 1);
      ApplyKeepsOutside(ss[i - 1], acts[i - 1]);
      assert ss[i - 1 + 1] == Apply(ss[i - 1], acts[i - 1]);
    }
  }

  /** All slots, and all ranks of creations still to come, are indices of the array. */
  ghost predicate AllInside(s: State) {
    && (forall t | 0 <= t < |s.threads| && s.threads[t].slot.InSlot? :: s.threads[t].slot.slot < MAX_THREADS)
    && (forall r <- s.reserved :: r < MAX_THREADS)
  }

  /** What the code does not ensure, and exactly when it holds: in every state of every
      interleaving nothing has been or is about to be written past the end of the array if and
      only if no more creations were begun than it has slots. */
  lemma WritesStayInside(ss: seq<State>, acts: seq<Action>, i: nat)
    requires IsRun(ss, acts) && i < |ss|
    ensures ss[i].nbThreads <= 1024 <==> ss[i].outside == {} && AllInside(ss[i])
    ensures ss[i].reserved == {} ==> (ss[i].nbThreads <= 1024 <==> ss[i].outside == {})
  {
    var s := ss[i];
    RunInv(ss, acts, i);
    RunOutside(ss, acts, i);
    if s.nbThreads > MAX_THREADS {
      assert MAX_THREADS in s.outside || MAX_THREADS in s.reserved;
    } else {
      assert forall r: nat :: r !in s.outside;
    }
  }

  /** Any one creation writes outside exactly if the counter had reached the array's length when
      it took its rank, and a mark never writes outside unless its creation did. */
  lemma FirstWriteOutside(ss: seq<State>, acts: seq<Action>, i: nat)
    requires IsRun(ss, acts) && i < |acts|
    ensures match acts[i]
            case Create(r, _) => ss[i + 1].outside == if r < MAX_THREADS then ss[i].outside else ss[i].outside + {r}
            case _ => ss[i + 1].outside == ss[i].outside
  {
    RunInv(ss, acts, i);
    RunOutside(ss, acts, i);
    assert ss[i + 1] == Apply(ss[i], acts[i]);
    if acts[i].MarkCreated? || acts[i].MarkFinalized? {
      var x := ss[i].threads[acts[i].thread].slot;
      assert x.InSlot? ==> x.slot < ss[i].nbThreads && x.slot !in ss[i].reserved;
    }
  }

  /** A run that begins n creations. */
  lemma {:induction false} RunOfReserves(n: nat) returns (ss: seq<State>, acts: seq<Action>)
    ensures IsRun(ss, acts) && |acts| == n
    ensures ss[n].nbThreads == n && forall r: nat :: r in ss[n].reserved <==> r < n
  {
    if n == 0 {
      ss, acts := [Initial()], [];
    } else {
      var before, some := RunOfReserves(n - 1);
      ss, acts := before + [Apply(before[n - 1], Reserve)], some + [Reserve];
      RunSnoc(before, some, Reserve);
    }
  }

  lemma RunSnoc(ss: seq<State>, acts: seq<Action>, a: Action)
    requires IsRun(ss, acts) && Enabled(ss[|acts|], a)
    ensures IsRun(ss + [Apply(ss[|acts|], a)], acts + [a])
  {
    var more, all := ss + [Apply(ss[|acts|], a)], acts + [a];
    forall i | 0 <= i < |all|
      ensures Enabled(more[i], all[i]) && more[i + 1] == Apply(more[i], all[i])
    {
      if i < |acts| {
        assert Enabled(ss[i], acts[i]) && ss[i + 1] == Apply(ss[i], acts[i]);
      }
    }
  }

  /** A reachable failure: after 1025 creations are begun, the last of them puts its thread in
      slot 1024, one past the end. */
  lemma ThreadPastTheEnd() returns (ss: seq<State>, acts: seq<Action>)
    ensures IsRun(ss, acts) && |acts| == 1026
    ensures var s := ss[|acts|];
            && s.threads != [] && s.threads[|s.threads| - 1].slot == InSlot(1024)
            && s.outside == {1024}
  {
    var before, some := RunOfReserves(MAX_THREADS + 1);
    var a := Create(MAX_THREADS, true);
    RunOutside(before, some, MAX_THREADS + 1);
    assert before[MAX_THREADS + 1].outside == {};
    RunSnoc(before, some, a);
    ss, acts := before + [Apply(before[MAX_THREADS + 1], a)], some + [a];
  }

  lemma OutsideGrows(ss: seq<State>, acts: seq<Action>, i: nat)
    requires IsRun(ss, acts) && i < |acts|
    ensures ss[i].outside <= ss[i + 1].outside
  {
    FirstWriteOutside(ss, acts, i);
  }

  /** Along every interleaving that has written nothing past the end of the array, a slot's
      status only moves from none to created to finalized, one stage at a time. */
  lemma {:induction false} StatusOnlyAdvances(ss: seq<State>, acts: seq<Action>, i: nat, j: nat, r: nat)
    requires IsRun(ss, acts) && i < j < |ss| && r < MAX_THREADS
    ensures |ss[i].status| == |ss[j].status| == MAX_THREADS
    ensures ss[j].outside == {} ==>
              && StatusOrder(ss[i].status[r]) <= StatusOrder(ss[j].status[r])
              && (j == i + 1 ==> StatusOrder(ss[j].status[r]) <= StatusOrder(ss[i].status[r]) + 1)
    decreases j - i
  {
    RunStepAdvances(ss, acts, j - 1, r);
    OutsideGrows(ss, acts, j - 1);
    if i < j - 1 {
      StatusOnlyAdvances(ss, acts, i, j - 1, r);
    }
  }

  // ----- progress -----

  /** What thread t does next, if it has not come to its end. */
  function NextAction(s: State, t: nat): Action
    requires t < |s.threads|
  {
    match s.threads[t].phase
    case Spawned => TakeRank(t)
    case Ranked => Register(t)
    case Registered => MarkCreated(t)
    case _ => MarkFinalized(t)
  }

  /** A creation may begin at any time, and one begun may succeed or fail. */
  lemma CreationsAreFree(s: State, r: nat, succeeds: bool)
    ensures Enabled(s, Reserve) && s.nbThreads in Apply(s, Reserve).reserved
    ensures Enabled(s, Create(r, succeeds)) <==> r in s.reserved
    ensures r in s.reserved ==> r !in Apply(s, Create(r, succeeds)).reserved
  {
  }

  /** Nothing ever keeps a thread from its next step, up to its end; the thread that loaded the
      library ends when it is registered. What it takes from a counter is the counter's value. */
  lemma ThreadProgresses(ss: seq<State>, acts: seq<Action>, i: nat, t: nat)
    requires IsRun(ss, acts) && i < |ss| && t < |ss[i].threads|
    requires ss[i].threads[t].phase != Finished && !(t == 0 && ss[i].threads[t].phase == Registered)
    ensures var s, a := ss[i], NextAction(ss[i], t);
            && Enabled(s, a)
            && t < |Apply(s, a).threads|
            && Order(Apply(s, a).threads[t].phase) == Order(s.threads[t].phase) + 1
            && (a.TakeRank? ==> Apply(s, a).threads[t].rank == Some(s.nextRank))
            && (a.Register? ==> Apply(s, a).threads[t].entry == Some(s.nthreads))
  {
    RunInv(ss, acts, i);
    assert t > 0 ==> ss[i].threads[t].slot.InSlot?;
  }

  /** A created thread's whole life: its slot says nothing, then created, then finalized. */
  lemma OneLifetime() returns (ss: seq<State>, acts: seq<Action>)
    ensures IsRun(ss, acts)
    ensures acts == [Reserve, Create(0, true), TakeRank(1), Register(1), MarkCreated(1), MarkFinalized(1)]
    ensures forall i | 0 <= i < |ss| :: |ss[i].status| == MAX_THREADS
    ensures ss[4].status[0] == StatusNone && ss[5].status[0] == StatusCreated && ss[6].status[0] == StatusFinalized
  {
    var s0 := Initial();
    var s1 := Apply(s0, Reserve);
    var s2 := Apply(s1, Create(0, true));
    var s3 := Apply(s2, TakeRank(1));
    var s4 := Apply(s3, Register(1));
    var s5 := Apply(s4, MarkCreated(1));
    var s6 := Apply(s5, MarkFinalized(1));
    ss := [s0, s1, s2, s3, s4, s5, s6];
    acts := [Reserve, Create(0, true), TakeRank(1), Register(1), MarkCreated(1), MarkFinalized(1)];
  }
}
