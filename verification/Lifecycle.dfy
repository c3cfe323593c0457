/** What the sampling calls do to the slots of a measure and to the shared list that maps
    descriptors to measures, over values. `M` stands for the identity of a measure. */
module Lifecycle {
  import opened Wrappers

  const ERROR_PERF_EVENT_OPEN: int := -3
  const ERROR_NUMAP_ALREADY_STARTED: int := -5
  const ERROR_NUMAP_STOP_BEFORE_START: int := -6

  /** A per-thread slot: its descriptor, whether it holds the address of a metadata page, and
      whether the page is still there. */
  datatype Slot = Slot(fd: int, mapped: bool, live: bool)

  /** A measure. */
  datatype Slots = Slots(started: int, slots: seq<Slot>)

  /** A node of the list. */
  datatype Entry<M> = Entry(fd: int, owner: M)

  /** The handler's search: the first node with the descriptor. */
  function Lookup<M>(list: seq<Entry<M>>, fd: int): Option<M> {
    if list == [] then None
    else if list[0].fd == fd then Some(list[0].owner)
    else Lookup(list[1..], fd)
  }

  /** The kernel's answer to one request to open an event. */
  datatype Answer = Failed | Opened(fd: int)

  datatype Opening<M> = Opening(measure: Slots, list: seq<Entry<M>>, code: int)

  /** Opening the slots from `t` on: mapped slots are skipped, each other slot takes the next
      answer, and the first failure ends the call with the slots before it left open. */
  function OpenFrom<M>(s: Slots, list: seq<Entry<M>>, me: M, t: nat, answers: seq<Answer>): (o: Opening<M>)
    ensures |o.measure.slots| == |s.slots| && o.measure.started == s.started
    decreases |s.slots| - t
  {
    if t >= |s.slots| then Opening(s, list, 0)
    else if s.slots[t].mapped then OpenFrom(s, list, me, t + 1, answers)
    else if answers == [] || answers[0].Failed? then
      Opening(s.(slots := s.slots[t := Slot(-1, false, false)]), list, ERROR_PERF_EVENT_OPEN)
    else
      OpenFrom(
        s.(slots := s.slots[t := Slot(answers[0].fd, true, true)]),
        [Entry(answers[0].fd, me)] + list, me, t + 1, answers[1..])
  }

  function StartMeasure<M>(s: Slots, list: seq<Entry<M>>, me: M, answers: seq<Answer>): Opening<M>
  {
    if s.started != 0 then Opening(s, list, ERROR_NUMAP_ALREADY_STARTED)
    else OpenFrom(s.(started := s.started + 1), list, me, 0, answers)
  }

  function StopMeasure(s: Slots): (Slots, int) {
    if s.started == 0 then (s, ERROR_NUMAP_STOP_BEFORE_START) else (s.(started := 0), 0)
  }

  function ResumeMeasure(s: Slots): (Slots, int) {
    if s.started != 0 then (s, ERROR_NUMAP_ALREADY_STARTED) else (s.(started := s.started + 1), 0)
  }

  function InitMeasure(n: nat): Slots {
    Slots(0, seq(n, _ => Slot(0, false, false)))
  }

  // ----- all measures together -----

  /** Every initialised measure, the list, and the descriptors the kernel has handed out. */
  datatype World<M> = World(measures: map<M, Slots>, list: seq<Entry<M>>, open: set<int>)

  datatype Call<M> =
    | Init(m: M, threads: nat)
    | Start(m: M, answers: seq<Answer>)
    | Stop(m: M)
    | Resume(m: M)
    | End(m: M)

  ghost function Fds<M>(list: seq<Entry<M>>): set<int> {
    set e <- list :: e.fd
  }

  /** The kernel hands out only descriptors that are not open. */
  ghost predicate FreshAnswers(answers: seq<Answer>, open: set<int>) {
    answers == [] ||
    (&& (answers[0].Opened? ==> answers[0].fd >= 0 && answers[0].fd !in open)
     && FreshAnswers(answers[1..], if answers[0].Opened? then open + {answers[0].fd} else open))
  }

  /** Measures are initialised once, before anything else; the kernel's answers are fresh. */
  ghost predicate Allowed<M>(w: World<M>, c: Call<M>) {
    match c
    case Init(m, _) => m !in w.measures
    case Start(m, answers) => m in w.measures && FreshAnswers(answers, w.open)
    case Stop(m) => m in w.measures
    case Resume(m) => m in w.measures
    case End(m) => m in w.measures
  }

  ghost function SlotFds(s: Slots): set<int> {
    set x <- s.slots :: x.fd
  }

  /** A measure whose pages have been unmapped. */
  function Unmapped(s: Slots): (r: Slots)
    ensures |r.slots| == |s.slots|
  {
    s.(slots := seq(|s.slots|, t requires 0 <= t < |s.slots| => s.slots[t].(live := false)))
  }

  ghost predicate AllLive(s: Slots) {
    forall t | 0 <= t < |s.slots| :: s.slots[t].live
  }

  /** Ending a measure frees the whole list, unmaps the measure's pages and closes its
      descriptors; the slots keep the numbers and the addresses. */
  ghost function EndMeasure<M>(w: World<M>, m: M): World<M>
    requires m in w.measures
  {
    World(w.measures[m := Unmapped(w.measures[m])], [], w.open - SlotFds(w.measures[m]))
  }

  ghost function Perform<M>(w: World<M>, c: Call<M>): World<M>
    requires Allowed(w, c)
  {
    match c
    case Init(m, n) => w.(measures := w.measures[m := InitMeasure(n)])
    case Start(m, answers) =>
      var o := StartMeasure(w.measures[m], w.list, m, answers);
      World(w.measures[m := o.measure], o.list, w.open + Fds(o.list))
    case Stop(m) => w.(measures := w.measures[m := StopMeasure(w.measures[m]).0])
    case Resume(m) => w.(measures := w.measures[m := ResumeMeasure(w.measures[m]).0])
    case End(m) => EndMeasure(w, m)
  }

  /** Nothing but the kernel's answers and the first initialisation restricts the calls, and any
      descriptor that is not open may be an answer. */
  lemma CallsAreFree<M>(w: World<M>, m: M, threads: nat, fd: int)
    ensures Allowed(w, Init(m, threads)) <==> m !in w.measures
    ensures m in w.measures ==> Allowed(w, Stop(m)) && Allowed(w, Resume(m)) && Allowed(w, End(m))
    ensures m in w.measures ==> Allowed(w, Start(m, [])) && Allowed(w, Start(m, [Failed]))
    ensures m in w.measures ==> (Allowed(w, Start(m, [Opened(fd)])) <==> fd >= 0 && fd !in w.open)
  {
    assert FreshAnswers([Opened(fd)][1..], w.open + {fd}) && FreshAnswers([Failed][1..], w.open);
  }

  /** A run of calls, in any order, each allowed when it is made. */
  ghost predicate IsRun<M>(ws: seq<World<M>>, cs: seq<Call<M>>) {
    && |ws| == |cs| + 1
    && (forall i | 0 <= i < |cs| :: Allowed(ws[i], cs[i]) && ws[i + 1] == Perform(ws[i], cs[i]))
  }

  /** Nothing initialised; the three standard descriptors are open. */
  ghost function InitialWorld<M>(): World<M> {
    World(map[], [], {0, 1, 2})
  }

  // ----- which slots were opened since the last end -----

  ghost function MappedSlots(s: Slots): set<nat> {
    set t: nat | t < |s.slots| && s.slots[t].mapped
  }

  /** The slots a measure has after a call and had not before. */
  ghost function NewlyMapped(s: Slots, s': Slots): set<nat> {
    MappedSlots(s') - MappedSlots(s)
  }

  ghost function Of<M>(recent: map<M, set<nat>>, m: M): set<nat> {
    if m in recent then recent[m] else {}
  }

  ghost function NextRecent<M>(recent: map<M, set<nat>>, w: World<M>, c: Call<M>): map<M, set<nat>>
    requires Allowed(w, c)
  {
    match c
    case Start(m, _) => recent[m := Of(recent, m) + NewlyMapped(w.measures[m], Perform(w, c).measures[m])]
    case End(_) => map[]
    case _ => recent
  }

  /** The slots mapped by the calls of a run since its last end, read off the slots alone. */
  ghost function Recent<M>(ws: seq<World<M>>, cs: seq<Call<M>>, i: nat): map<M, set<nat>>
    requires IsRun(ws, cs) && i < |ws|
  {
    if i == 0 then map[] else NextRecent(Recent(ws, cs, i - 1), ws[i - 1], cs[i - 1])
  }

  ghost predicate HasEntry<M>(list: seq<Entry<M>>, fd: int, m: M) {
    Entry(fd, m) in list
  }

  ghost predicate DistinctFds<M>(list: seq<Entry<M>>) {
    forall i, j | 0 <= i < j < |list| :: list[i].fd != list[j].fd
  }

  /** The list's nodes of measure `m` are those of exactly the slots in `rec`. */
  ghost predicate Recorded<M>(s: Slots, list: seq<Entry<M>>, m: M, rec: set<nat>) {
    && rec <= MappedSlots(s)
    && (forall t <- rec :: HasEntry(list, s.slots[t].fd, m))
    && (forall t, u | t in rec && u in rec && t != u :: s.slots[t].fd != s.slots[u].fd)
    && (forall e <- list :: e.owner == m ==> exists t :: t in rec && s.slots[t].fd == e.fd)
  }

  /** The list records distinct, open descriptors of known measures. */
  ghost predicate ListSound<M>(list: seq<Entry<M>>, known: set<M>, open: set<int>) {
    && DistinctFds(list)
    && forall e <- list :: e.fd in open && e.owner in known
  }

  /** The list records the slots opened since the last end, and nothing else. */
  ghost predicate Since<M>(w: World<M>, recent: map<M, set<nat>>) {
    && ListSound(w.list, w.measures.Keys, w.open)
    && recent.Keys <= w.measures.Keys
    && forall m <- w.measures :: Recorded(w.measures[m], w.list, m, Of(recent, m))
  }

  /** The descriptors in some answers. */
  function Handed(answers: seq<Answer>): set<int> {
    set a <- answers | a.Opened? :: a.fd
  }

  lemma FailedSlotRecorded<M>(s: Slots, list: seq<Entry<M>>, me: M, t: nat, rec: set<nat>)
    requires Recorded(s, list, me, rec) && t < |s.slots| && !s.slots[t].mapped
    ensures Recorded(s.(slots := s.slots[t := Slot(-1, false, false)]), list, me, rec)
    ensures MappedSlots(s.(slots := s.slots[t := Slot(-1, false, false)])) == MappedSlots(s)
  {
    var s' := s.(slots := s.slots[t := Slot(-1, false, false)]);
    assert forall u <- rec :: u != t && s'.slots[u] == s.slots[u];
    forall e | e in list && e.owner == me
      ensures exists u :: u in rec && s'.slots[u].fd == e.fd
    {
      var u :| u in rec && s.slots[u].fd == e.fd;
      assert s'.slots[u].fd == e.fd;
    }
  }

  lemma NewEntrySound<M>(list: seq<Entry<M>>, me: M, fd: int, known: set<M>, open: set<int>)
    requires ListSound(list, known, open) && me in known && fd !in open
    ensures ListSound([Entry(fd, me)] + list, known, open + {fd})
  {
    var list' := [Entry(fd, me)] + list;
    forall i, j | 0 <= i < j < |list'|
      ensures list'[i].fd != list'[j].fd
    {
      assert list'[j] == list[j - 1] && list[j - 1] in list;
      if i > 0 {
        assert list'[i] == list[i - 1];
      }
    }
  }

  lemma NewEntryRecorded<M>(s: Slots, list: seq<Entry<M>>, me: M, t: nat, fd: int, rec: set<nat>)
    requires Recorded(s, list, me, rec) && t < |s.slots| && !s.slots[t].mapped
    requires forall e <- list :: e.fd != fd
    ensures var s' := s.(slots := s.slots[t := Slot(fd, true, true)]);
            && Recorded(s', [Entry(fd, me)] + list, me, rec + {t})
            && MappedSlots(s') == MappedSlots(s) + {t}
  {
    var s' := s.(slots := s.slots[t := Slot(fd, true, true)]);
    var list' := [Entry(fd, me)] + list;
    assert list'[0] == Entry(fd, me);
    assert forall u <- rec :: u != t && s'.slots[u] == s.slots[u];
    forall u | u in rec + {t}
      ensures HasEntry(list', s'.slots[u].fd, me)
    {
      if u != t {
        assert HasEntry(list, s.slots[u].fd, me);
      }
    }
    forall u | u in rec
      ensures s'.slots[u].fd != fd
    {
      assert HasEntry(list, s.slots[u].fd, me);
    }
    forall e | e in list' && e.owner == me
      ensures exists u :: u in rec + {t} && s'.slots[u].fd == e.fd
    {
      if e in list {
        var u :| u in rec && s.slots[u].fd == e.fd;
        assert u in rec + {t} && s'.slots[u].fd == e.fd;
      } else {
        assert t in rec + {t} && s'.slots[t].fd == e.fd;
      }
    }
  }

  /** Opening records the slots it maps, and keeps those recorded before. */
  lemma {:induction false} OpenFromRecords<M>(s: Slots, list: seq<Entry<M>>, me: M, t: nat, answers: seq<Answer>,
                                              known: set<M>, open: set<int>, rec: set<nat>)
    requires Recorded(s, list, me, rec) && ListSound(list, known, open) && me in known
    requires FreshAnswers(answers, open)
    ensures var o := OpenFrom(s, list, me, t, answers);
            && Recorded(o.measure, o.list, me, rec + NewlyMapped(s, o.measure))
            && ListSound(o.list, known, open + Handed(answers))
            && MappedSlots(s) <= MappedSlots(o.measure)
    decreases |s.slots| - t
  {
    if t >= |s.slots| {
      assert rec + NewlyMapped(s, s) == rec;
    } else if s.slots[t].mapped {
      OpenFromRecords(s, list, me, t + 1, answers, known, open, rec);
    } else if answers == [] || answers[0].Failed? {
      FailedSlotRecorded(s, list, me, t, rec);
      assert rec + {} == rec;
    } else {
      var fd := answers[0].fd;
      var s' := s.(slots := s.slots[t := Slot(fd, true, true)]);
      NewEntrySound(list, me, fd, known, open);
      NewEntryRecorded(s, list, me, t, fd, rec);
      OpenFromRecords(s', [Entry(fd, me)] + list, me, t + 1, answers[1..], known, open + {fd}, rec + {t});
      var o := OpenFrom(s, list, me, t, answers);
      NewlyMappedFrom(s, s', o.measure, t, rec);
      HandedFirst(answers, open);
    }
  }

  lemma NewlyMappedFrom(s: Slots, s': Slots, s'': Slots, t: nat, rec: set<nat>)
    requires MappedSlots(s') == MappedSlots(s) + {t} && t !in MappedSlots(s) && MappedSlots(s') <= MappedSlots(s'')
    ensures rec + {t} + NewlyMapped(s', s'') == rec + NewlyMapped(s, s'')
  {
  }

  lemma HandedFirst(answers: seq<Answer>, open: set<int>)
    requires answers != [] && answers[0].Opened?
    ensures open + {answers[0].fd} + Handed(answers[1..]) == open + Handed(answers)
  {
    assert answers == [answers[0]] + answers[1..];
  }

  /** Opening one measure's slots touches no entry of another. */
  lemma {:induction false} OpenFromOthers<M>(s: Slots, list: seq<Entry<M>>, me: M, t: nat, answers: seq<Answer>,
                                             m: M, sm: Slots, rec: set<nat>)
    requires m != me && Recorded(sm, list, m, rec)
    ensures Recorded(sm, OpenFrom(s, list, me, t, answers).list, m, rec)
    decreases |s.slots| - t
  {
    if t >= |s.slots| {
    } else if s.slots[t].mapped {
      OpenFromOthers(s, list, me, t + 1, answers, m, sm, rec);
    } else if answers == [] || answers[0].Failed? {
    } else {
      var fd := answers[0].fd;
      var list' := [Entry(fd, me)] + list;
      OtherEntryRecorded(list, fd, me, m, sm, rec);
      OpenFromOthers(s.(slots := s.slots[t := Slot(fd, true, true)]), list', me, t + 1, answers[1..], m, sm, rec);
    }
  }

  lemma OtherEntryRecorded<M>(list: seq<Entry<M>>, fd: int, me: M, m: M, sm: Slots, rec: set<nat>)
    requires m != me && Recorded(sm, list, m, rec)
    ensures Recorded(sm, [Entry(fd, me)] + list, m, rec)
  {
    forall t | t in rec
      ensures HasEntry([Entry(fd, me)] + list, sm.slots[t].fd, m)
    {
      assert HasEntry(list, sm.slots[t].fd, m);
    }
  }

  lemma StartKeepsSince<M>(w: World<M>, recent: map<M, set<nat>>, m: M, answers: seq<Answer>)
    requires Since(w, recent) && m in w.measures && FreshAnswers(answers, w.open)
    ensures Since(Perform(w, Start(m, answers)), NextRecent(recent, w, Start(m, answers)))
  {
    var w', recent' := Perform(w, Start(m, answers)), NextRecent(recent, w, Start(m, answers));
    var s := w.measures[m];
    assert w'.measures.Keys == w.measures.Keys;
    if s.started != 0 {
      assert Of(recent, m) + NewlyMapped(s, s) == Of(recent, m);
    } else {
      var begun := s.(started := s.started + 1);
      assert MappedSlots(begun) == MappedSlots(s);
      OpenFromRecords(begun, w.list, m, 0, answers, w.measures.Keys, w.open, Of(recent, m));
      forall k | k in w.measures && k != m
        ensures Recorded(w'.measures[k], w'.list, k, Of(recent', k))
      {
        OpenFromOthers(begun, w.list, m, 0, answers, k, w.measures[k], Of(recent, k));
      }
    }
  }

  lemma InitKeepsSince<M>(w: World<M>, recent: map<M, set<nat>>, m: M, n: nat)
    requires Since(w, recent) && m !in w.measures
    ensures Since(Perform(w, Init(m, n)), recent)
  {
  }

  /** Marking a measure started or stopped leaves its slots, and so the records, alone. */
  lemma MarkKeepsSince<M>(w: World<M>, recent: map<M, set<nat>>, m: M, s: Slots)
    requires Since(w, recent) && m in w.measures && s.slots == w.measures[m].slots
    ensures Since(w.(measures := w.measures[m := s]), recent)
  {
    assert w.measures[m := s].Keys == w.measures.Keys;
    assert MappedSlots(s) == MappedSlots(w.measures[m]);
  }

  lemma PerformKeepsSince<M>(w: World<M>, recent: map<M, set<nat>>, c: Call<M>)
    requires Since(w, recent) && Allowed(w, c)
    ensures Since(Perform(w, c), NextRecent(recent, w, c))
  {
    match c
    case Init(m, n) => InitKeepsSince(w, recent, m, n);
    case Start(m, answers) => StartKeepsSince(w, recent, m, answers);
    case Stop(m) => MarkKeepsSince(w, recent, m, StopMeasure(w.measures[m]).0);
    case Resume(m) => MarkKeepsSince(w, recent, m, ResumeMeasure(w.measures[m]).0);
    case End(m) =>
  }

  lemma {:induction false} RunKeepsSince<M>(ws: seq<World<M>>, cs: seq<Call<M>>, i: nat)
    requires IsRun(ws, cs) && ws[0] == InitialWorld<M>() && i < |ws|
    ensures Since(ws[i], Recent(ws, cs, i))
  {
    if i > 0 {
      RunKeepsSince(ws, cs, i - 1);
      PerformKeepsSince(ws[i - 1], Recent(ws, cs, i - 1), cs[i - 1]);
      assert ws[i - 1 + 1] == Perform(ws[i - 1], cs[i - 1]);
    }
  }

  lemma {:induction false} LookupFinds<M>(list: seq<Entry<M>>, fd: int, m: M)
    requires DistinctFds(list)
    ensures Lookup(list, fd) == Some(m) <==> HasEntry(list, fd, m)
  {
    if list != [] {
      LookupFinds(list[1..], fd, m);
      if list[0].fd == fd && HasEntry(list, fd, m) {
        var i :| 0 <= i < |list| && list[i] == Entry(fd, m);
      }
      assert HasEntry(list, fd, m) <==> list[0] == Entry(fd, m) || HasEntry(list[1..], fd, m);
    }
  }

  /** In every state of every run, ends included, the handler's search returns a measure for a
      descriptor exactly when that measure opened it since the last end. */
  lemma SearchFindsRecent<M>(ws: seq<World<M>>, cs: seq<Call<M>>, i: nat, m: M, fd: int)
    requires IsRun(ws, cs) && ws[0] == InitialWorld<M>() && i < |ws| && m in ws[i].measures
    ensures Of(Recent(ws, cs, i), m) <= MappedSlots(ws[i].measures[m])
    ensures Lookup(ws[i].list, fd) == Some(m)
            <==> exists t :: t in Of(Recent(ws, cs, i), m) && ws[i].measures[m].slots[t].fd == fd
  {
    RunKeepsSince(ws, cs, i);
    LookupFinds(ws[i].list, fd, m);
    assert Recorded(ws[i].measures[m], ws[i].list, m, Of(Recent(ws, cs, i), m));
    if HasEntry(ws[i].list, fd, m) {
      assert Entry(fd, m).owner == m;
    }
  }

  // ----- up to the first end -----

  ghost predicate SlotsPositive(s: Slots) {
    forall t | 0 <= t < |s.slots| :: if s.slots[t].mapped then s.slots[t].fd > 0 else s.slots[t].fd <= 0
  }

  /** Recorded descriptors are never those of an unopened slot. */
  ghost predicate Positive<M>(w: World<M>) {
    && 0 in w.open
    && (forall e <- w.list :: e.fd > 0)
    && forall m <- w.measures :: SlotsPositive(w.measures[m])
  }

  ghost function AllMapped<M>(w: World<M>): map<M, set<nat>> {
    map m | m in w.measures :: MappedSlots(w.measures[m])
  }

  /** Slots and list agree: the list records every mapped slot of every measure. */
  ghost predicate Agree<M>(w: World<M>) {
    Positive(w) && Since(w, AllMapped(w))
  }

  lemma {:induction false} OpenFromPositive<M>(s: Slots, list: seq<Entry<M>>, me: M, t: nat, answers: seq<Answer>,
                                               open: set<int>)
    requires SlotsPositive(s) && (forall e <- list :: e.fd > 0) && 0 in open && FreshAnswers(answers, open)
    ensures var o := OpenFrom(s, list, me, t, answers);
            SlotsPositive(o.measure) && forall e <- o.list :: e.fd > 0
    decreases |s.slots| - t
  {
    if t >= |s.slots| {
    } else if s.slots[t].mapped {
      OpenFromPositive(s, list, me, t + 1, answers, open);
    } else if answers == [] || answers[0].Failed? {
    } else {
      var fd := answers[0].fd;
      OpenFromPositive(s.(slots := s.slots[t := Slot(fd, true, true)]), [Entry(fd, me)] + list, me, t + 1, answers[1..],
                       open + {fd});
    }
  }

  lemma PerformKeepsPositive<M>(w: World<M>, c: Call<M>)
    requires Positive(w) && Allowed(w, c) && !c.End?
    ensures Positive(Perform(w, c))
  {
    if c.Start? && w.measures[c.m].started == 0 {
      var s := w.measures[c.m];
      OpenFromPositive(s.(started := s.started + 1), w.list, c.m, 0, c.answers, w.open);
    }
  }

  lemma SinceDependsOnOf<M>(w: World<M>, recent: map<M, set<nat>>, recent': map<M, set<nat>>)
    requires Since(w, recent) && recent'.Keys <= w.measures.Keys
    requires forall m <- w.measures :: Of(recent, m) == Of(recent', m)
    ensures Since(w, recent')
  {
    assert forall m <- w.measures :: Recorded(w.measures[m], w.list, m, Of(recent, m));
  }

  lemma StartMapsMore<M>(w: World<M>, m: M, answers: seq<Answer>)
    requires m in w.measures && FreshAnswers(answers, w.open)
    ensures MappedSlots(w.measures[m]) <= MappedSlots(Perform(w, Start(m, answers)).measures[m])
  {
    var s := w.measures[m];
    if s.started == 0 {
      OpensOnlyUnmapped(s.(started := s.started + 1), w.list, m, 0, answers);
    }
  }

  lemma InitMapsNothing<M>(w: World<M>, m: M, n: nat)
    requires m !in w.measures
    ensures MappedSlots(Perform(w, Init(m, n)).measures[m]) == {}
  {
  }

  /** As long as nothing ends, the slots opened so far are all the mapped ones. */
  lemma RecentIsAllMapped<M>(w: World<M>, c: Call<M>, k: M)
    requires Allowed(w, c) && !c.End? && k in Perform(w, c).measures
    ensures Of(NextRecent(AllMapped(w), w, c), k) == Of(AllMapped(Perform(w, c)), k)
  {
    match c
    case Init(m, n) =>
      InitMapsNothing(w, m, n);
    case Start(m, answers) =>
      StartMapsMore(w, m, answers);
    case Stop(m) => assert MappedSlots(StopMeasure(w.measures[m]).0) == MappedSlots(w.measures[m]);
    case Resume(m) => assert MappedSlots(ResumeMeasure(w.measures[m]).0) == MappedSlots(w.measures[m]);
  }

  lemma PerformAgrees<M>(w: World<M>, c: Call<M>)
    requires Agree(w) && Allowed(w, c) && !c.End?
    ensures Agree(Perform(w, c))
  {
    PerformKeepsPositive(w, c);
    PerformKeepsSince(w, AllMapped(w), c);
    forall k | k in Perform(w, c).measures
      ensures Of(NextRecent(AllMapped(w), w, c), k) == Of(AllMapped(Perform(w, c)), k)
    {
      RecentIsAllMapped(w, c, k);
    }
    SinceDependsOnOf(Perform(w, c), NextRecent(AllMapped(w), w, c), AllMapped(Perform(w, c)));
  }

  lemma {:induction false} RunAgrees<M>(ws: seq<World<M>>, cs: seq<Call<M>>, i: nat)
    requires IsRun(ws, cs) && Agree(ws[0]) && i < |ws| && forall k | 0 <= k < i :: !cs[k].End?
    ensures Agree(ws[i])
  {
    if i > 0 {
      RunAgrees(ws, cs, i - 1);
      PerformAgrees(ws[i - 1], cs[i - 1]);
      assert ws[i - 1 + 1] == Perform(ws[i - 1], cs[i - 1]);
    }
  }

  /** When slots and list agree, a slot is mapped exactly when the list has its node, there is
      just one such node, and the search for its descriptor returns the measure. */
  lemma AgreementFindsOwner<M>(w: World<M>, m: M, t: nat)
    requires Agree(w) && m in w.measures && t < |w.measures[m].slots|
    ensures var s := w.measures[m];
            && (s.slots[t].mapped <==> exists i :: 0 <= i < |w.list| && w.list[i] == Entry(s.slots[t].fd, m))
            && (s.slots[t].mapped ==> Lookup(w.list, s.slots[t].fd) == Some(m))
            && (forall i, j | 0 <= i < |w.list| && 0 <= j < |w.list| && w.list[i].fd == w.list[j].fd :: i == j)
  {
    var s := w.measures[m];
    assert SlotsPositive(s) && Recorded(s, w.list, m, MappedSlots(s));
    LookupFinds(w.list, s.slots[t].fd, m);
    if s.slots[t].mapped {
      assert t in MappedSlots(s);
      assert HasEntry(w.list, s.slots[t].fd, m);
    }
  }

  /** In every state of every run up to the first end the handler's search is right about every
      mapped slot. */
  lemma EveryRunFindsOwners<M>(ws: seq<World<M>>, cs: seq<Call<M>>, i: nat, m: M, t: nat)
    requires IsRun(ws, cs) && ws[0] == InitialWorld<M>() && i < |ws|
    requires forall k | 0 <= k < i :: !cs[k].End?
    requires m in ws[i].measures && t < |ws[i].measures[m].slots|
    ensures var s := ws[i].measures[m];
            && (s.slots[t].mapped <==> Entry(s.slots[t].fd, m) in ws[i].list)
            && (s.slots[t].mapped ==> Lookup(ws[i].list, s.slots[t].fd) == Some(m))
  {
    RunAgrees(ws, cs, i);
    AgreementFindsOwner(ws[i], m, t);
  }

  // ----- restarting -----

  function MappedCount(b: seq<Slot>): nat {
    if b == [] then 0 else MappedCount(b[..|b| - 1]) + (if b[|b| - 1].mapped then 1 else 0)
  }

  lemma {:induction false} MappedCountSet(b: seq<Slot>, t: nat, x: Slot)
    requires t < |b| && !b[t].mapped
    ensures MappedCount(b[t := x]) == MappedCount(b) + (if x.mapped then 1 else 0)
  {
    var k := |b| - 1;
    if t == k {
      assert b[t := x][..k] == b[..k];
    } else {
      MappedCountSet(b[..k], t, x);
      assert b[t := x][..k] == b[..k][t := x];
    }
  }

  /** A mapped slot is never opened again: it keeps its descriptor. A call that returns 0
      leaves every slot mapped. */
  lemma {:induction false} OpensOnlyUnmapped<M>(s: Slots, list: seq<Entry<M>>, me: M, t: nat, answers: seq<Answer>)
    ensures var o := OpenFrom(s, list, me, t, answers);
            && (forall u | 0 <= u < |s.slots| && (s.slots[u].mapped || u < t) :: o.measure.slots[u] == s.slots[u])
            && (o.code == 0 ==> forall u | t <= u < |s.slots| :: o.measure.slots[u].mapped)
    decreases |s.slots| - t
  {
    if t >= |s.slots| {
    } else if s.slots[t].mapped {
      OpensOnlyUnmapped(s, list, me, t + 1, answers);
    } else if answers == [] || answers[0].Failed? {
    } else {
      var s' := s.(slots := s.slots[t := Slot(answers[0].fd, true, true)]);
      OpensOnlyUnmapped(s', [Entry(answers[0].fd, me)] + list, me, t + 1, answers[1..]);
    }
  }

  /** A call that does not return 0 returns -3 and has stopped at the first slot it could not open:
      every slot before it is mapped, it holds -1, and the slots behind it are as they were. */
  lemma {:induction false} OpeningStopsAtFailure<M>(s: Slots, list: seq<Entry<M>>, me: M, t: nat, answers: seq<Answer>)
    returns (k: nat)
    requires OpenFrom(s, list, me, t, answers).code != 0
    ensures var o := OpenFrom(s, list, me, t, answers);
            && o.code == -3
            && t <= k < |s.slots| && !s.slots[k].mapped
            && o.measure.slots[k].fd == -1 && !o.measure.slots[k].mapped
            && (forall u | t <= u < k :: o.measure.slots[u].mapped)
            && (forall u | k < u < |s.slots| :: o.measure.slots[u] == s.slots[u])
    decreases |s.slots| - t
  {
    if s.slots[t].mapped {
      k := OpeningStopsAtFailure(s, list, me, t + 1, answers);
      OpensOnlyUnmapped(s, list, me, t + 1, answers);
    } else if answers == [] || answers[0].Failed? {
      k := t;
    } else {
      var s' := s.(slots := s.slots[t := Slot(answers[0].fd, true, true)]);
      k := OpeningStopsAtFailure(s', [Entry(answers[0].fd, me)] + list, me, t + 1, answers[1..]);
      OpensOnlyUnmapped(s', [Entry(answers[0].fd, me)] + list, me, t + 1, answers[1..]);
    }
  }

  /** Each call adds to the list one node for each slot it maps, and removes none. */
  lemma {:induction false} OneNodePerOpenedSlot<M>(s: Slots, list: seq<Entry<M>>, me: M, t: nat, answers: seq<Answer>)
    ensures var o := OpenFrom(s, list, me, t, answers);
            && |o.list| - |list| == MappedCount(o.measure.slots) - MappedCount(s.slots) >= 0
            && o.list[|o.list| - |list|..] == list
            && (forall i | 0 <= i < |o.list| - |list| :: o.list[i].owner == me)
    decreases |s.slots| - t
  {
    if t >= |s.slots| {
    } else if s.slots[t].mapped {
      OneNodePerOpenedSlot(s, list, me, t + 1, answers);
    } else if answers == [] || answers[0].Failed? {
      MappedCountSet(s.slots, t, Slot(-1, false, false));
    } else {
      MappedCountSet(s.slots, t, Slot(answers[0].fd, true, true));
      var s' := s.(slots := s.slots[t := Slot(answers[0].fd, true, true)]);
      var list' := [Entry(answers[0].fd, me)] + list;
      OneNodePerOpenedSlot(s', list', me, t + 1, answers[1..]);
      var o := OpenFrom(s, list, me, t, answers);
      assert o.list[|o.list| - |list|..] == o.list[|o.list| - |list'|..][1..];
      assert o.list[|o.list| - |list'|] == list'[0];
    }
  }

  /** A start that fails midway, followed by another attempt from the same slot on, ends where
      a single start would have ended had the kernel not failed. */
  lemma {:induction false} RetryContinues<M>(s: Slots, list: seq<Entry<M>>, me: M, t: nat,
                                             first: seq<Answer>, second: seq<Answer>)
    requires forall a <- first :: a.Opened?
    requires OpenFrom(s, list, me, t, first + [Failed]).code == ERROR_PERF_EVENT_OPEN
    ensures var o := OpenFrom(s, list, me, t, first + [Failed]);
            OpenFrom(o.measure, o.list, me, t, second) == OpenFrom(s, list, me, t, first + second)
    decreases |s.slots| - t
  {
    var o := OpenFrom(s, list, me, t, first + [Failed]);
    if t >= |s.slots| {
    } else if s.slots[t].mapped {
      OpensOnlyUnmapped(s, list, me, t + 1, first + [Failed]);
      RetryContinues(s, list, me, t + 1, first, second);
    } else if first == [] {
      assert first + second == second && first + [Failed] == [Failed];
      var closed := Slot(-1, false, false);
      assert o.measure.slots == s.slots[t := closed];
      if second == [] || second[0].Failed? {
        assert s.slots[t := closed][t := closed] == s.slots[t := closed];
      } else {
        var reopened := Slot(second[0].fd, true, true);
        assert s.slots[t := closed][t := reopened] == s.slots[t := reopened];
      }
    } else {
      var s' := s.(slots := s.slots[t := Slot(first[0].fd, true, true)]);
      var list' := [Entry(first[0].fd, me)] + list;
      assert (first + [Failed])[1..] == first[1..] + [Failed];
      assert (first + second)[1..] == first[1..] + second;
      OpensOnlyUnmapped(s', list', me, t + 1, first[1..] + [Failed]);
      RetryContinues(s', list', me, t + 1, first[1..], second);
    }
  }

  /** Failed start, stop, start again: as one uninterrupted start. */
  lemma StopAndRetry<M>(s: Slots, list: seq<Entry<M>>, me: M, first: seq<Answer>, second: seq<Answer>)
    requires s.started == 0
    requires forall a <- first :: a.Opened?
    requires StartMeasure(s, list, me, first + [Failed]).code == ERROR_PERF_EVENT_OPEN
    ensures var failed := StartMeasure(s, list, me, first + [Failed]);
            && failed.measure.started == 1
            && StartMeasure(failed.measure, failed.list, me, second).code == ERROR_NUMAP_ALREADY_STARTED
            && StartMeasure(StopMeasure(failed.measure).0, failed.list, me, second)
               == StartMeasure(s, list, me, first + second)
  {
    var failed := StartMeasure(s, list, me, first + [Failed]);
    RetryContinues(s.(started := 1), list, me, 0, first, second);
    assert StopMeasure(failed.measure).0.(started := 1) == failed.measure;
  }

  // ----- after an end -----

  ghost predicate NoneMapped(s: Slots) {
    forall t | 0 <= t < |s.slots| :: !s.slots[t].mapped
  }

  /** After an end the search finds nothing for anyone, and the list records every mapped slot
      exactly if no measure had one. */
  lemma EndForgetsEveryone<M>(w: World<M>, m: M)
    requires m in w.measures
    ensures forall fd :: Lookup(EndMeasure(w, m).list, fd) == None
    ensures Since(EndMeasure(w, m), AllMapped(EndMeasure(w, m)))
            <==> (forall k <- w.measures :: NoneMapped(w.measures[k]))
  {
    var w' := EndMeasure(w, m);
    forall k | k in w.measures
      ensures Recorded(w'.measures[k], w'.list, k, MappedSlots(w'.measures[k])) <==> NoneMapped(w.measures[k])
    {
      NothingRecorded(w'.measures[k], k);
      UnmappedKeepsSlots(w.measures[k]);
    }
  }

  lemma UnmappedKeepsSlots(s: Slots)
    ensures MappedSlots(Unmapped(s)) == MappedSlots(s) && (NoneMapped(Unmapped(s)) <==> NoneMapped(s))
  {
    assert forall t | 0 <= t < |s.slots| :: Unmapped(s).slots[t].mapped == s.slots[t].mapped;
  }

  lemma NothingRecorded<M>(s: Slots, m: M)
    ensures Recorded(s, [], m, MappedSlots(s)) <==> NoneMapped(s)
  {
    if !NoneMapped(s) {
      var t: nat :| t < |s.slots| && s.slots[t].mapped;
      assert t in MappedSlots(s) && !HasEntry([], s.slots[t].fd, m);
    }
  }

  /** A start of a stopped measure whose slots are all still mapped opens nothing: it reports
      success and adds no node. */
  lemma {:induction false} AllMappedOpensNothing<M>(s: Slots, list: seq<Entry<M>>, me: M, t: nat, answers: seq<Answer>)
    requires forall u | t <= u < |s.slots| :: s.slots[u].mapped
    ensures OpenFrom(s, list, me, t, answers) == Opening(s, list, 0)
    decreases |s.slots| - t
  {
    if t < |s.slots| {
      AllMappedOpensNothing(s, list, me, t + 1, answers);
    }
  }

  /** So a measure that was fully open when something ended can be stopped and started again
      with success, and the search still finds none of its descriptors. If it was itself what
      ended, not one of its slots has its page. */
  lemma StartAfterEndIsDeaf<M>(w: World<M>, ended: M, m: M, answers: seq<Answer>)
    requires ended in w.measures && m in w.measures
    requires forall t | 0 <= t < |w.measures[m].slots| :: w.measures[m].slots[t].mapped
    ensures var s := StopMeasure(EndMeasure(w, ended).measures[m]).0;
            var o := StartMeasure(s, EndMeasure(w, ended).list, m, answers);
            && o.code == 0 && o.list == [] && o.measure.slots == s.slots
            && (forall t | 0 <= t < |s.slots| :: Lookup(o.list, o.measure.slots[t].fd) == None)
            && (ended == m ==> forall t | 0 <= t < |s.slots| :: !o.measure.slots[t].live)
  {
    var s := StopMeasure(EndMeasure(w, ended).measures[m]).0;
    AllMappedOpensNothing(s.(started := s.started + 1), [], m, 0, answers);
  }

  /** The state of one thread's measure after a successful start. */
  function OneOpen(fd: int): Slots {
    Slots(1, [Slot(fd, true, true)])
  }

  lemma OneSlotOpens<M>(list: seq<Entry<M>>, me: M, fd: int)
    ensures StartMeasure(InitMeasure(1), list, me, [Opened(fd)]) == Opening(OneOpen(fd), [Entry(fd, me)] + list, 0)
  {
    var s := Slots(1, [Slot(0, false, false)]);
    assert InitMeasure(1).slots == [Slot(0, false, false)];
    assert s.slots[0 := Slot(fd, true, true)] == [Slot(fd, true, true)];
    assert OpenFrom(OneOpen(fd), [Entry(fd, me)] + list, me, 1, []) == Opening(OneOpen(fd), [Entry(fd, me)] + list, 0);
    assert [Opened(fd)][1..] == [];
  }

  lemma OneAnswerFresh(fd: int, open: set<int>)
    requires fd >= 0 && fd !in open
    ensures FreshAnswers([Opened(fd)], open)
  {
    assert FreshAnswers([Opened(fd)][1..], open + {fd});
  }

  /** A one-thread measure is initialised and started. */
  lemma InitAndStart(w: World<int>, m: int, fd: int) returns (ws: seq<World<int>>, cs: seq<Call<int>>)
    requires m !in w.measures && fd >= 0 && fd !in w.open && Fds(w.list) <= w.open
    ensures IsRun(ws, cs) && ws[0] == w && cs == [Call.Init(m, 1), Call.Start(m, [Opened(fd)])]
    ensures ws[2] == World(w.measures[m := OneOpen(fd)], [Entry(fd, m)] + w.list, w.open + {fd})
  {
    var w1 := Perform(w, Call.Init(m, 1));
    OneAnswerFresh(fd, w.open);
    OneSlotOpens(w.list, m, fd);
    var w2 := Perform(w1, Call.Start(m, [Opened(fd)]));
    assert Fds(w2.list) == Fds(w.list) + {fd};
    assert w2.measures == w.measures[m := OneOpen(fd)];
    ws, cs := [w, w1, w2], [Call.Init(m, 1), Call.Start(m, [Opened(fd)])];
  }

  lemma RunsJoin<M>(ws: seq<World<M>>, cs: seq<Call<M>>, vs: seq<World<M>>, ds: seq<Call<M>>)
    requires IsRun(ws, cs) && IsRun(vs, ds) && vs[0] == ws[|cs|]
    ensures IsRun(ws + vs[1..], cs + ds)
  {
    var us, es := ws + vs[1..], cs + ds;
    forall i | 0 <= i < |es|
      ensures Allowed(us[i], es[i]) && us[i + 1] == Perform(us[i], es[i])
    {
      if i < |cs| {
        assert Allowed(ws[i], cs[i]);
      } else {
        var j := i - |cs|;
        assert Allowed(vs[j], ds[j]) && us[i] == vs[j];
      }
    }
  }

  /** The first measure's only descriptor is 3, the second's is 4; the first is ended. */
  lemma EndOfFirst(w: World<int>)
    requires w.measures == map[1 := OneOpen(3), 2 := OneOpen(4)] && w.open == {0, 1, 2, 3, 4}
    ensures EndMeasure(w, 1) == World(map[1 := Unmapped(OneOpen(3)), 2 := OneOpen(4)], [], {0, 1, 2, 4})
  {
    assert w.measures[1].slots == [Slot(3, true, true)];
    assert SlotFds(OneOpen(3)) == {3};
  }

  /** A reachable failure: two one-thread measures are started, the first is ended, and the
      search for the second's open descriptor finds nothing. */
  lemma EndBreaksSearch() returns (ws: seq<World<int>>, cs: seq<Call<int>>)
    ensures IsRun(ws, cs) && ws[0] == InitialWorld<int>() && |ws| == 6
    ensures cs[4] == End(1)
    ensures 2 in ws[4].measures && 2 in ws[5].measures && ws[5].measures[2] == ws[4].measures[2]
    ensures ws[4].measures[2].slots == [Slot(4, true, true)]
    ensures Lookup(ws[4].list, 4) == Some(2) && 4 in ws[5].open && Lookup(ws[5].list, 4) == None
  {
    var ws1, cs1 := InitAndStart(InitialWorld<int>(), 1, 3);
    assert Fds(ws1[2].list) == {3};
    var ws2, cs2 := InitAndStart(ws1[2], 2, 4);
    RunsJoin(ws1, cs1, ws2, cs2);
    var w := ws2[2];
    assert w.measures == map[1 := OneOpen(3), 2 := OneOpen(4)] && w.open == {0, 1, 2, 3, 4};
    EndOfFirst(w);
    var ws3, cs3 := [w, EndMeasure(w, 1)], [Call.End(1)];
    assert IsRun(ws3, cs3);
    RunsJoin(ws1 + ws2[1..], cs1 + cs2, ws3, cs3);
    ws, cs := ws1 + ws2[1..] + ws3[1..], cs1 + cs2 + cs3;
  }
}
