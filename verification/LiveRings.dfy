/** Which slots still have their ring: an end unmaps a measure's pages and leaves their addresses
    in the slots, where a later start takes them for mapped. */
module LiveRings {
  import opened Lifecycle

  ghost predicate HasMapped<M>(w: World<M>, m: M, t: nat) {
    m in w.measures && t < |w.measures[m].slots| && w.measures[m].slots[t].mapped
  }

  /** The call `c`, made in `w`, unmaps the page of this slot. */
  ghost predicate Unmaps<M>(w: World<M>, c: Call<M>, m: M, t: nat) {
    c == End(m) && HasMapped(w, m, t)
  }

  /** Among the first `i` calls of a run is an end of the measure made after the slot was opened.
      A slot is opened at most once, so this is an end since its opening. */
  ghost predicate EndedSinceOpened<M>(ws: seq<World<M>>, cs: seq<Call<M>>, i: nat, m: M, t: nat)
    requires i <= |cs| < |ws|
  {
    exists j :: 0 <= j < i && Unmaps(ws[j], cs[j], m, t)
  }

  /** Opening touches a slot only to mark it failed or to give it a new ring. */
  lemma {:induction false} OpenedSlots<M>(s: Slots, list: seq<Entry<M>>, me: M, t: nat, answers: seq<Answer>, u: nat)
    requires u < |s.slots|
    ensures var x := OpenFrom(s, list, me, t, answers).measure.slots[u];
            x == s.slots[u] || (!s.slots[u].mapped && (x.live <==> x.mapped))
    decreases |s.slots| - t
  {
    if t < |s.slots| {
      if s.slots[t].mapped {
        OpenedSlots(s, list, me, t + 1, answers, u);
      } else if answers != [] && answers[0].Opened? {
        var fd := answers[0].fd;
        var s' := s.(slots := s.slots[t := Slot(fd, true, true)]);
        OpenedSlots(s', [Entry(fd, me)] + list, me, t + 1, answers[1..], u);
      }
    }
  }

  /** A mapped slot stays mapped. */
  lemma StaysMapped<M>(w: World<M>, c: Call<M>, m: M, t: nat)
    requires Allowed(w, c) && HasMapped(w, m, t)
    ensures HasMapped(Perform(w, c), m, t)
  {
    if c.Start? && c.m == m && w.measures[m].started == 0 {
      var s := w.measures[m];
      OpensOnlyUnmapped(s.(started := s.started + 1), w.list, m, 0, c.answers);
    }
  }

  ghost predicate LiveUnless(s: Slots, t: nat, ended: bool)
    requires t < |s.slots|
  {
    s.slots[t].live <==> s.slots[t].mapped && !ended
  }

  lemma StartLiveness<M>(w: World<M>, m: M, answers: seq<Answer>, t: nat, ended: bool)
    requires m in w.measures && FreshAnswers(answers, w.open) && t < |w.measures[m].slots|
    requires LiveUnless(w.measures[m], t, ended) && (ended ==> w.measures[m].slots[t].mapped)
    ensures LiveUnless(Perform(w, Start(m, answers)).measures[m], t, ended)
  {
    var s := w.measures[m];
    if s.started == 0 {
      OpenedSlots(s.(started := s.started + 1), w.list, m, 0, answers, t);
    }
  }

  /** One call keeps track of a slot's page. */
  lemma StepLiveness<M>(w: World<M>, c: Call<M>, m: M, t: nat, ended: bool)
    requires Allowed(w, c) && m in w.measures && t < |w.measures[m].slots|
    requires LiveUnless(w.measures[m], t, ended) && (ended ==> w.measures[m].slots[t].mapped)
    ensures var w' := Perform(w, c);
            && m in w'.measures && |w'.measures[m].slots| == |w.measures[m].slots|
            && LiveUnless(w'.measures[m], t, ended || Unmaps(w, c, m, t))
  {
    if c.Start? && c.m == m {
      StartLiveness(w, m, c.answers, t, ended);
    }
  }

  lemma NextEnded<M>(ws: seq<World<M>>, cs: seq<Call<M>>, i: nat, m: M, t: nat)
    requires i < |cs| < |ws|
    ensures EndedSinceOpened(ws, cs, i + 1, m, t)
            <==> EndedSinceOpened(ws, cs, i, m, t) || Unmaps(ws[i], cs[i], m, t)
  {
    if EndedSinceOpened(ws, cs, i + 1, m, t) {
      var j :| 0 <= j < i + 1 && Unmaps(ws[j], cs[j], m, t);
    }
  }

  lemma {:induction false} EndedIsMapped<M>(ws: seq<World<M>>, cs: seq<Call<M>>, i: nat, m: M, t: nat)
    requires IsRun(ws, cs) && i <= |cs| && EndedSinceOpened(ws, cs, i, m, t)
    ensures HasMapped(ws[i], m, t)
  {
    var k := i - 1;
    NextEnded(ws, cs, k, m, t);
    if EndedSinceOpened(ws, cs, k, m, t) {
      EndedIsMapped(ws, cs, k, m, t);
    }
    StaysMapped(ws[k], cs[k], m, t);
    assert ws[k + 1] == Perform(ws[k], cs[k]);
  }

  lemma NewMeasureUnmapped<M>(w: World<M>, c: Call<M>, m: M, t: nat)
    requires Allowed(w, c) && m !in w.measures && m in Perform(w, c).measures
    requires t < |Perform(w, c).measures[m].slots|
    ensures Perform(w, c).measures[m].slots[t] == Slot(0, false, false)
  {
  }

  /** In every state of every run a slot has its page exactly when it was opened and its measure
      has not been ended since. */
  lemma {:induction false} SlotLiveness<M>(ws: seq<World<M>>, cs: seq<Call<M>>, i: nat, m: M, t: nat)
    requires IsRun(ws, cs) && ws[0] == InitialWorld<M>() && i < |ws|
    requires m in ws[i].measures && t < |ws[i].measures[m].slots|
    ensures LiveUnless(ws[i].measures[m], t, EndedSinceOpened(ws, cs, i, m, t))
  {
    var k := i - 1;
    assert ws[k + 1] == Perform(ws[k], cs[k]);
    NextEnded(ws, cs, k, m, t);
    if EndedSinceOpened(ws, cs, k, m, t) {
      EndedIsMapped(ws, cs, k, m, t);
    }
    if m in ws[k].measures {
      SameSlots(ws[k], cs[k], m);
      SlotLiveness(ws, cs, k, m, t);
      StepLiveness(ws[k], cs[k], m, t, EndedSinceOpened(ws, cs, k, m, t));
    } else {
      NewMeasureUnmapped(ws[k], cs[k], m, t);
    }
  }

  lemma SameSlots<M>(w: World<M>, c: Call<M>, m: M)
    requires Allowed(w, c) && m in w.measures
    ensures m in Perform(w, c).measures && |Perform(w, c).measures[m].slots| == |w.measures[m].slots|
  {
  }

  /** When a start of a measure returns 0, every thread has its ring exactly if the measure was
      not ended since any of the slots it skipped was opened. */
  lemma StartLeavesAllLive<M>(ws: seq<World<M>>, cs: seq<Call<M>>, i: nat, m: M, answers: seq<Answer>)
    requires IsRun(ws, cs) && ws[0] == InitialWorld<M>() && i < |cs| && cs[i] == Start(m, answers)
    requires m in ws[i].measures && StartMeasure(ws[i].measures[m], ws[i].list, m, answers).code == 0
    ensures m in ws[i + 1].measures
    ensures AllLive(ws[i + 1].measures[m])
            <==> (forall t: nat | HasMapped(ws[i], m, t) :: !EndedSinceOpened(ws, cs, i, m, t))
  {
    SameSlots(ws[i], cs[i], m);
    var s, s' := ws[i].measures[m], ws[i + 1].measures[m];
    OpensOnlyUnmapped(s.(started := s.started + 1), ws[i].list, m, 0, answers);
    forall t: nat | t < |s'.slots|
      ensures s'.slots[t].live <==> !EndedSinceOpened(ws, cs, i, m, t)
    {
      SlotLiveness(ws, cs, i + 1, m, t);
      NextEnded(ws, cs, i, m, t);
    }
    forall t: nat | EndedSinceOpened(ws, cs, i, m, t)
      ensures HasMapped(ws[i], m, t)
    {
      EndedIsMapped(ws, cs, i, m, t);
    }
  }

  /** A reachable failure: init, start, end, stop, start. The last start returns 0, marks the
      measure started, and its only slot holds the address of a page that is gone. */
  lemma RestartDangles() returns (ws: seq<World<int>>, cs: seq<Call<int>>)
    ensures IsRun(ws, cs) && ws[0] == InitialWorld<int>()
    ensures cs == [Init(1, 1), Start(1, [Opened(3)]), End(1), Stop(1), Start(1, [])]
    ensures 1 in ws[4].measures && StartMeasure(ws[4].measures[1], ws[4].list, 1, []).code == 0
    ensures 1 in ws[5].measures && ws[5].measures[1] == Slots(1, [Slot(3, true, false)])
  {
    var ws1, cs1 := InitAndStart(InitialWorld<int>(), 1, 3);
    var gone := Slots(1, [Slot(3, true, false)]);
    assert Unmapped(OneOpen(3)) == gone;
    var w3 := Perform(ws1[2], End(1));
    var w4 := Perform(w3, Stop(1));
    assert w4.measures[1] == gone.(started := 0);
    assert FreshAnswers([], w4.open);
    AllMappedOpensNothing(gone, [], 1, 0, []);
    var w5 := Perform(w4, Start(1, []));
    assert w5.measures[1] == gone;
    var ws2, cs2 := [ws1[2], w3, w4, w5], [Call.End(1), Call.Stop(1), Call.Start(1, [])];
    assert IsRun(ws2, cs2);
    RunsJoin(ws1, cs1, ws2, cs2);
    ws, cs := ws1 + ws2[1..], cs1 + cs2;
    assert cs1 == [Init(1, 1), Start(1, [Opened(3)])];
  }
}
