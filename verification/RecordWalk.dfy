/** The walk as the program performs it, with 32-bit offsets over a ring that may wrap, seen
    as the linear walk over the live bytes. */
module RecordWalk {
  import opened Arithmetic
  import opened PerfRecords
  import opened Ring

  /** A value stored in a 32-bit unsigned. */
  function U32(x: nat): (r: nat)
    ensures x < 0x1_0000_0000 ==> r == x
  {
    x % 0x1_0000_0000
  }

  /** Every record of the walk is 8-aligned and the last one ends exactly at `n`. */
  predicate WholeRecords(w: Walk, n: nat) {
    && w.ending.Finished?
    && w.at == n
    && forall i | 0 <= i < |w.visits| :: w.visits[i].size % 8 == 0
  }

  lemma StreamWalksWhole(rs: seq<seq<Byte>>)
    requires AllRecords(rs)
    ensures WholeRecords(LinearWalk(Flat(rs), 0), |Flat(rs)|)
  {
    WalkOfStream(rs);
    forall i | 0 <= i < |rs|
      ensures Layout(rs, 0)[i].size % 8 == 0
    {
      LayoutAt(rs, 0, i);
    }
  }

  lemma WholeStep(b: seq<Byte>, cur: nat)
    requires WholeRecords(LinearWalk(b, cur), |b|) && cur < |b|
    ensures cur + HEADER_SIZE <= |b|
    ensures var z := HeaderAt(b, cur).size;
            && z > 0 && z % 8 == 0
            && cur + z <= |b|
            && WholeRecords(LinearWalk(b, cur + z), |b|)
  {
    var z := HeaderAt(b, cur).size;
    var w, rest := LinearWalk(b, cur), LinearWalk(b, cur + z);
    assert w.visits[0].size == z;
    forall i | 0 <= i < |rest.visits|
      ensures rest.visits[i].size % 8 == 0
    {
      assert w.visits[i + 1] == rest.visits[i];
    }
    WalkAdvances(b, cur + z);
  }

  /** The same visits, at their offsets in a ring of size `n` read from `tail`. */
  function Shifted(vs: seq<Visit>, tail: nat, n: nat): (r: seq<Visit>)
    requires n > 0
    ensures |r| == |vs|
  {
    seq(|vs|, i requires 0 <= i < |vs| => vs[i].(offset := (tail + vs[i].offset) % n))
  }

  /** A linearised copy: the whole buffer, from its first byte. */
  predicate IsCopy(n: nat, tail: nat, head: nat) {
    tail == 0 && head == n
  }

  /** A ring read in place, holding whole 8-aligned records between tail and head. */
  predicate IsRing(mem: seq<Byte>, tail: nat, head: nat) {
    && |mem| % 8 == 0 && tail % 8 == 0
    && tail < |mem| && head < |mem|
    && WholeRecords(LinearWalk(Logical(mem, tail, head), 0), |Logical(mem, tail, head)|)
  }

  lemma ReducedAligned(x: nat, n: nat)
    requires n > 0 && x % 8 == 0 && n % 8 == 0
    ensures (x % n) % 8 == 0
  {
    var q, a, b := x / n, x / 8, n / 8;
    assert x % n == x - q * n;
    assert q * n == 8 * (q * b) by {
      assert n == 8 * b;
    }
    assert x % n == 8 * (a - q * b);
  }

  /** Every ring the kernel and the profiler can produce between them is such a ring. */
  lemma ConsistentIsRing(l: Lane)
    requires Consistent(l)
    ensures IsRing(l.ring.mem, l.ring.tail, ReducedHead(l.ring))
  {
    UnreadIsLogSuffix(l);
    FlatAligned(l.log[..l.taken]);
    ReducedAligned(Position(l), |l.ring.mem|);
    StreamWalksWhole(l.log[l.taken..]);
  }

  /** Where the program's offset and limit stand after `lin` logical bytes. */
  ghost predicate Tracks(mem: seq<Byte>, tail: nat, head: nat, lin: nat, cur: nat, stop: nat) {
    var n := |mem|;
    if IsCopy(n, tail, head) then cur == lin && stop == n
    else
      && tail < n && head < n
      && lin <= |Logical(mem, tail, head)|
      && lin % 8 == 0
      && cur == (if tail + lin < n then tail + lin else tail + lin - n)
      && stop == (if head < tail && tail + lin < n then n else head)
  }

  lemma TracksAtEnd(mem: seq<Byte>, tail: nat, head: nat, lin: nat, cur: nat, stop: nat)
    requires IsCopy(|mem|, tail, head) || IsRing(mem, tail, head)
    requires Tracks(mem, tail, head, lin, cur, stop)
    ensures cur < stop <==> lin < |Logical(mem, tail, head)|
    ensures cur < stop ==> tail < |mem| && lin < |mem| && cur == Place(tail, lin, |mem|)
    ensures IsRing(mem, tail, head) && cur >= stop ==> cur == head
  {
  }

  /** A stretch of live bytes that does not cross the end of the ring lies there unbroken. */
  lemma Unbroken(mem: seq<Byte>, tail: nat, head: nat, lin: nat, z: nat)
    requires tail < |mem| && head < |mem| && lin < |Logical(mem, tail, head)| && lin + z <= |Logical(mem, tail, head)|
    requires Place(tail, lin, |mem|) + z <= |mem|
    ensures mem[Place(tail, lin, |mem|)..Place(tail, lin, |mem|) + z] == Logical(mem, tail, head)[lin..lin + z]
  {
    var o, live := Place(tail, lin, |mem|), Logical(mem, tail, head);
    var here, there := mem[o..o + z], live[lin..lin + z];
    assert |here| == |there| == z;
    forall k | 0 <= k < z
      ensures here[k] == there[k]
    {
      assert here[k] == mem[o + k] && there[k] == live[lin + k];
    }
  }

  lemma EqualHeaders(a: seq<Byte>, o: nat, b: seq<Byte>, p: nat)
    requires o + HEADER_SIZE <= |a| && p + HEADER_SIZE <= |b|
    requires a[o..o + HEADER_SIZE] == b[p..p + HEADER_SIZE]
    ensures HeaderAt(a, o) == HeaderAt(b, p)
  {
    var h := a[o..o + HEADER_SIZE];
    assert h[0] == a[o] && h[1] == a[o + 1] && h[2] == a[o + 2] && h[3] == a[o + 3];
    assert h[6] == a[o + 6] && h[7] == a[o + 7];
  }

  /** Headers never straddle the end, because all offsets are multiples of eight. */
  lemma HeaderFits(n: nat, tail: nat, lin: nat)
    requires n % 8 == 0 && tail % 8 == 0 && lin % 8 == 0 && tail < n && lin < n
    ensures Place(tail, lin, n) + HEADER_SIZE <= n
  {
    EightsAdd(tail, lin);
    if tail + lin < n {
      NextEight(tail + lin, n);
    } else {
      EightsAdd(tail + lin - n, n);
      NextEight(tail + lin - n, n);
    }
  }

  /** The header the program reads is the one the linear walk reads. */
  lemma SameHeader(mem: seq<Byte>, tail: nat, head: nat, lin: nat, cur: nat, stop: nat)
    requires IsCopy(|mem|, tail, head) || IsRing(mem, tail, head)
    requires Tracks(mem, tail, head, lin, cur, stop) && cur < stop
    requires lin + HEADER_SIZE <= |Logical(mem, tail, head)|
    ensures cur + HEADER_SIZE <= |mem| && HeaderAt(mem, cur) == HeaderAt(Logical(mem, tail, head), lin)
  {
    var b, n := Logical(mem, tail, head), |mem|;
    if IsCopy(n, tail, head) {
      assert b == mem;
    } else {
      HeaderFits(n, tail, lin);
      Unbroken(mem, tail, head, lin, HEADER_SIZE);
      EqualHeaders(mem, cur, b, lin);
    }
  }

  /** Advancing by the record's size, and wrapping as the program does, keeps step with the
      linear walk; the wrap happens only when the end of a ring is reached. */
  lemma TracksStep(mem: seq<Byte>, tail: nat, head: nat, lin: nat, cur: nat, stop: nat, z: nat)
    requires IsCopy(|mem|, tail, head) ||
             (tail < |mem| && head < |mem| && z % 8 == 0 && lin + z <= |Logical(mem, tail, head)|)
    requires Tracks(mem, tail, head, lin, cur, stop) && cur < stop && z > 0
    ensures var wraps := cur + z >= |mem| && |mem| != head;
            && (wraps ==> !IsCopy(|mem|, tail, head) && tail + lin < |mem| && cur + z - |mem| < |mem|)
            && (!IsCopy(|mem|, tail, head) ==> (wraps <==> tail + lin < |mem| <= tail + lin + z))
            && Tracks(mem, tail, head, lin + z,
                      if wraps then cur + z - |mem| else cur + z,
                      if wraps then head else stop)
  {
  }

  lemma VisitsSnoc(seen: seq<Visit>, b: seq<Byte>, lin: nat, tail: nat, n: nat, v: Visit)
    requires n > 0 && lin + HEADER_SIZE <= |b| && HeaderAt(b, lin) == Header(v.kind, v.size) && v.size > 0
    requires v.offset == (tail + lin) % n
    ensures seen + Shifted(LinearWalk(b, lin).visits, tail, n) ==
            seen + [v] + Shifted(LinearWalk(b, lin + v.size).visits, tail, n)
    ensures LinearWalk(b, lin).ending == LinearWalk(b, lin + v.size).ending
  {
    var w, rest := LinearWalk(b, lin), LinearWalk(b, lin + v.size);
    assert w.visits == [Visit(lin, v.kind, v.size)] + rest.visits;
    assert Shifted(w.visits, tail, n) == [v] + Shifted(rest.visits, tail, n);
  }

  lemma ShiftedByZero(b: seq<Byte>, n: nat)
    requires n > 0 && n == |b|
    ensures Shifted(LinearWalk(b, 0).visits, 0, n) == LinearWalk(b, 0).visits
  {
    WalkAdvances(b, 0);
    forall i | 0 <= i < |LinearWalk(b, 0).visits|
      ensures LinearWalk(b, 0).visits[i].offset % n == LinearWalk(b, 0).visits[i].offset
    {
      ModOnce(LinearWalk(b, 0).visits[i].offset, n);
    }
  }

  /** A visited stretch that does not cross the end of the ring lies there as the same bytes. */
  ghost predicate InPlace(mem: seq<Byte>, tail: nat, live: seq<Byte>, v: Visit)
    requires |mem| > 0
  {
    var o := (tail + v.offset) % |mem|;
    && v.offset + v.size <= |live|
    && (o + v.size <= |mem| ==> mem[o..o + v.size] == live[v.offset..v.offset + v.size])
  }

  /** A record that does not cross the end of the ring lies there as the same bytes. */
  lemma WholeRecordInPlace(mem: seq<Byte>, tail: nat, head: nat, i: nat)
    requires IsRing(mem, tail, head)
    requires i < |LinearWalk(Logical(mem, tail, head), 0).visits|
    ensures var live := Logical(mem, tail, head); InPlace(mem, tail, live, LinearWalk(live, 0).visits[i])
  {
    VisitInside(Logical(mem, tail, head), i);
    StretchInPlace(mem, tail, head, LinearWalk(Logical(mem, tail, head), 0).visits[i]);
  }

  lemma StretchInPlace(mem: seq<Byte>, tail: nat, head: nat, v: Visit)
    requires tail < |mem| && head < |mem|
    requires v.offset < |Logical(mem, tail, head)| && v.offset + v.size <= |Logical(mem, tail, head)|
    ensures InPlace(mem, tail, Logical(mem, tail, head), v)
  {
    var o := Place(tail, v.offset, |mem|);
    PlaceIsReduced(tail, v.offset, |mem|);
    if o + v.size <= |mem| {
      Unbroken(mem, tail, head, v.offset, v.size);
    }
    InPlaceAt(mem, tail, Logical(mem, tail, head), v, o);
  }

  lemma InPlaceAt(mem: seq<Byte>, tail: nat, live: seq<Byte>, v: Visit, o: nat)
    requires |mem| > 0 && o == (tail + v.offset) % |mem| && v.offset + v.size <= |live|
    requires o + v.size <= |mem| ==> mem[o..o + v.size] == live[v.offset..v.offset + v.size]
    ensures InPlace(mem, tail, live, v)
  {
  }

  lemma VisitInside(b: seq<Byte>, i: nat)
    requires i < |LinearWalk(b, 0).visits|
    ensures var v := LinearWalk(b, 0).visits[i]; v.offset < |b| && v.offset + v.size <= LinearWalk(b, 0).at
  {
    WalkAdvances(b, 0);
    WalkEndsBelow(b, 0, i);
  }

  lemma {:induction false} WalkEndsBelow(b: seq<Byte>, cur: nat, i: nat)
    requires i < |LinearWalk(b, cur).visits|
    ensures var v := LinearWalk(b, cur).visits[i]; v.offset + v.size <= LinearWalk(b, cur).at
    decreases |b| - cur
  {
    var z := HeaderAt(b, cur).size;
    WalkAdvances(b, cur + z);
    if i > 0 {
      WalkEndsBelow(b, cur + z, i - 1);
    } else if LinearWalk(b, cur + z).visits != [] {
      WalkEndsBelow(b, cur + z, 0);
    }
  }

  // ----- the loop of the program -----

  /** The loop's variables, with the logical bytes walked, the wraps made and the visits so far. */
  datatype Cursor = Cursor(cur: nat, stop: nat, lin: nat, wraps: nat, visits: seq<Visit>)

  ghost predicate Readable(mem: seq<Byte>, tail: nat, head: nat) {
    |mem| > 0 && (IsCopy(|mem|, tail, head) || IsRing(mem, tail, head))
  }

  /** The walk is on course: what has been visited and what is left make up the linear walk. */
  ghost predicate OnCourse(mem: seq<Byte>, tail: nat, head: nat, k: Cursor)
    requires Readable(mem, tail, head)
  {
    OnPosition(mem, tail, head, k) && SameVisits(mem, tail, head, k)
  }

  ghost predicate OnPosition(mem: seq<Byte>, tail: nat, head: nat, k: Cursor)
    requires Readable(mem, tail, head)
  {
    var live := Logical(mem, tail, head);
    && Tracks(mem, tail, head, k.lin, k.cur, k.stop)
    && (IsRing(mem, tail, head) ==> WholeRecords(LinearWalk(live, k.lin), |live|))
    && k.wraps == (if IsCopy(|mem|, tail, head) || tail + k.lin < |mem| then 0 else 1)
  }

  ghost predicate SameVisits(mem: seq<Byte>, tail: nat, head: nat, k: Cursor)
    requires Readable(mem, tail, head)
  {
    VisitsAgree(Logical(mem, tail, head), tail, |mem|, k)
  }

  ghost predicate VisitsAgree(live: seq<Byte>, tail: nat, n: nat, k: Cursor)
    requires n > 0
  {
    var w, rest := LinearWalk(live, 0), LinearWalk(live, k.lin);
    && k.visits + Shifted(rest.visits, tail, n) == Shifted(w.visits, tail, n)
    && rest.ending == w.ending
  }

  function FirstCursor(n: nat, tail: nat, head: nat): Cursor {
    Cursor(tail, if head < tail then n else head, 0, 0, [])
  }

  /** One turn of the loop past a record of the given header. */
  function NextCursor(n: nat, head: nat, k: Cursor, h: Header): Cursor {
    var wraps := k.cur + h.size >= n && n != head;
    Cursor(
      if wraps then k.cur + h.size - n else k.cur + h.size,
      if wraps then head else k.stop,
      k.lin + h.size,
      if wraps then k.wraps + 1 else k.wraps,
      k.visits + [Visit(k.cur, h.kind, h.size)])
  }

  lemma StartsOnCourse(mem: seq<Byte>, tail: nat, head: nat)
    requires Readable(mem, tail, head) && tail != head
    ensures OnCourse(mem, tail, head, FirstCursor(|mem|, tail, head))
  {
  }

  /** What the program reads at the cursor is what the linear walk reads. */
  lemma ReadsOnCourse(mem: seq<Byte>, tail: nat, head: nat, k: Cursor)
    requires Readable(mem, tail, head) && OnPosition(mem, tail, head, k) && k.cur < k.stop
    ensures var live := Logical(mem, tail, head);
            && k.lin < |live| && k.cur < |mem|
            && (k.cur + HEADER_SIZE > |mem| <==> k.lin + HEADER_SIZE > |live|)
            && (k.cur + HEADER_SIZE <= |mem| ==> HeaderAt(mem, k.cur) == HeaderAt(live, k.lin))
  {
    TracksAtEnd(mem, tail, head, k.lin, k.cur, k.stop);
    var live := Logical(mem, tail, head);
    if IsRing(mem, tail, head) {
      WholeStep(live, k.lin);
    }
    if k.lin + HEADER_SIZE <= |live| {
      SameHeader(mem, tail, head, k.lin, k.cur, k.stop);
    }
  }

  lemma NextVisit(live: seq<Byte>, tail: nat, head: nat, n: nat, k: Cursor, h: Header)
    requires n > 0 && VisitsAgree(live, tail, n, k)
    requires k.lin + HEADER_SIZE <= |live| && h.size > 0
    requires tail < n && k.lin < n && k.cur == Place(tail, k.lin, n) && h == HeaderAt(live, k.lin)
    ensures VisitsAgree(live, tail, n, NextCursor(n, head, k, h))
  {
    var v, k' := Visit(k.cur, h.kind, h.size), NextCursor(n, head, k, h);
    PlaceIsReduced(tail, k.lin, n);
    VisitsSnoc(k.visits, live, k.lin, tail, n, v);
    assert k'.visits == k.visits + [v] && k'.lin == k.lin + v.size;
  }

  lemma NextPosition(mem: seq<Byte>, tail: nat, head: nat, k: Cursor, h: Header)
    requires Readable(mem, tail, head) && OnPosition(mem, tail, head, k) && k.cur < k.stop
    requires k.lin < |Logical(mem, tail, head)| && h.size > 0
    requires IsRing(mem, tail, head) ==> WholeNext(Logical(mem, tail, head), k.lin, h)
    ensures OnPosition(mem, tail, head, NextCursor(|mem|, head, k, h))
  {
    NextTracks(mem, tail, head, k, h);
  }

  lemma NextTracks(mem: seq<Byte>, tail: nat, head: nat, k: Cursor, h: Header)
    requires IsCopy(|mem|, tail, head) ||
             (tail < |mem| && head < |mem| && h.size % 8 == 0 && k.lin + h.size <= |Logical(mem, tail, head)|)
    requires Tracks(mem, tail, head, k.lin, k.cur, k.stop) && k.cur < k.stop && h.size > 0
    ensures var k' := NextCursor(|mem|, head, k, h);
            && Tracks(mem, tail, head, k'.lin, k'.cur, k'.stop)
            && k'.wraps == k.wraps +
               (if !IsCopy(|mem|, tail, head) && tail + k.lin < |mem| <= tail + k'.lin then 1 else 0)
  {
    TracksStep(mem, tail, head, k.lin, k.cur, k.stop, h.size);
  }

  /** On a ring the record at the cursor is whole. */
  lemma WholeAtCursor(mem: seq<Byte>, tail: nat, head: nat, k: Cursor)
    requires Readable(mem, tail, head) && IsRing(mem, tail, head)
    requires OnPosition(mem, tail, head, k) && k.lin < |Logical(mem, tail, head)|
    ensures var live := Logical(mem, tail, head);
            && k.lin + HEADER_SIZE <= |live|
            && WholeNext(live, k.lin, HeaderAt(live, k.lin))
  {
    WholeStep(Logical(mem, tail, head), k.lin);
  }

  ghost predicate WholeNext(live: seq<Byte>, lin: nat, h: Header) {
    h.size % 8 == 0 && lin + h.size <= |live| && WholeRecords(LinearWalk(live, lin + h.size), |live|)
  }

  /** The record at the cursor, as the linear walk sees it. */
  lemma RecordOnCourse(mem: seq<Byte>, tail: nat, head: nat, k: Cursor)
    requires Readable(mem, tail, head) && OnPosition(mem, tail, head, k) && k.cur < k.stop
    requires k.cur + HEADER_SIZE <= |mem|
    ensures var live, h := Logical(mem, tail, head), HeaderAt(mem, k.cur);
            && tail < |mem| && k.lin < |mem| && k.cur == Place(tail, k.lin, |mem|)
            && k.lin + HEADER_SIZE <= |live| && h == HeaderAt(live, k.lin)
            && (IsRing(mem, tail, head) ==> WholeNext(live, k.lin, h))
  {
    ReadsOnCourse(mem, tail, head, k);
    TracksAtEnd(mem, tail, head, k.lin, k.cur, k.stop);
    if IsRing(mem, tail, head) {
      WholeAtCursor(mem, tail, head, k);
    }
  }

  lemma StaysOnPosition(mem: seq<Byte>, tail: nat, head: nat, k: Cursor)
    requires Readable(mem, tail, head) && OnPosition(mem, tail, head, k) && k.cur < k.stop
    requires k.cur + HEADER_SIZE <= |mem| && HeaderAt(mem, k.cur).size > 0
    ensures OnPosition(mem, tail, head, NextCursor(|mem|, head, k, HeaderAt(mem, k.cur)))
  {
    RecordOnCourse(mem, tail, head, k);
    NextPosition(mem, tail, head, k, HeaderAt(mem, k.cur));
  }

  lemma StaysOnCourse(mem: seq<Byte>, tail: nat, head: nat, k: Cursor)
    requires Readable(mem, tail, head) && OnCourse(mem, tail, head, k) && k.cur < k.stop
    requires k.cur + HEADER_SIZE <= |mem| && HeaderAt(mem, k.cur).size > 0
    ensures OnCourse(mem, tail, head, NextCursor(|mem|, head, k, HeaderAt(mem, k.cur)))
  {
    RecordOnCourse(mem, tail, head, k);
    NextVisit(Logical(mem, tail, head), tail, head, |mem|, k, HeaderAt(mem, k.cur));
    StaysOnPosition(mem, tail, head, k);
  }

  /** Where the loop can stop: at the end of the live bytes, or at a header the linear walk
      cannot pass either. */
  lemma EndsOnCourse(mem: seq<Byte>, tail: nat, head: nat, k: Cursor)
    requires Readable(mem, tail, head) && OnCourse(mem, tail, head, k)
    ensures var w := LinearWalk(Logical(mem, tail, head), 0);
            && (k.cur >= k.stop ==> w.ending.Finished?)
            && (k.cur < k.stop && k.cur + HEADER_SIZE > |mem| ==> w.ending.OutOfBounds?)
            && (k.cur < k.stop && k.cur + HEADER_SIZE <= |mem| && HeaderAt(mem, k.cur).size == 0 ==> w.ending.ZeroSize?)
            && (k.cur >= k.stop || k.cur + HEADER_SIZE > |mem| || HeaderAt(mem, k.cur).size == 0 ==>
                  k.visits == Shifted(w.visits, tail, |mem|))
            && (IsRing(mem, tail, head) ==> w.ending.Finished?)
            && (IsRing(mem, tail, head) && k.cur >= k.stop ==> k.cur == head)
    ensures k.wraps <= 1
    ensures IsCopy(|mem|, tail, head) ==> k.wraps == 0
  {
    TracksAtEnd(mem, tail, head, k.lin, k.cur, k.stop);
    if k.cur < k.stop {
      ReadsOnCourse(mem, tail, head, k);
    }
  }
}
