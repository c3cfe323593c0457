/** The perf mmap record format as the profiler reads it: an eight-byte header
    (type, misc, size, all little-endian) followed by a payload, and the walk that
    visits the records of a linear buffer one header at a time. */
module PerfRecords {
  import opened Arithmetic

  type Byte = b: int | 0 <= b < 0x100

  const HEADER_SIZE: nat := 8
  const PERF_RECORD_SAMPLE: nat := 9
  /** Past the last record type. The enumerator grows with the kernel headers; only its
      being above PERF_RECORD_SAMPLE matters here. */
  const PERF_RECORD_MAX: nat := 22

  datatype Header = Header(kind: nat, size: nat)

  function LittleEndian16(bytes: seq<Byte>, o: nat): (v: nat)
    requires o + 2 <= |bytes|
    ensures v < 0x1_0000
  {
    var lo: nat, hi: nat := bytes[o], bytes[o + 1];
    lo + 0x100 * hi
  }

  /** The header read at offset `o`: a 32-bit type and, after 16 bits of misc, a 16-bit size. */
  function HeaderAt(bytes: seq<Byte>, o: nat): (h: Header)
    requires o + HEADER_SIZE <= |bytes|
    ensures h.size < 0x1_0000
  {
    Header(LittleEndian16(bytes, o) + 0x1_0000 * LittleEndian16(bytes, o + 2), LittleEndian16(bytes, o + 6))
  }

  /** A whole record: its header announces exactly its own length. */
  predicate IsRecord(r: seq<Byte>) {
    && HEADER_SIZE <= |r|
    && |r| % 8 == 0
    && HeaderAt(r, 0).size == |r|
    && HeaderAt(r, 0).kind < PERF_RECORD_MAX
  }

  predicate AllRecords(rs: seq<seq<Byte>>) {
    forall i | 0 <= i < |rs| :: IsRecord(rs[i])
  }

  predicate IsSample(r: seq<Byte>) {
    HEADER_SIZE <= |r| && HeaderAt(r, 0).kind == PERF_RECORD_SAMPLE
  }

  /** The byte stream a sequence of records makes. */
  function Flat(rs: seq<seq<Byte>>): seq<Byte> {
    if rs == [] then [] else rs[0] + Flat(rs[1..])
  }

  lemma {:induction false} FlatConcat(a: seq<seq<Byte>>, b: seq<seq<Byte>>)
    ensures Flat(a + b) == Flat(a) + Flat(b)
  {
    if a == [] {
      assert a + b == b;
    } else {
      assert (a + b)[1..] == a[1..] + b && (a + b)[0] == a[0];
      FlatConcat(a[1..], b);
      assert a[0] + (Flat(a[1..]) + Flat(b)) == a[0] + Flat(a[1..]) + Flat(b);
    }
  }

  lemma FlatOne(r: seq<Byte>)
    ensures Flat([r]) == r
  {
    assert Flat([r]) == r + Flat([]);
  }

  lemma FlatSnoc(rs: seq<seq<Byte>>, r: seq<Byte>)
    ensures Flat(rs + [r]) == Flat(rs) + r
  {
    FlatConcat(rs, [r]);
    FlatOne(r);
  }

  lemma FlatSplit(rs: seq<seq<Byte>>, k: nat)
    requires k <= |rs|
    ensures Flat(rs) == Flat(rs[..k]) + Flat(rs[k..])
  {
    assert rs == rs[..k] + rs[k..];
    FlatConcat(rs[..k], rs[k..]);
  }

  lemma {:induction false} FlatAligned(rs: seq<seq<Byte>>)
    requires AllRecords(rs)
    ensures |Flat(rs)| % 8 == 0
    ensures rs != [] ==> HEADER_SIZE <= |Flat(rs)|
  {
    if rs != [] {
      FlatAligned(rs[1..]);
      assert IsRecord(rs[0]);
      EightsAdd(|rs[0]|, |Flat(rs[1..])|);
    }
  }

  // ----- the walk over a linear buffer -----

  /** One record as the walk sees it. */
  datatype Visit = Visit(offset: nat, kind: nat, size: nat)

  /** Why a walk stopped: the end was reached, a header said size 0 (the program aborts),
      or a header would lie beyond the buffer. */
  datatype Ending = Finished | ZeroSize | OutOfBounds

  datatype Walk = Walk(visits: seq<Visit>, ending: Ending, at: nat)

  function LinearWalk(b: seq<Byte>, cur: nat): Walk
    decreases |b| - cur
  {
    if cur >= |b| then Walk([], Finished, cur)
    else if cur + HEADER_SIZE > |b| then Walk([], OutOfBounds, cur)
    else
      var h := HeaderAt(b, cur);
      if h.size == 0 then Walk([], ZeroSize, cur)
      else
        var rest := LinearWalk(b, cur + h.size);
        rest.(visits := [Visit(cur, h.kind, h.size)] + rest.visits)
  }

  /** Where the records of `rs` lie when their stream starts at offset `base`. */
  function Layout(rs: seq<seq<Byte>>, base: nat): (vs: seq<Visit>)
    requires AllRecords(rs)
    ensures |vs| == |rs|
  {
    if rs == [] then []
    else [Visit(base, HeaderAt(rs[0], 0).kind, |rs[0]|)] + Layout(rs[1..], base + |rs[0]|)
  }

  /** The i-th entry of a layout starts where the first i records end. */
  lemma {:induction false} LayoutAt(rs: seq<seq<Byte>>, base: nat, i: nat)
    requires AllRecords(rs) && i < |rs|
    ensures Layout(rs, base)[i] == Visit(base + |Flat(rs[..i])|, HeaderAt(rs[i], 0).kind, |rs[i]|)
  {
    if i == 0 {
      assert rs[..0] == [];
    } else {
      LayoutAt(rs[1..], base + |rs[0]|, i - 1);
      assert rs[..i][1..] == rs[1..][..i - 1];
      assert rs[..i][0] == rs[0];
    }
  }

  /** Walking a buffer whose tail is a stream of whole records visits exactly those records
      and stops exactly at the end. */
  lemma {:induction false} WalkFromPrefix(pre: seq<Byte>, rs: seq<seq<Byte>>)
    requires AllRecords(rs)
    ensures LinearWalk(pre + Flat(rs), |pre|) ==
            Walk(Layout(rs, |pre|), Finished, |pre| + |Flat(rs)|)
    decreases |rs|
  {
    var b := pre + Flat(rs);
    if rs == [] {
      assert b == pre;
    } else {
      var r := rs[0];
      assert b == pre + r + Flat(rs[1..]);
      assert forall k | 0 <= k < |r| :: b[|pre| + k] == r[k];
      assert HeaderAt(b, |pre|) == HeaderAt(r, 0);
      WalkFromPrefix(pre + r, rs[1..]);
    }
  }

  lemma RecordSlice(rs: seq<seq<Byte>>, i: nat)
    requires i < |rs|
    ensures |Flat(rs[..i])| + |rs[i]| <= |Flat(rs)|
    ensures Flat(rs)[|Flat(rs[..i])|..|Flat(rs[..i])| + |rs[i]|] == rs[i]
  {
    FlatSplit(rs, i);
    assert Flat(rs[i..]) == rs[i] + Flat(rs[i..][1..]);
  }

  ghost predicate Covers(b: seq<Byte>, v: Visit, r: seq<Byte>) {
    v.offset + v.size <= |b| && b[v.offset..v.offset + v.size] == r
  }

  lemma CoversRecord(rs: seq<seq<Byte>>, i: nat)
    requires AllRecords(rs) && i < |rs|
    ensures Covers(Flat(rs), Layout(rs, 0)[i], rs[i])
  {
    LayoutAt(rs, 0, i);
    RecordSlice(rs, i);
  }

  /** Decoding undoes encoding: the walk recovers the record boundaries of a stream, and the
      bytes between the i-th boundaries are the i-th record. */
  lemma WalkOfStream(rs: seq<seq<Byte>>)
    requires AllRecords(rs)
    ensures LinearWalk(Flat(rs), 0) == Walk(Layout(rs, 0), Finished, |Flat(rs)|)
    ensures forall i | 0 <= i < |rs| :: Covers(Flat(rs), Layout(rs, 0)[i], rs[i])
  {
    WalkFromPrefix([], rs);
    assert [] + Flat(rs) == Flat(rs);
    forall i | 0 <= i < |rs|
      ensures Covers(Flat(rs), Layout(rs, 0)[i], rs[i])
    {
      CoversRecord(rs, i);
    }
  }

  /** A record stream is uniquely decodable. */
  lemma StreamDeterminesRecords(rs: seq<seq<Byte>>, ts: seq<seq<Byte>>)
    requires AllRecords(rs) && AllRecords(ts) && Flat(rs) == Flat(ts)
    ensures rs == ts
  {
    WalkOfStream(rs);
    WalkOfStream(ts);
    assert Layout(rs, 0) == Layout(ts, 0);
    assert |rs| == |Layout(rs, 0)| == |ts|;
    forall i | 0 <= i < |rs|
      ensures rs[i] == ts[i]
    {
      assert Covers(Flat(rs), Layout(rs, 0)[i], rs[i]);
      assert Covers(Flat(ts), Layout(ts, 0)[i], ts[i]);
    }
  }

  /** Whatever the sizes in the headers, a walk moves forward by exactly the announced size,
      starts where it was told, and, when it finishes, has passed the end. */
  lemma {:induction false} WalkAdvances(b: seq<Byte>, cur: nat)
    ensures var w := LinearWalk(b, cur);
            && (forall i | 0 <= i < |w.visits| ::
                  && w.visits[i].offset + HEADER_SIZE <= |b|
                  && w.visits[i].size == HeaderAt(b, w.visits[i].offset).size > 0
                  && w.visits[i].kind == HeaderAt(b, w.visits[i].offset).kind
                  && cur <= w.visits[i].offset
                  && w.visits[i].offset + w.visits[i].size
                     == if i + 1 < |w.visits| then w.visits[i + 1].offset else w.at)
            && (w.visits != [] ==> w.visits[0].offset == cur)
            && (w.visits == [] ==> w.at == cur)
            && (w.ending.Finished? <==> w.at >= |b|)
    decreases |b| - cur
  {
    if cur + HEADER_SIZE <= |b| && HeaderAt(b, cur).size != 0 {
      WalkAdvances(b, cur + HeaderAt(b, cur).size);
    }
  }
}
