/** The sample ring: memory written by the kernel, an ever-growing head, and a tail that the
    profiler writes back reduced modulo the ring size. */
module Ring {
  import opened Arithmetic
  import opened PerfRecords

  // ----- reading -----

  /** The live bytes between tail and head, in reading order. */
  function Logical(mem: seq<Byte>, tail: nat, head: nat): seq<Byte>
    requires tail <= |mem| && head <= |mem|
  {
    if head < tail then mem[tail..] + mem[..head] else mem[tail..head]
  }

  /** Position `i` of the live bytes, as a place in the ring. */
  function Place(tail: nat, i: nat, n: nat): (o: nat)
    requires tail < n && i < n
    ensures o < n
  {
    if tail + i < n then tail + i else tail + i - n
  }

  lemma PlaceIsReduced(tail: nat, i: nat, n: nat)
    requires tail < n && i < n
    ensures Place(tail, i, n) == (tail + i) % n
  {
    ModOnce(tail + i, n);
  }

  /** Both the contiguous and the two-block case are one formula on the ring. */
  lemma LogicalBytes(mem: seq<Byte>, tail: nat, head: nat)
    requires tail < |mem| && head < |mem|
    ensures |Logical(mem, tail, head)| == (head - tail) % |mem|
    ensures forall i | 0 <= i < |Logical(mem, tail, head)| ::
              Logical(mem, tail, head)[i] == mem[(tail + i) % |mem|]
  {
    ModOnce(head - tail, |mem|);
    forall i | 0 <= i < |Logical(mem, tail, head)|
      ensures Logical(mem, tail, head)[i] == mem[(tail + i) % |mem|]
    {
      PlaceIsReduced(tail, i, |mem|);
    }
  }

  // ----- writing -----

  /** Memory after the kernel has written `bytes` from stream position `pos` on. */
  function Put(mem: seq<Byte>, pos: nat, bytes: seq<Byte>): (m: seq<Byte>)
    requires |mem| > 0
    ensures |m| == |mem|
  {
    if bytes == [] then mem
    else
      var k := |bytes| - 1;
      Put(mem, pos, bytes[..k])[(pos + k) % |mem| := bytes[k]]
  }

  lemma PutNext(mem: seq<Byte>, pos: nat, bytes: seq<Byte>, i: nat)
    requires |mem| > 0 && i < |bytes|
    ensures Put(mem, pos, bytes[..i + 1]) == Put(mem, pos, bytes[..i])[(pos + i) % |mem| := bytes[i]]
  {
    assert bytes[..i + 1][..i] == bytes[..i];
  }

  /** After a write the cells hold the new bytes, and the preceding positions that are still
      within one turn keep theirs. */
  lemma {:induction false} PutCells(mem: seq<Byte>, pos: nat, bytes: seq<Byte>, p: nat)
    requires |bytes| <= |mem| && |mem| > 0
    requires pos + |bytes| - |mem| <= p < pos + |bytes|
    ensures Put(mem, pos, bytes)[p % |mem|] == if p < pos then mem[p % |mem|] else bytes[p - pos]
    decreases |bytes|
  {
    if bytes != [] {
      var k := |bytes| - 1;
      if p < pos + k {
        ModDistinct(p, pos + k, |mem|);
        PutCells(mem, pos, bytes[..k], p);
      }
    }
  }

  // ----- the ring with its history -----

  datatype RingState = RingState(mem: seq<Byte>, head: nat, tail: nat)

  /** What the reader computes from a ring: the head reduced by the ring size. */
  function ReducedHead(r: RingState): nat
    requires |r.mem| > 0
  {
    r.head % |r.mem|
  }

  /** What one drain copies out. */
  function Unread(r: RingState): seq<Byte>
    requires |r.mem| > 0 && r.tail < |r.mem|
  {
    Logical(r.mem, r.tail, ReducedHead(r))
  }

  function Drained(r: RingState): RingState
    requires |r.mem| > 0
  {
    r.(tail := ReducedHead(r))
  }

  function Appended(r: RingState, rec: seq<Byte>): RingState
    requires |r.mem| > 0
  {
    r.(mem := Put(r.mem, r.head, rec), head := r.head + |rec|)
  }

  /** A ring together with everything ever appended (`log`), how many of those records have
      been drained (`taken`) and every byte ever copied out of it (`copied`). */
  datatype Lane = Lane(ring: RingState, log: seq<seq<Byte>>, taken: nat, copied: seq<Byte>)

  /** Offsets are 32-bit; page counts are powers of two, so rings are at most 2^31 bytes. */
  const MAX_RING: nat := 0x8000_0000

  ghost predicate RingSize(n: nat) {
    0 < n <= MAX_RING && n % 8 == 0
  }

  /** Stream positions of the reader. */
  ghost function Position(l: Lane): nat
    requires l.taken <= |l.log|
  {
    |Flat(l.log[..l.taken])|
  }

  ghost predicate Consistent(l: Lane) {
    && RingSize(|l.ring.mem|)
    && AllRecords(l.log)
    && l.taken <= |l.log|
    && l.ring.head == |Flat(l.log)|
    && Position(l) <= l.ring.head < Position(l) + |l.ring.mem|
    && l.ring.tail == Position(l) % |l.ring.mem|
    && l.copied == Flat(l.log[..l.taken])
    && (forall p | Position(l) <= p < l.ring.head ::
          l.ring.mem[p % |l.ring.mem|] == Flat(l.log)[p])
  }

  ghost function UnreadLength(l: Lane): int
    requires l.taken <= |l.log|
  {
    l.ring.head - Position(l)
  }

  lemma ByteOfLog(l: Lane, i: nat)
    requires Consistent(l) && Position(l) + i < l.ring.head
    ensures l.ring.mem[(l.ring.tail + i) % |l.ring.mem|] == Flat(l.log)[Position(l) + i]
  {
    ModShift(Position(l), i, |l.ring.mem|);
  }

  /** The reduced tail and head denote exactly the unread part of the log. */
  lemma UnreadIsLogSuffix(l: Lane)
    requires Consistent(l)
    ensures l.ring.tail < |l.ring.mem|
    ensures Unread(l.ring) == Flat(l.log[l.taken..])
    ensures |Unread(l.ring)| == UnreadLength(l)
    ensures (ReducedHead(l.ring) == l.ring.tail) <==> (l.taken == |l.log|)
  {
    var u, suffix := Unread(l.ring), Flat(l.log[l.taken..]);
    FlatSplit(l.log, l.taken);
    FlatAligned(l.log[l.taken..]);
    LogicalBytes(l.ring.mem, l.ring.tail, ReducedHead(l.ring));
    ReducedGap(Position(l), l.ring.head, |l.ring.mem|);
    forall i | 0 <= i < |u|
      ensures u[i] == suffix[i]
    {
      ByteOfLog(l, i);
    }
    assert u == suffix;
    if l.taken == |l.log| {
      assert l.log[l.taken..] == [];
    }
  }

  function LaneAppend(l: Lane, rec: seq<Byte>): Lane
    requires |l.ring.mem| > 0
  {
    l.(ring := Appended(l.ring, rec), log := l.log + [rec])
  }

  function LaneDrain(l: Lane): Lane
    requires |l.ring.mem| > 0 && l.ring.tail < |l.ring.mem|
  {
    l.(ring := Drained(l.ring), taken := |l.log|, copied := l.copied + Unread(l.ring))
  }

  /** Unread bytes stay strictly below the ring size. */
  ghost predicate Fits(l: Lane, rec: seq<Byte>)
    requires l.taken <= |l.log|
  {
    UnreadLength(l) + |rec| < |l.ring.mem|
  }

  lemma AppendKeepsConsistent(l: Lane, rec: seq<Byte>)
    requires Consistent(l) && IsRecord(rec) && Fits(l, rec)
    ensures Consistent(LaneAppend(l, rec))
    ensures Unread(LaneAppend(l, rec).ring) == Unread(l.ring) + rec
  {
    AppendedConsistent(l, rec);
    UnreadIsLogSuffix(l);
    UnreadIsLogSuffix(LaneAppend(l, rec));
    assert LaneAppend(l, rec).log[l.taken..] == l.log[l.taken..] + [rec];
    FlatSnoc(l.log[l.taken..], rec);
  }

  lemma AppendedConsistent(l: Lane, rec: seq<Byte>)
    requires Consistent(l) && IsRecord(rec) && Fits(l, rec)
    ensures Consistent(LaneAppend(l, rec))
  {
    var l' := LaneAppend(l, rec);
    FlatSnoc(l.log, rec);
    assert l'.log[..l.taken] == l.log[..l.taken];
    forall p | Position(l) <= p < l'.ring.head
      ensures l'.ring.mem[p % |l'.ring.mem|] == Flat(l'.log)[p]
    {
      AppendedByte(l.ring.mem, Flat(l.log), rec, p);
    }
  }

  lemma AppendedByte(mem: seq<Byte>, stream: seq<Byte>, rec: seq<Byte>, p: nat)
    requires 0 < |mem| && |rec| <= |mem| && |stream| + |rec| - |mem| <= p < |stream| + |rec|
    requires p < |stream| ==> mem[p % |mem|] == stream[p]
    ensures Put(mem, |stream|, rec)[p % |mem|] == (stream + rec)[p]
  {
    PutCells(mem, |stream|, rec, p);
  }

  lemma DrainKeepsConsistent(l: Lane)
    requires Consistent(l)
    ensures l.ring.tail < |l.ring.mem|
    ensures Consistent(LaneDrain(l))
    ensures Unread(LaneDrain(l).ring) == []
  {
    var l' := LaneDrain(l);
    UnreadIsLogSuffix(l);
    FlatSplit(l.log, l.taken);
    assert l.log[..|l.log|] == l.log;
    assert Consistent(l');
    UnreadIsLogSuffix(l');
    assert l'.log[l'.taken..] == [];
  }

  /** The strict bound is exactly what a drain needs: with a reader at stream position `base`
      and a head `unread` bytes further, at most one turn ahead, the reduced offsets see the
      whole gap if and only if it is less than the ring. A full ring reads as empty. */
  lemma FullReadsAsEmpty(mem: seq<Byte>, base: nat, unread: nat)
    requires |mem| > 0 && unread <= |mem|
    ensures (|Logical(mem, base % |mem|, (base + unread) % |mem|)| == unread) <==> unread < |mem|
    ensures unread == |mem| ==> Logical(mem, base % |mem|, (base + unread) % |mem|) == []
  {
    var n := |mem|;
    LogicalBytes(mem, base % n, (base + unread) % n);
    ModShift(base, unread, n);
    ModOnce(base % n + unread, n);
    ModOnce((base + unread) % n - base % n, n);
  }

  /** Free space as the perf ABI computes it from the head and a tail on the ring, keeping one
      byte back. */
  function FreeSpace(head: nat, tail: nat, n: nat): int
    requires n > 0
  {
    (tail - head - 1) % n
  }

  /** Writing the tail back reduced loses nothing: the space computed from it admits a record
      exactly when the record fits strictly below the ring size. */
  lemma ReducedTailSpace(l: Lane, rec: seq<Byte>)
    requires Consistent(l)
    ensures FreeSpace(l.ring.head, l.ring.tail, |l.ring.mem|) >= |rec| <==> Fits(l, rec)
  {
    ModGap(Position(l), l.ring.head, |l.ring.mem|);
  }
}
