/** How the kernel lays out a record, written apart from how the profiler reads it, and the round
    trip between the two. */
module Encoding {
  import opened Arithmetic
  import opened PerfRecords
  import opened Statistics
  import opened Ring
  import opened RecordWalk
  import opened Collection

  /** The eight bytes of a header: a 32-bit type, 16 bits of misc and a 16-bit size, each with its
      lowest byte first. */
  function Encoded(kind: nat, misc: nat, size: nat): (bytes: seq<Byte>)
    requires kind < 0x1_0000_0000 && misc < 0x1_0000 && size < 0x1_0000
    ensures |bytes| == 8
  {
    [ kind % 256, kind / 256 % 256, kind / 256 / 256 % 256, kind / 256 / 256 / 256 % 256,
      misc % 256, misc / 256 % 256,
      size % 256, size / 256 % 256 ]
  }

  lemma TwoDigits(v: nat)
    requires v < 0x1_0000
    ensures v % 256 + 256 * (v / 256 % 256) == v
  {
  }

  lemma FourDigits(v: nat)
    requires v < 0x1_0000_0000
    ensures v % 256 + 256 * (v / 256 % 256) + 0x1_0000 * (v / 256 / 256 % 256 + 256 * (v / 256 / 256 / 256 % 256)) == v
  {
    var w := v / 256;
    var x := w / 256;
    assert v == 256 * w + v % 256 && w == 256 * x + w % 256;
    TwoDigits(x);
  }

  /** Reading a header gives back what was written, wherever it lies. */
  lemma HeaderDecodes(pre: seq<Byte>, kind: nat, misc: nat, size: nat, rest: seq<Byte>)
    requires kind < 0x1_0000_0000 && misc < 0x1_0000 && size < 0x1_0000
    ensures |pre| + HEADER_SIZE <= |pre + Encoded(kind, misc, size) + rest|
    ensures HeaderAt(pre + Encoded(kind, misc, size) + rest, |pre|) == Header(kind, size)
  {
    var b, e, o := pre + Encoded(kind, misc, size) + rest, Encoded(kind, misc, size), |pre|;
    assert forall k | 0 <= k < 8 :: b[o + k] == e[k];
    assert b[o] == e[0] && b[o + 1] == e[1] && b[o + 2] == e[2] && b[o + 3] == e[3];
    assert b[o + 6] == e[6] && b[o + 7] == e[7];
    FourDigits(kind);
    TwoDigits(size);
  }

  /** And every eight bytes are the header that was written for what is read in them. */
  lemma HeaderEncodes(b: seq<Byte>, o: nat) returns (misc: nat)
    requires o + HEADER_SIZE <= |b|
    ensures misc < 0x1_0000 && HeaderAt(b, o).kind < 0x1_0000_0000
    ensures b[o..o + 8] == Encoded(HeaderAt(b, o).kind, misc, HeaderAt(b, o).size)
  {
    var kind, size := HeaderAt(b, o).kind, HeaderAt(b, o).size;
    var lo: nat, hi: nat := b[o + 4], b[o + 5];
    misc := lo + 256 * hi;
    FourBytes(b[o], b[o + 1], b[o + 2], b[o + 3]);
    TwoBytes(b[o + 4], b[o + 5]);
    TwoBytes(b[o + 6], b[o + 7]);
    var e := Encoded(kind, misc, size);
    var slice := b[o..o + 8];
    assert slice[0] == e[0] && slice[1] == e[1] && slice[2] == e[2] && slice[3] == e[3];
    assert slice[4] == e[4] && slice[5] == e[5] && slice[6] == e[6] && slice[7] == e[7];
  }

  lemma TwoBytes(lo: Byte, hi: Byte)
    ensures var v := lo + 256 * hi; v % 256 == lo && v / 256 == hi && v / 256 % 256 == hi
  {
  }

  lemma FourBytes(a: Byte, b: Byte, c: Byte, d: Byte)
    ensures var v := a + 256 * b + 0x1_0000 * (c + 256 * d);
            && v % 256 == a && v / 256 % 256 == b
            && v / 256 / 256 % 256 == c && v / 256 / 256 / 256 % 256 == d
  {
    var w := b + 256 * (c + 256 * d);
    assert a + 256 * b + 0x1_0000 * (c + 256 * d) == a + 256 * w;
    assert (a + 256 * w) / 256 == w && (a + 256 * w) % 256 == a;
    assert w / 256 == c + 256 * d && w % 256 == b;
    TwoBytes(c, d);
  }

  // ----- whole records -----

  /** A record as the kernel means it. */
  datatype Raw = Raw(kind: nat, misc: nat, payload: seq<Byte>)

  /** Types below the last one, and a payload that keeps records aligned and in 16 bits. */
  predicate WellFormed(r: Raw) {
    r.kind < PERF_RECORD_MAX && r.misc < 0x1_0000 && |r.payload| % 8 == 0 && 8 + |r.payload| < 0x1_0000
  }

  function RecordOf(r: Raw): seq<Byte>
    requires WellFormed(r)
  {
    Encoded(r.kind, r.misc, 8 + |r.payload|) + r.payload
  }

  /** What the kernel lays out is what the profiler takes for a record, and a sample exactly if
      its type is 9. */
  lemma EncodedIsRecord(r: Raw)
    requires r.kind < PERF_RECORD_MAX && r.misc < 0x1_0000
    requires |r.payload| % 8 == 0 && 8 + |r.payload| < 0x1_0000
    ensures IsRecord(RecordOf(r)) && |RecordOf(r)| == 8 + |r.payload|
    ensures HeaderAt(RecordOf(r), 0).kind == r.kind
    ensures IsSample(RecordOf(r)) <==> r.kind == 9
  {
    var size := 8 + |r.payload|;
    HeaderDecodes([], r.kind, r.misc, size, r.payload);
    assert [] + Encoded(r.kind, r.misc, size) + r.payload == RecordOf(r);
  }

  predicate AllWellFormed(rs: seq<Raw>) {
    forall i | 0 <= i < |rs| :: WellFormed(rs[i])
  }

  function RecordsOf(rs: seq<Raw>): (bs: seq<seq<Byte>>)
    requires AllWellFormed(rs)
    ensures |bs| == |rs| && forall i | 0 <= i < |rs| :: bs[i] == RecordOf(rs[i])
  {
    if rs == [] then [] else RecordsOf(rs[..|rs| - 1]) + [RecordOf(rs[|rs| - 1])]
  }

  /** The samples among them, by type alone. */
  function Samples(rs: seq<Raw>): nat {
    if rs == [] then 0 else Samples(rs[..|rs| - 1]) + (if rs[|rs| - 1].kind == 9 then 1 else 0)
  }

  lemma EncodedAreRecords(rs: seq<Raw>)
    requires AllWellFormed(rs)
    ensures AllRecords(RecordsOf(rs))
  {
    forall i | 0 <= i < |rs|
      ensures IsRecord(RecordsOf(rs)[i])
    {
      EncodedIsRecord(rs[i]);
    }
  }

  lemma {:induction false} SamplesAreCounted(codec: Codec, rs: seq<Raw>)
    requires AllWellFormed(rs)
    ensures |SamplesOf(codec, RecordsOf(rs))| == Samples(rs)
  {
    if rs != [] {
      var k := |rs| - 1;
      SamplesAreCounted(codec, rs[..k]);
      EncodedIsRecord(rs[k]);
      assert RecordsOf(rs)[..k] == RecordsOf(rs[..k]);
    }
  }

  /** From bytes to counts: the walk over the bytes of any records visits each with the type and
      size it was written with, where the ones before it end, and hands on as many samples as
      there are records of type 9. */
  lemma WalkOfEncoded(codec: Codec, rs: seq<Raw>)
    requires AllWellFormed(rs)
    ensures var b := Flat(RecordsOf(rs));
            var w := LinearWalk(b, 0);
            && w.ending.Finished? && w.at == |b| && |w.visits| == |rs|
            && (forall i | 0 <= i < |rs| ::
                  w.visits[i] == Visit(|Flat(RecordsOf(rs)[..i])|, rs[i].kind, 8 + |rs[i].payload|))
            && |SamplesSeen(codec, b, w.visits)| == Samples(rs)
  {
    var bs := RecordsOf(rs);
    EncodedAreRecords(rs);
    WalkOfStream(bs);
    SeenAreTheSamples(codec, bs);
    SamplesAreCounted(codec, rs);
    forall i | 0 <= i < |rs|
      ensures Layout(bs, 0)[i] == Visit(|Flat(bs[..i])|, rs[i].kind, 8 + |rs[i].payload|)
    {
      LayoutAt(bs, 0, i);
      EncodedIsRecord(rs[i]);
    }
  }

  /** The number of samples the program counts in a linear copy of any records: those of type 9. */
  lemma CopyCounts(codec: Codec, rs: seq<Raw>)
    requires AllWellFormed(rs) && rs != []
    ensures var b := Flat(RecordsOf(rs));
            && |b| > 0
            && |SamplesSeen(codec, b, Shifted(LinearWalk(Logical(b, 0, |b|), 0).visits, 0, |b|))| == Samples(rs)
  {
    var b := Flat(RecordsOf(rs));
    EncodedAreRecords(rs);
    FlatAligned(RecordsOf(rs));
    WalkOfEncoded(codec, rs);
    ShiftedByZero(b, |b|);
    assert Logical(b, 0, |b|) == b;
  }

  /** One record of type 9, as bytes, is one sample: the one decoded from those bytes. */
  lemma OneSample(codec: Codec, misc: nat, payload: seq<Byte>)
    requires misc < 0x1_0000 && |payload| % 8 == 0 && 8 + |payload| < 0x1_0000
    ensures var b := Encoded(9, misc, 8 + |payload|) + payload;
            && LinearWalk(b, 0) == Walk([Visit(0, 9, 8 + |payload|)], Finished, 8 + |payload|)
            && SamplesSeen(codec, b, LinearWalk(b, 0).visits) == [codec.decode(b)]
  {
    var r := Raw(9, misc, payload);
    var b := RecordOf(r);
    EncodedIsRecord(r);
    FlatOne(b);
    WalkOfStream([b]);
    SeenAreTheSamples(codec, [b]);
    assert Layout([b], 0) == [Visit(0, 9, 8 + |payload|)];
    assert SamplesOf(codec, [b]) == SamplesOf(codec, []) + [codec.decode(b)];
  }
}
