/** process_for_latency_measurement: the summary of a message, written into the ring and published. */
module SummaryWriter {
  import opened Bytes
  import opened FixDetails
  import opened SpscRing
  import opened SpscRingBuffer

  /** The first n data bytes of the record being filled. */
  ghost function Written(r: Ring, n: nat): Text
    requires |r.buf| > 0
  {
    Region(r.buf, r.tail + RECORD_HEADER, n)
  }

  lemma WriteByteWrites(r: Ring, off: nat, b: Byte)
    requires Inv(r) && r.producer.Filling? && off < r.producer.length
    ensures Written(Step(r, WriteByte(off, b)), off + 1) == Written(r, off) + [b]
  {
    hide Region, GoodCapacity, Claimed, Held, Poke, ProducerIndex, ConsumerIndex, Slot, EncodeAll, Positions;
    var a, p := r.tail + RECORD_HEADER, r.tail + RECORD_HEADER + off;
    FillingFits(r);
    IndexAgreement(r.tail, r.cap);
    PokeAt(r.buf, r.tail, RECORD_HEADER + off, b);
    RegionPoke(r.buf, a, off, p, b);
    PokeReads(r.buf, p, b);
    RegionAppend(Poke(r.buf, p, b), a, off, 1);
  }

  lemma FillingFits(r: Ring)
    requires Inv(r) && r.producer.Filling?
    ensures r.producer.length <= r.cap
  {
  }

  lemma PublishWritten(r: Ring)
    requires Inv(r) && r.producer.Filling? && |r.buf| == r.cap > 0
    ensures var r' := Step(r, Action.Publish);
      && r'.published == r.published + [Written(r, r.producer.length)] && r'.producer.Idle?
      && r'.tail == r.tail + r.producer.length + RECORD_HEADER
  {
    hide Inv, Region, LengthAt, ProducerIndex;
    PublishKeeps(r);
  }

  /** What belongs to the consumer of a ring: the producer leaves it alone. */
  datatype ConsumerSide = ConsumerSide(head: nat, tailCache: nat, consumer: Consumer, consumed: seq<Text>, seen: nat)

  ghost function SideOf(ring: RingBuffer): ConsumerSide
    reads ring
  {
    ConsumerSide(ring.headPosition, ring.tailCachePosition, ring.consumer, ring.consumed, ring.seen)
  }

  /** The next bytes of the record. */
  method Append(ring: RingBuffer, record: nat, off: nat, s: Text) returns (next: nat)
    requires ring.Valid() && ring.producer.Filling? && off + |s| <= ring.producer.length
    requires record == ProducerIndex(ring.tailPosition, ring.capacity)
    modifies ring.buffer
    ensures ring.Valid() && next == off + |s|
    ensures Written(ring.State(), next) == Written(old(ring.State()), off) + s
  {
    hide Inv, Region, Step, ProducerIndex;
    InvCapacity(ring.State());
    next := off;
    assert s[..0] == [];
    ghost var start := Written(ring.State(), off);
    assert start + [] == start;
    while next < off + |s|
      invariant off <= next <= off + |s| && ring.Valid() && |ring.State().buf| > 0
      invariant Written(ring.State(), next) == start + s[..next - off]
    {
      WriteByteWrites(ring.State(), next, s[next - off]);
      assert s[..next - off] + [s[next - off]] == s[..next + 1 - off];
      ring.Fill(record, next, s[next - off]);
      next := next + 1;
      InvCapacity(ring.State());
    }
    assert s[..|s|] == s;
  }

  /** The summary that details lead to, if they take part in latency measurement. */
  function SummaryOf(d: Details, sec: nat, nsec: nat): Summary {
    Summary(sec, nsec, d.messageType, KeyOf(d))
  }

  /** The components of the key, in the order they are written. */
  function Remote(d: Details): Text {
    if IsRequest(d.messageType) then d.senderCompId else d.targetCompId
  }

  function Local(d: Details): Text {
    if IsRequest(d.messageType) then d.targetCompId else d.senderCompId
  }

  /** The pieces of a record, as they are written one after the other. */
  function Pieces(d: Details, sec: nat, nsec: nat): Text
    requires d.messageType >= 0
  {
    LE(sec, 8) + LE(nsec, 8) + LE(d.messageType, 4) + LE(|KeyOf(d)|, 4)
      + StrNCpy(Remote(d)) + [BAR] + StrNCpy(Local(d)) + [BAR]
      + StrNCpy(d.clOrdId) + [BAR] + StrNCpy(Instrument(d)) + [NUL]
  }

  lemma PiecesAreSummary(d: Details, sec: nat, nsec: nat)
    requires d.messageType >= 0
    ensures Pieces(d, sec, nsec) == Serialize(SummaryOf(d, sec, nsec))
    ensures |Pieces(d, sec, nsec)| == ClaimLength(Remote(d), Local(d), d.clOrdId, Instrument(d))
    ensures |KeyOf(d)| == |Remote(d)| + 1 + |Local(d)| + 1 + |d.clOrdId| + 1 + |Instrument(d)|
  {
    hide LE, StrNCpy;
    var head := LE(sec, 8) + LE(nsec, 8) + LE(d.messageType, 4) + LE(|KeyOf(d)|, 4);
    var key := StrNCpy(Remote(d)) + [BAR] + StrNCpy(Local(d)) + [BAR]
      + StrNCpy(d.clOrdId) + [BAR] + StrNCpy(Instrument(d));
    assert KeyOf(d) == key;
    assert Pieces(d, sec, nsec) == head + key + [NUL];
  }

  lemma ProcessedTypes(d: Details)
    requires ShouldProcess(d)
    ensures d.messageType > 0
  {
  }

  /** What the producer's side of the ring has published, and where its tail is. */
  datatype Output = Output(published: seq<Text>, tail: nat)

  /** A record offered to a ring whose head stays where it is: published if it fits, dropped if not. */
  function Offer(out: Output, record: Text, head: nat, cap: nat): Output {
    if |record| + RECORD_HEADER <= cap - (out.tail - head) then
      Output(out.published + [record], out.tail + |record| + RECORD_HEADER)
    else out
  }

  ghost function OutputOf(ring: RingBuffer): Output
    reads ring
  {
    Output(ring.published, ring.tailPosition)
  }

  /** The copies into a claimed record, one after the other. */
  method WriteSummary(ring: RingBuffer, record: nat, d: Details, sec: nat, nsec: nat)
    requires ring.Valid() && ring.producer.Filling? && d.messageType >= 0
    requires ring.producer.length == |Pieces(d, sec, nsec)| && record == ProducerIndex(ring.tailPosition, ring.capacity)
    modifies ring.buffer
    ensures ring.Valid() && |ring.State().buf| > 0
    ensures Written(ring.State(), |Pieces(d, sec, nsec)|) == Pieces(d, sec, nsec)
  {
    hide Inv, Region, Step, ProducerIndex, Written, LE, StrNCpy, KeyOf, Remote, Local, Instrument;
    var remote, local, instruction, instrument := Remote(d), Local(d), d.clOrdId, Instrument(d);
    var keyLen := |remote| + 1 + |local| + 1 + |instruction| + 1 + |instrument| + 1;
    PiecesAreSummary(d, sec, nsec);
    InvCapacity(ring.State());
    NothingWritten(ring.State());
    var offset := Append(ring, record, 0, LE(sec, 8));
    assert [] + LE(sec, 8) == LE(sec, 8);
    offset := Append(ring, record, offset, LE(nsec, 8));
    offset := Append(ring, record, offset, LE(d.messageType, 4));
    offset := Append(ring, record, offset, LE(keyLen - 1, 4));
    offset := Append(ring, record, offset, StrNCpy(remote));
    offset := Append(ring, record, offset, [BAR]);
    offset := Append(ring, record, offset, StrNCpy(local));
    offset := Append(ring, record, offset, [BAR]);
    offset := Append(ring, record, offset, StrNCpy(instruction));
    offset := Append(ring, record, offset, [BAR]);
    offset := Append(ring, record, offset, StrNCpy(instrument));
    offset := Append(ring, record, offset, [NUL]);
    InvCapacity(ring.State());
  }

  /** process_for_latency_measurement */
  method ProcessForLatencyMeasurement(ring: RingBuffer, d: Details, sec: nat, nsec: nat)
    requires ring.Valid() && ring.producer.Idle?
    modifies ring, ring.buffer
    ensures ring.Valid() && ring.producer.Idle? && SideOf(ring) == old(SideOf(ring))
    ensures OutputOf(ring) ==
      if ShouldProcess(d) then
        Offer(old(OutputOf(ring)), ProcessedRecord(d, sec, nsec), ring.headPosition, ring.capacity)
      else old(OutputOf(ring))
  {
    hide Inv, Region, Step, ProducerIndex, Written, LE, StrNCpy, KeyOf, ToInt32, Serialize, Pieces;
    if !ShouldProcess(d) {
      return;
    }
    ProcessedTypes(d);
    PiecesAreSummary(d, sec, nsec);
    var remote, local, instruction, instrument := Remote(d), Local(d), d.clOrdId, Instrument(d);
    var keyLen := |remote| + 1 + |local| + 1 + |instruction| + 1 + |instrument| + 1;
    var claimed := ring.Claim(SUMMARY_HEADER_LEN + keyLen);
    if claimed.Some? {
      WriteSummary(ring, claimed.value, d, sec, nsec);
      InvCapacity(ring.State());
      PublishWritten(ring.State());
      var result := ring.Publish(claimed.value);
    }
  }

  /** The bytes offered to the ring for a message that takes part. */
  function ProcessedRecord(d: Details, sec: nat, nsec: nat): Text
    requires ShouldProcess(d)
  {
    ProcessedTypes(d);
    Serialize(SummaryOf(d, sec, nsec))
  }

  lemma NothingWritten(r: Ring)
    requires Inv(r)
    ensures |r.buf| > 0 && Written(r, 0) == []
  {
  }
}
