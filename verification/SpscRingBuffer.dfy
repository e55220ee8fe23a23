/** The ring buffer as the program holds it: a byte buffer and four positions, updated in place. */
module SpscRingBuffer {
  import opened Bytes
  import opened Options
  import opened SpscRing

  const EINVAL := 22

  class RingBuffer {
    const capacity: nat
    const buffer: array<Byte>
    var tailCachePosition: nat
    var tailPosition: nat
    var headCachePosition: nat
    var headPosition: nat

    /** The records claimed, held, published and consumed so far. */
    ghost var producer: Producer
    ghost var consumer: Consumer
    ghost var published: seq<Text>
    ghost var consumed: seq<Text>
    ghost var freed: nat
    ghost var seen: nat

    /** The state of the transition system that the object is in. */
    ghost function State(): Ring
      reads this, buffer
    {
      Ring(capacity, buffer[..], headPosition, tailPosition, headCachePosition, tailCachePosition,
           producer, consumer, published, consumed, freed, seen)
    }

    ghost predicate Valid()
      reads this, buffer
    {
      Inv(State())
    }

    /** vmars_spsc_rb_init */
    constructor (capacity: nat)
      requires GoodCapacity(capacity)
      ensures Valid() && fresh(buffer)
      ensures this.capacity == capacity && State() == Init(capacity, buffer[..])
    {
      this.capacity := capacity;
      buffer := new Byte[capacity];
      tailCachePosition, tailPosition, headCachePosition, headPosition := 0, 0, 0, 0;
      producer, consumer, published, consumed, freed, seen := Idle, Resting, [], [], 0, 0;
      new;
      InitHolds(capacity, buffer[..]);
    }

    /** A store through the doubled mapping. */
    method Store(a: nat, b: Byte)
      requires buffer.Length > 0
      modifies buffer
      ensures buffer[..] == Poke(old(buffer[..]), a, b)
    {
      buffer[Slot(a, buffer.Length)] := b;
    }

    /** A store of several bytes through the doubled mapping. */
    method StoreAll(a: nat, s: Text)
      requires buffer.Length > 0
      modifies buffer
      ensures buffer[..] == PokeAll(old(buffer[..]), a, s)
    {
      hide Poke;
      var i := 0;
      assert s[0..] == s;
      while i < |s|
        invariant i <= |s|
        invariant PokeAll(old(buffer[..]), a, s) == PokeAll(buffer[..], a + i, s[i..])
      {
        assert s[i..][1..] == s[i + 1..];
        Store(a + i, s[i]);
        i := i + 1;
      }
    }

    /** The length field of the record at an address. */
    method LoadLength(a: nat) returns (length: nat)
      requires buffer.Length > 0
      ensures length == LengthAt(buffer[..], a)
    {
      var s: Text := [];
      for i := 0 to RECORD_HEADER
        invariant s == Region(buffer[..], a, i)
      {
        s := s + [buffer[Slot(a + i, buffer.Length)]];
      }
      length := FromLE(s);
    }

    /** vmars_spsc_rb_claim: the address of the record, None for the null pointer. */
    method Claim(length: nat) returns (record: Option<nat>)
      requires Valid() && producer.Idle?
      modifies `headCachePosition, `producer, `freed, buffer
      ensures Valid()
      ensures State() == Step(Step(Step(old(State()), Action.Claim(length)), LoadHead), WriteLength)
      ensures record == if producer.Filling? then Some(ProducerIndex(tailPosition, capacity)) else None
      ensures producer ==
        if length + RECORD_HEADER <= capacity - (tailPosition - headPosition) then Filling(length) else Idle
    {
      hide Inv, Region, EncodeAll, ToInt32, ToSizeT, ProducerIndex, Slot, LE;
      ghost var r := State();
      assert |r.buf| == r.cap > 0 by { InvCapacity(r); }
      StepKeeps(r, Action.Claim(length));
      HonestRefusal(r, length);
      ghost var r1 := Step(r, Action.Claim(length));
      StepKeeps(r1, LoadHead);
      ghost var r2 := Step(r1, LoadHead);
      StepKeeps(r2, WriteLength);

      var required := length + RECORD_HEADER;
      var head: int, tail: int := headCachePosition, tailPosition;
      var available := ToInt32(capacity) - ToInt32(tail - head);
      var tailIndex := ProducerIndex(tail, capacity);
      if length > capacity {
        return None;
      }
      if ToInt32(required) > available {
        HonestRefusalAtHead(r1);
        head := headPosition;
        if required > ToSizeT(capacity - ToSizeT(tail - head)) {
          return None;
        }
        headCachePosition := head;
        freed := |consumed|;
      }
      StoreAll(tailIndex, LE(length, RECORD_HEADER));
      producer := Filling(length);
      return Some(tailIndex);
    }

    /** One byte of the caller's copy into the data of its claimed record. */
    method Fill(record: nat, off: nat, b: Byte)
      requires Valid() && producer.Filling? && off < producer.length && record == ProducerIndex(tailPosition, capacity)
      modifies buffer
      ensures Valid() && State() == Step(old(State()), WriteByte(off, b))
    {
      hide Inv, ProducerIndex;
      StepKeeps(State(), WriteByte(off, b));
      InvCapacity(State());
      Store(record + RECORD_HEADER + off, b);
    }

    /** vmars_spsc_rb_publish */
    method Publish(toPublish: nat) returns (result: int)
      requires Valid() && producer.Filling?
      modifies `tailPosition, `producer, `published
      ensures Valid()
      ensures result == if toPublish == ProducerIndex(old(tailPosition), capacity) then 0 else EINVAL
      ensures State() == if result == 0 then Step(old(State()), Action.Publish) else old(State())
    {
      StepKeeps(State(), Action.Publish);
      hide Inv, LengthAt, Region;
      var tail := tailPosition;
      var tailIndex := ProducerIndex(tail, capacity);
      if toPublish != tailIndex {
        return EINVAL;
      }
      var length := LoadLength(toPublish);
      tailPosition := tail + length + RECORD_HEADER;
      published := published + [Region(buffer[..], tailIndex + RECORD_HEADER, length)];
      producer := Idle;
      return 0;
    }

    /** vmars_spsc_rb_poll: the address of the next record, None for the null pointer. */
    method Poll() returns (record: Option<nat>)
      requires Valid() && !consumer.NeedTail?
      modifies `tailCachePosition, `consumer, `seen
      ensures Valid()
      ensures State() == Step(Step(old(State()), Action.Poll), LoadTail)
      ensures record == if consumer.Reading? then Some(ConsumerIndex(headPosition, capacity)) else None
      ensures record.None? <==> consumed == published
      ensures !consumer.NeedTail?
    {
      hide Inv, ConsumerIndex;
      ghost var r := State();
      InvCapacity(r);
      StepKeeps(r, Action.Poll);
      ghost var r1 := Step(r, Action.Poll);
      StepKeeps(r1, LoadTail);
      if r1.consumer.NeedTail? { NullMeansEmpty(r1); } else { HeldPrefix(r1); }
      var head: int, tail: int := headPosition, tailCachePosition;
      if 0 >= tail - head {
        tail := tailPosition;
        if 0 >= tail - head {
          consumer := Resting;
          return None;
        }
        tailCachePosition := tail;
        seen := |published|;
      }
      consumer := Reading([]);
      return Some(ConsumerIndex(head, capacity));
    }

    /** One byte read from the record that poll returned. */
    method ReadByte(record: nat, got: Text) returns (got': Text)
      requires Valid() && consumer == Reading(got) && !ReadAll(got) && record == ConsumerIndex(headPosition, capacity)
      modifies `consumer
      ensures Valid() && State() == Step(old(State()), Read)
      ensures consumer == Reading(got') && |got'| == |got| + 1
    {
      hide Inv, ReadAll, Encoded, ConsumerIndex;
      StepKeeps(State(), Read);
      InvCapacity(State());
      assert Region(buffer[..], record + |got|, 1) == [buffer[Slot(record + |got|, buffer.Length)]];
      got' := got + [buffer[Slot(record + |got|, buffer.Length)]];
      consumer := Reading(got');
    }

    /** The consumer's reads of the record that poll returned. */
    method ReadRecord(record: nat) returns (data: Text)
      requires Valid() && consumer == Reading([]) && record == ConsumerIndex(headPosition, capacity)
      modifies `consumer
      ensures Valid() && consumer.Reading? && ReadAll(consumer.got)
      ensures |consumed| < |published| && data == published[|consumed|]
    {
      hide Inv, ReadAll, Encoded, Step, ConsumerIndex;
      var got: Text := [];
      HeldPrefix(State());
      ghost var next := published[|consumed|];
      EncodedParts(next);
      while !ReadAll(got)
        invariant Valid() && consumer == Reading(got)
        invariant |consumed| < |published| && next == published[|consumed|] && got <= Encoded(next)
        decreases |Encoded(next)| - |got|
      {
        got := ReadByte(record, got);
        HeldPrefix(State());
      }
      NotAllRead(next, got);
      data := got[RECORD_HEADER..];
    }

    /** vmars_spsc_rb_release */
    method Release(toRelease: nat) returns (result: int)
      requires Valid() && consumer.Reading?
      modifies `headPosition, `consumer, `consumed
      ensures Valid()
      ensures result == if toRelease == ConsumerIndex(old(headPosition), capacity) then 0 else EINVAL
      ensures State() == if result == 0 then Step(old(State()), Action.Release) else old(State())
      ensures result == 0 ==> consumed == published[..old(|consumed|) + 1]
    {
      hide Inv, LengthAt, Region, ConsumerIndex, EncodeAll;
      InvCapacity(State());
      ReleaseKeeps(State());
      var head := headPosition;
      var headIndex := ConsumerIndex(head, capacity);
      if toRelease != headIndex {
        return EINVAL;
      }
      var length := LoadLength(toRelease);
      headPosition := head + RECORD_HEADER + length;
      consumed := consumed + [Region(buffer[..], toRelease + RECORD_HEADER, length)];
      consumer := Resting;
      return 0;
    }
  }

  lemma InvCapacity(r: Ring)
    requires Inv(r)
    ensures |r.buf| == r.cap > 0
  {
  }

  lemma HeldPrefix(r: Ring)
    requires Inv(r) && r.consumer.Reading?
    ensures |r.consumed| < |r.published| && r.consumer.got <= Encoded(r.published[|r.consumed|])
    ensures |r.published[|r.consumed|]| <= MAX_CAPACITY
  {
  }
}
