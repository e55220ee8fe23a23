/**
 The single-producer single-consumer ring buffer as a transition system: every access to a shared
 position or byte is a step of its own, and the two sides interleave freely.
 */
module SpscRing {
  import opened Bits
  import opened Bytes

  /** sizeof(vmars_rb_record_t): the length field in front of the data. */
  const RECORD_HEADER := 4

  const MAX_CAPACITY := 0x4000_0000

  // ----- Machine integers

  /** Conversion to int32_t. */
  function ToInt32(x: int): int {
    if x % TWO32 < 0x8000_0000 then x % TWO32 else x % TWO32 - TWO32
  }

  /** Conversion to size_t. */
  function ToSizeT(x: int): nat {
    x % TWO64
  }

  /** Where the producer writes: (size_t)tail & (capacity - 1). */
  function ProducerIndex(tail: nat, cap: nat): nat
    requires cap > 0
  {
    BitAnd(ToSizeT(tail), cap - 1)
  }

  /** Where the consumer reads: (int32_t)head & (capacity - 1). */
  function ConsumerIndex(head: nat, cap: nat): nat
    requires cap > 0
  {
    BitAnd(ToSizeT(ToInt32(head)), cap - 1)
  }

  ghost predicate GoodCapacity(cap: nat) {
    0 < cap <= MAX_CAPACITY && IsPow2(cap)
  }

  lemma {:induction false} ModOfMod(x: int, k: nat, w: nat)
    requires k <= w
    ensures x % Pow2(w) % Pow2(k) == x % Pow2(k)
  {
    hide Pow2;
    var a, b := Pow2(k), Pow2(w - k);
    Pow2Add(k, w - k);
    var q, r := x / Pow2(w), x % Pow2(w);
    ModShift(r, a, b * q);
    MulAssoc(a, b, q);
    assert x == r + a * (b * q);
  }

  lemma MulAssoc(a: int, b: int, c: int)
    ensures a * b * c == a * (b * c)
  {
  }

  lemma ModShift(r: int, a: nat, q: int)
    requires a > 0
    ensures (r + a * q) % a == r % a
  {
    assert r + a * q == a * (r / a) + r % a + a * q == a * (r / a + q) + r % a;
    ModUnique(r + a * q, a, r / a + q, r % a);
  }

  lemma TwoPowers()
    ensures Pow2(30) == MAX_CAPACITY && Pow2(31) == 2 * MAX_CAPACITY && Pow2(32) == TWO32 && Pow2(64) == TWO64
  {
    assert Pow2(10) == 1024;
    Pow2Add(10, 10);
    Pow2Add(20, 10);
    Pow2Add(32, 32);
  }

  lemma SizeTMod(x: int, k: nat)
    requires k <= 64
    ensures ToSizeT(x) % Pow2(k) == x % Pow2(k)
  {
    TwoPowers();
    ModOfMod(x, k, 64);
  }

  lemma Int32Mod(x: int, k: nat)
    requires k <= 32
    ensures ToInt32(x) % Pow2(k) == x % Pow2(k)
  {
    TwoPowers();
    ModOfMod(x, k, 32);
    var a, b: int := Pow2(k), Pow2(32 - k);
    Pow2Add(k, 32 - k);
    var y := x % TWO32;
    ModShift(y, a, 0 - b);
    assert y - TWO32 == y + a * (0 - b) by { MulNeg(a, b); }
  }

  lemma MulNeg(a: int, b: int)
    ensures a * (0 - b) == -(a * b)
  {
  }

  lemma CapacityExponent(cap: nat) returns (k: nat)
    requires GoodCapacity(cap)
    ensures k <= 30 && cap == Pow2(k)
  {
    k :| cap == Pow2(k);
    TwoPowers();
    if k > 30 { Pow2Mono(31, k); }
  }

  /** Both masks, the one after truncation to 32 bits included, are the position modulo the capacity. */
  lemma IndexAgreement(position: nat, cap: nat)
    requires GoodCapacity(cap)
    ensures ProducerIndex(position, cap) == ConsumerIndex(position, cap) == position % cap == Slot(position, cap)
  {
    var k := CapacityExponent(cap);
    hide ToSizeT, ToInt32;
    MaskIsMod(ToSizeT(position), k);
    MaskIsMod(ToSizeT(ToInt32(position)), k);
    SizeTMod(position, k);
    SizeTMod(ToInt32(position), k);
    Int32Mod(position, k);
  }

  /** is_power_of_two: value & (~value + 1) in 64 bits. */
  predicate IsPowerOfTwo(value: nat) {
    value > 0 && BitAnd(value, ToSizeT(ToSizeT(-1 - value) + 1)) == value
  }

  lemma PowerOfTwoTest(value: nat)
    requires value < TWO64
    ensures IsPowerOfTwo(value) <==> IsPow2(value)
  {
    hide Pow2, IsPow2, BitAnd;
    TwoPowers();
    if value > 0 {
      IsolatedLowestBit(value, 64);
      assert ToSizeT(-1 - value) == TWO64 - 1 - value;
    } else {
      Pow2NotZero();
    }
  }

  /** The guard of vmars_spsc_rb_init: EINVAL only for multiples of the page size that are not powers of two. */
  predicate InitAccepts(capacity: nat, pageSize: nat)
    requires pageSize > 0
  {
    !(!IsPowerOfTwo(capacity) && BitAnd(pageSize - 1, capacity) == 0)
  }

  /** The guard lets other capacities through, and for those the mask is not the remainder. */
  lemma InitGap()
    ensures InitAccepts(3, 4096) && !IsPow2(3)
    ensures exists x: nat :: BitAnd(x, 3 - 1) != x % 3
  {
    assert BitAnd(4095, 3) % 2 == 1;
    OddPow2(3);
    MaskIsModIffPow2(3);
  }

  /** The capacities that get past the guard: powers of two, and every number that is no multiple of the page size. */
  lemma InitAcceptsExactly(capacity: nat, pageSize: nat)
    requires capacity < TWO64 && IsPow2(pageSize)
    ensures InitAccepts(capacity, pageSize) <==> IsPow2(capacity) || capacity % pageSize != 0
    ensures (InitAccepts(capacity, pageSize) ==> IsPow2(capacity)) <==> IsPow2(capacity) || capacity % pageSize == 0
  {
    var k: nat :| pageSize == Pow2(k);
    hide IsPow2, IsPowerOfTwo;
    PowerOfTwoTest(capacity);
    AndCommutes(pageSize - 1, capacity);
    MaskIsMod(capacity, k);
  }

  // ----- The shared state

  /** Where the producer is: idle, refused by its cached head, about to write the length, or filling the record. */
  datatype Producer = Idle | NeedHead(length: nat) | NeedLength(length: nat) | Filling(length: nat)

  /** Where the consumer is: idle, out of cached tail, or holding a record of which it has read `got`. */
  datatype Consumer = Resting | NeedTail | Reading(got: Text)

  /**
   The ring and the private state of both sides. `published` and `consumed` are the histories of
   records handed over and taken; `freed` and `seen` say how many records the cached head and tail account for.
   */
  datatype Ring = Ring(
    cap: nat, buf: Text,
    head: nat, tail: nat, headCache: nat, tailCache: nat,
    producer: Producer, consumer: Consumer,
    published: seq<Text>, consumed: seq<Text>, freed: nat, seen: nat)

  function Init(cap: nat, buf: Text): Ring {
    Ring(cap, buf, 0, 0, 0, 0, Idle, Resting, [], [], 0, 0)
  }

  /** The byte that address a of the doubled mapping stands for. */
  function Slot(a: nat, n: nat): (i: nat)
    requires n > 0
    ensures i < n
  {
    a % n
  }

  /** A byte written through the doubled mapping. */
  function Poke(buf: Text, a: nat, b: Byte): (r: Text)
    requires |buf| > 0
    ensures |r| == |buf|
  {
    buf[Slot(a, |buf|) := b]
  }

  function PokeAll(buf: Text, a: nat, s: Text): (r: Text)
    requires |buf| > 0
    ensures |r| == |buf|
    decreases |s|
  {
    if s == [] then buf else PokeAll(Poke(buf, a, s[0]), a + 1, s[1..])
  }

  /** The n bytes read from address a on. */
  function Region(buf: Text, a: nat, n: nat): (r: Text)
    requires |buf| > 0
    ensures |r| == n
  {
    seq(n, i requires 0 <= i < n => buf[Slot(a + i, |buf|)])
  }

  /** The length field of the record at address a. */
  function LengthAt(buf: Text, a: nat): nat
    requires |buf| > 0
  {
    FromLE(Region(buf, a, RECORD_HEADER))
  }

  datatype Action =
    | Claim(length: nat) | LoadHead | WriteLength | WriteByte(off: nat, b: Byte) | Publish
    | Poll | LoadTail | Read | Release

  /** claim up to the test of the cached head. */
  function StepClaim(r: Ring, length: nat): Ring {
    var required := length + RECORD_HEADER;
    var available := ToInt32(r.cap) - ToInt32(r.tail - r.headCache);
    if length > r.cap then r
    else if ToInt32(required) > available then r.(producer := NeedHead(length))
    else r.(producer := NeedLength(length))
  }

  /** The slow path of claim: the shared head is loaded and tested. */
  function StepLoadHead(r: Ring): Ring
    requires r.producer.NeedHead?
  {
    var required := r.producer.length + RECORD_HEADER;
    if required > ToSizeT(r.cap - ToSizeT(r.tail - r.head)) then r.(producer := Idle)
    else r.(headCache := r.head, freed := |r.consumed|, producer := NeedLength(r.producer.length))
  }

  /** publish: the length is read back from the record and the tail moved behind it. */
  function StepPublish(r: Ring): Ring
    requires |r.buf| == r.cap > 0
  {
    var at := ProducerIndex(r.tail, r.cap);
    var length := LengthAt(r.buf, at);
    r.(tail := r.tail + length + RECORD_HEADER, producer := Idle,
       published := r.published + [Region(r.buf, at + RECORD_HEADER, length)])
  }

  /**
   release: the length is read from the record and the head moved behind it. The record consumed is the one
   that lies in the buffer then, whether or not the consumer has read all of it.
   */
  function StepRelease(r: Ring): Ring
    requires |r.buf| == r.cap > 0
  {
    var at := ConsumerIndex(r.head, r.cap);
    var length := LengthAt(r.buf, at);
    r.(head := r.head + RECORD_HEADER + length, consumer := Resting,
       consumed := r.consumed + [Region(r.buf, at + RECORD_HEADER, length)])
  }

  /** The consumer has read the whole record it holds. */
  predicate ReadAll(got: Text) {
    |got| >= RECORD_HEADER && |got| == RECORD_HEADER + FromLE(got[..RECORD_HEADER])
  }

  /** One step of either side; an action that is not enabled does nothing. */
  function Step(r: Ring, a: Action): Ring
    requires |r.buf| == r.cap > 0
  {
    match a
    case Claim(length) => if r.producer.Idle? then StepClaim(r, length) else r
    case LoadHead => if r.producer.NeedHead? then StepLoadHead(r) else r
    case WriteLength =>
      if r.producer.NeedLength? then
        r.(buf := PokeAll(r.buf, ProducerIndex(r.tail, r.cap), LE(r.producer.length, RECORD_HEADER)),
           producer := Filling(r.producer.length))
      else r
    case WriteByte(off, b) =>
      if r.producer.Filling? && off < r.producer.length then
        r.(buf := Poke(r.buf, ProducerIndex(r.tail, r.cap) + RECORD_HEADER + off, b))
      else r
    case Publish => if r.producer.Filling? then StepPublish(r) else r
    case Poll =>
      if r.consumer.NeedTail? then r
      else if 0 >= r.tailCache - r.head then r.(consumer := NeedTail)
      else r.(consumer := Reading([]))
    case LoadTail =>
      if !r.consumer.NeedTail? then r
      else if 0 >= r.tail - r.head then r.(consumer := Resting)
      else r.(tailCache := r.tail, seen := |r.published|, consumer := Reading([]))
    case Read =>
      if r.consumer.Reading? && !ReadAll(r.consumer.got) then
        r.(consumer := Reading(r.consumer.got + Region(r.buf, ConsumerIndex(r.head, r.cap) + |r.consumer.got|, 1)))
      else r
    case Release => if r.consumer.Reading? then StepRelease(r) else r
  }

  // ----- The invariant

  /** A record as it lies in the buffer. */
  function Encoded(record: Text): Text {
    LE(|record|, RECORD_HEADER) + record
  }

  function EncodeAll(records: seq<Text>): Text {
    if records == [] then [] else Encoded(records[0]) + EncodeAll(records[1..])
  }

  /** The position of record number k. */
  function PositionOf(records: seq<Text>, k: nat): nat
    requires k <= |records|
  {
    |EncodeAll(records[..k])|
  }

  function Pending(r: Ring): seq<Text>
    requires |r.consumed| <= |r.published|
  {
    r.published[|r.consumed|..]
  }

  /** The positions are where the histories say, in the order in which each side may trail the other. */
  ghost predicate Positions(r: Ring) {
    && r.freed <= |r.consumed| <= r.seen <= |r.published|
    && r.consumed == r.published[..|r.consumed|]
    && r.headCache == PositionOf(r.published, r.freed)
    && r.head == PositionOf(r.published, |r.consumed|)
    && r.tailCache == PositionOf(r.published, r.seen)
    && r.tail == PositionOf(r.published, |r.published|)
    && r.tail <= r.headCache + r.cap
    && (forall i :: 0 <= i < |r.published| ==> |r.published[i]| <= r.cap)
  }

  /** The space a claimed record takes is free, and once its length is written it stays written. */
  ghost predicate Claimed(p: Producer, cap: nat, buf: Text, headCache: nat, tail: nat)
    requires |buf| == cap > 0
  {
    match p
    case Idle => true
    case NeedHead(length) => length <= cap
    case NeedLength(length) => length <= cap && tail + RECORD_HEADER + length <= headCache + cap
    case Filling(length) =>
      && length <= cap && tail + RECORD_HEADER + length <= headCache + cap
      && Region(buf, tail, RECORD_HEADER) == LE(length, RECORD_HEADER)
  }

  /** What the consumer holds is the first so many bytes of the record after the n it has consumed. */
  ghost predicate Held(c: Consumer, n: nat, seen: nat, published: seq<Text>) {
    match c
    case Reading(got) => n < seen <= |published| && got <= Encoded(published[n])
    case _ => true
  }

  ghost predicate Inv(r: Ring) {
    && GoodCapacity(r.cap) && |r.buf| == r.cap
    && Positions(r)
    && r.head <= r.tail && Region(r.buf, r.head, r.tail - r.head) == EncodeAll(Pending(r))
    && Claimed(r.producer, r.cap, r.buf, r.headCache, r.tail) && Held(r.consumer, |r.consumed|, r.seen, r.published)
  }

  // ----- Addresses

  lemma SlotAdd(x: nat, i: nat, n: nat)
    requires n > 0
    ensures Slot(Slot(x, n) + i, n) == Slot(x + i, n)
  {
    ModShift(x % n + i, n, x / n);
    assert x + i == x % n + i + n * (x / n);
  }

  /** Positions less than a capacity apart are different bytes. */
  lemma NoAlias(q: nat, p: nat, n: nat)
    requires q < p < q + n
    ensures Slot(q, n) != Slot(p, n)
  {
    var d := p / n - q / n;
    assert p - q == n * (p / n) + p % n - (n * (q / n) + q % n);
    assert n * (p / n) - n * (q / n) == n * d;
    if d <= 0 { MulMono(n, d, 0); } else { MulMono(n, 1, d); }
  }

  lemma RegionAt(buf: Text, a: nat, k: nat, n: nat)
    requires |buf| > 0
    ensures Region(buf, Slot(a, |buf|) + k, n) == Region(buf, a + k, n)
  {
    hide Slot;
    var x, y := Region(buf, Slot(a, |buf|) + k, n), Region(buf, a + k, n);
    forall i | 0 <= i < n ensures x[i] == y[i] {
      SlotAdd(a, k + i, |buf|);
    }
  }

  lemma RegionAppend(buf: Text, a: nat, m: nat, n: nat)
    requires |buf| > 0
    ensures Region(buf, a, m + n) == Region(buf, a, m) + Region(buf, a + m, n)
  {
    hide Slot;
  }

  lemma RegionPart(buf: Text, a: nat, n: nat, k: nat, j: nat)
    requires |buf| > 0 && k + j <= n
    ensures Region(buf, a, n)[k..k + j] == Region(buf, a + k, j)
  {
    hide Slot;
  }

  /** Writing past a region, less than a capacity from its start, leaves it alone. */
  lemma RegionPoke(buf: Text, a: nat, n: nat, p: nat, b: Byte)
    requires |buf| > 0 && a + n <= p < a + |buf|
    ensures Region(Poke(buf, p, b), a, n) == Region(buf, a, n)
  {
    hide Slot;
    var x, y := Region(Poke(buf, p, b), a, n), Region(buf, a, n);
    forall i | 0 <= i < n ensures x[i] == y[i] {
      NoAlias(a + i, p, |buf|);
    }
  }

  lemma {:induction false} RegionPokeAll(buf: Text, a: nat, n: nat, p: nat, s: Text)
    requires |buf| > 0 && a + n <= p && p + |s| <= a + |buf|
    ensures Region(PokeAll(buf, p, s), a, n) == Region(buf, a, n)
    decreases |s|
  {
    hide Slot, Poke, Region;
    if s != [] {
      RegionPoke(buf, a, n, p, s[0]);
      RegionPokeAll(Poke(buf, p, s[0]), a, n, p + 1, s[1..]);
    }
  }

  lemma PokeReads(buf: Text, a: nat, b: Byte)
    requires |buf| > 0
    ensures Region(Poke(buf, a, b), a, 1) == [b]
  {
    hide Slot;
  }

  /** What is written through the mapping is what is read back, across the wrap too. */
  lemma {:induction false} PokeAllReads(buf: Text, a: nat, s: Text)
    requires 0 < |buf| && |s| <= |buf|
    ensures Region(PokeAll(buf, a, s), a, |s|) == s
    decreases |s|
  {
    if s != [] {
      hide Slot, Poke, Region;
      var buf' := Poke(buf, a, s[0]);
      PokeAllReads(buf', a + 1, s[1..]);
      RegionPokeAll(buf', a, 1, a + 1, s[1..]);
      RegionAppend(PokeAll(buf, a, s), a, 1, |s| - 1);
      PokeReads(buf, a, s[0]);
    }
  }

  lemma PokeAt(buf: Text, a: nat, k: nat, b: Byte)
    requires |buf| > 0
    ensures Poke(buf, Slot(a, |buf|) + k, b) == Poke(buf, a + k, b)
  {
    hide Slot;
    SlotAdd(a, k, |buf|);
  }

  lemma {:induction false} PokeAllAt(buf: Text, a: nat, k: nat, s: Text)
    requires |buf| > 0
    ensures PokeAll(buf, Slot(a, |buf|) + k, s) == PokeAll(buf, a + k, s)
    decreases |s|
  {
    hide Slot, Poke;
    if s != [] {
      PokeAt(buf, a, k, s[0]);
      PokeAllAt(Poke(buf, a + k, s[0]), a, k + 1, s[1..]);
    }
  }

  // ----- Histories

  lemma {:induction false} EncodeAllAppend(a: seq<Text>, b: seq<Text>)
    ensures EncodeAll(a + b) == EncodeAll(a) + EncodeAll(b)
  {
    if a == [] {
      assert a + b == b;
    } else {
      assert (a + b)[1..] == a[1..] + b;
      EncodeAllAppend(a[1..], b);
    }
  }

  lemma PositionNext(records: seq<Text>, k: nat)
    requires k < |records|
    ensures PositionOf(records, k + 1) == PositionOf(records, k) + |Encoded(records[k])|
  {
    assert records[..k + 1] == records[..k] + [records[k]];
    EncodeAllAppend(records[..k], [records[k]]);
    EncodeAllOne(records[k]);
  }

  lemma EncodeAllOne(record: Text)
    ensures EncodeAll([record]) == Encoded(record)
  {
    assert EncodeAll([record]) == Encoded(record) + EncodeAll([]);
  }

  lemma {:induction false} PositionMono(records: seq<Text>, i: nat, j: nat)
    requires i <= j <= |records|
    ensures PositionOf(records, i) <= PositionOf(records, j)
    ensures i < j ==> PositionOf(records, i) + |Encoded(records[i])| <= PositionOf(records, j)
    decreases j
  {
    if i < j {
      PositionMono(records, i, j - 1);
      PositionNext(records, j - 1);
    }
  }

  lemma LengthRoundTrip(n: nat)
    requires n <= MAX_CAPACITY
    ensures FromLE(LE(n, RECORD_HEADER)) == n
  {
    assert Pow256(4) == TWO32;
    LERoundTrip(n, RECORD_HEADER);
  }

  /** head_cache <= head <= tail_cache <= tail <= head_cache + capacity */
  lemma PositionOrder(r: Ring)
    requires Positions(r)
    ensures r.headCache <= r.head <= r.tailCache <= r.tail <= r.headCache + r.cap
  {
    PositionMono(r.published, r.freed, |r.consumed|);
    PositionMono(r.published, |r.consumed|, r.seen);
    PositionMono(r.published, r.seen, |r.published|);
  }

  // ----- Every step keeps the invariant

  lemma Int32Small(x: int)
    requires 0 <= x < 0x8000_0000
    ensures ToInt32(x) == x
  {
  }

  lemma ClaimKeeps(r: Ring, length: nat)
    requires Inv(r) && r.producer.Idle?
    ensures Inv(StepClaim(r, length))
  {
    hide Region, EncodeAll, PositionOf, Held, ToInt32, IsPow2;
    PositionOrder(r);
    if length <= r.cap {
      Int32Small(r.cap);
      Int32Small(length + RECORD_HEADER);
      Int32Small(r.tail - r.headCache);
    }
  }

  lemma LoadHeadKeeps(r: Ring)
    requires Inv(r) && r.producer.NeedHead?
    ensures Inv(StepLoadHead(r))
  {
    hide Region, EncodeAll, PositionOf, Held, IsPow2, ToSizeT;
    PositionOrder(r);
    SizeTSmall(r.tail - r.head);
    SizeTSmall(r.cap - (r.tail - r.head));
  }

  lemma SizeTSmall(x: int)
    requires 0 <= x < TWO64
    ensures ToSizeT(x) == x
  {
  }

  lemma WriteLengthKeeps(r: Ring)
    requires Inv(r) && r.producer.NeedLength?
    ensures Inv(Step(r, WriteLength))
  {
    hide Region, EncodeAll, PositionOf, Held, IsPow2, PokeAll, LE, ProducerIndex, ConsumerIndex;
    var s := LE(r.producer.length, RECORD_HEADER);
    PositionOrder(r);
    IndexAgreement(r.tail, r.cap);
    PokeAllAt(r.buf, r.tail, 0, s);
    RegionPokeAll(r.buf, r.head, r.tail - r.head, r.tail, s);
    PokeAllReads(r.buf, r.tail, s);
  }

  lemma WriteByteKeeps(r: Ring, off: nat, b: Byte)
    requires Inv(r) && r.producer.Filling? && off < r.producer.length
    ensures Inv(Step(r, WriteByte(off, b)))
  {
    hide Region, EncodeAll, PositionOf, Held, IsPow2, Poke, LE, ProducerIndex, ConsumerIndex, Slot;
    PositionOrder(r);
    IndexAgreement(r.tail, r.cap);
    PokeAt(r.buf, r.tail, RECORD_HEADER + off, b);
    RegionPoke(r.buf, r.head, r.tail - r.head, r.tail + RECORD_HEADER + off, b);
    RegionPoke(r.buf, r.tail, RECORD_HEADER, r.tail + RECORD_HEADER + off, b);
  }

  /** The bytes of a filled record, as publish and the consumer find them. */
  lemma RecordAt(buf: Text, at: nat, length: nat)
    requires 0 < |buf| <= MAX_CAPACITY && length <= MAX_CAPACITY
    requires Region(buf, at, RECORD_HEADER) == LE(length, RECORD_HEADER)
    ensures LengthAt(buf, Slot(at, |buf|)) == length
    ensures Encoded(Region(buf, Slot(at, |buf|) + RECORD_HEADER, length)) == Region(buf, at, RECORD_HEADER + length)
  {
    hide Region, Slot, LE;
    RegionAt(buf, at, 0, RECORD_HEADER);
    RegionAt(buf, at, RECORD_HEADER, length);
    RegionAppend(buf, at, RECORD_HEADER, length);
    LengthRoundTrip(length);
  }

  lemma PositionsAppend(r: Ring, record: Text)
    requires Positions(r) && |record| <= r.cap && r.tail + |Encoded(record)| <= r.headCache + r.cap
    ensures Positions(r.(published := r.published + [record], tail := r.tail + |Encoded(record)|))
    ensures (r.published + [record])[|r.consumed|..] == Pending(r) + [record]
  {
    hide EncodeAll;
    var published' := r.published + [record];
    assert forall k: nat :: k <= |r.published| ==> published'[..k] == r.published[..k];
    PositionNext(published', |r.published|);
  }

  lemma PublishKeeps(r: Ring)
    requires Inv(r) && r.producer.Filling?
    ensures var r' := StepPublish(r);
      && Inv(r')
      && r'.published == r.published + [Region(r.buf, r.tail + RECORD_HEADER, r.producer.length)]
      && r'.tail == r.tail + RECORD_HEADER + r.producer.length
  {
    hide Region, EncodeAll, PositionOf, IsPow2, LE, ProducerIndex, ConsumerIndex, Slot, LengthAt, Encoded;
    var length := r.producer.length;
    var record := Region(r.buf, r.tail + RECORD_HEADER, length);
    PositionOrder(r);
    IndexAgreement(r.tail, r.cap);
    RecordAt(r.buf, r.tail, length);
    RegionAt(r.buf, r.tail, RECORD_HEADER, length);
    PositionsAppend(r, record) by { EncodedSize(record); }
    EncodedSize(record);
    RegionAppend(r.buf, r.head, r.tail - r.head, RECORD_HEADER + length);
    EncodeAllAppend(Pending(r), [record]);
    EncodeAllOne(record);
    HeldStays(r, record);
  }

  lemma EncodedSize(record: Text)
    ensures |Encoded(record)| == RECORD_HEADER + |record|
  {
  }

  lemma HeldStays(r: Ring, record: Text)
    requires |r.consumed| <= |r.published| && Held(r.consumer, |r.consumed|, r.seen, r.published)
    ensures Held(r.consumer, |r.consumed|, r.seen, r.published + [record])
  {
  }

  lemma PollKeeps(r: Ring)
    requires Inv(r)
    ensures Inv(Step(r, Poll)) && Inv(Step(r, LoadTail))
  {
    hide Region, EncodeAll, IsPow2, LE, Claimed, Encoded;
    PositionOrder(r);
    PositionMono(r.published, |r.consumed|, r.seen);
    PositionMono(r.published, |r.consumed|, |r.published|);
    if |r.consumed| < |r.published| { EncodedSize(r.published[|r.consumed|]); }
  }

  /** The record at the head is the first pending one. */
  lemma HeadRecord(r: Ring)
    requires Inv(r) && |r.consumed| < |r.published|
    ensures var e := Encoded(r.published[|r.consumed|]);
      && Region(r.buf, r.head, |e|) == e
      && r.head + |e| <= r.tail
  {
    hide Region, IsPow2, LE, Claimed, Held, Encoded, PositionOf;
    var pending := Pending(r);
    assert EncodeAll(pending) == Encoded(pending[0]) + EncodeAll(pending[1..]);
    RegionPart(r.buf, r.head, r.tail - r.head, 0, |Encoded(pending[0])|);
  }

  lemma ReadKeeps(r: Ring)
    requires Inv(r) && r.consumer.Reading? && !ReadAll(r.consumer.got)
    ensures Inv(Step(r, Read))
  {
    hide Region, EncodeAll, PositionOf, IsPow2, LE, ConsumerIndex, ProducerIndex, Claimed, Slot, ReadAll, Encoded;
    var got, record := r.consumer.got, r.published[|r.consumed|];
    var e := Encoded(record);
    HeadRecord(r);
    IndexAgreement(r.head, r.cap);
    RegionAt(r.buf, r.head, |got|, 1);
    NotAllRead(record, got);
    RegionPart(r.buf, r.head, |e|, |got|, 1);
    assert e[..|got|] + e[|got|..|got| + 1] == e[..|got| + 1];
  }

  /** A prefix of a record that does not satisfy ReadAll is a proper prefix. */
  lemma NotAllRead(record: Text, got: Text)
    requires got <= Encoded(record) && |record| <= MAX_CAPACITY
    ensures ReadAll(got) <==> got == Encoded(record)
    ensures !ReadAll(got) ==> |got| < |Encoded(record)|
  {
    LengthRoundTrip(|record|);
    hide LE, FromLE;
    if |got| >= RECORD_HEADER {
      assert got[..RECORD_HEADER] == Encoded(record)[..RECORD_HEADER] == LE(|record|, RECORD_HEADER);
    }
  }

  /** Releasing the head record moves every count by one record. */
  lemma ReleaseKeeps(r: Ring)
    requires Inv(r) && r.consumer.Reading?
    ensures Inv(StepRelease(r))
    ensures StepRelease(r).consumed == r.published[..|r.consumed| + 1]
  {
    hide Region, PositionOf, IsPow2, LE, ConsumerIndex, ProducerIndex, Slot, ReadAll, Encoded, LengthAt;
    var record := r.published[|r.consumed|];
    var e := Encoded(record);
    PositionOrder(r);
    HeadRecord(r);
    IndexAgreement(r.head, r.cap);
    EncodedParts(record);
    RegionPart(r.buf, r.head, |e|, 0, RECORD_HEADER);
    RecordAt(r.buf, r.head, |record|);
    EncodedParts(Region(r.buf, Slot(r.head, r.cap) + RECORD_HEADER, |record|));
    PositionNext(r.published, |r.consumed|);
    assert Pending(r)[1..] == r.published[|r.consumed| + 1..];
    RegionPart(r.buf, r.head, r.tail - r.head, |e|, r.tail - r.head - |e|);
  }

  lemma EncodedParts(record: Text)
    ensures var e := Encoded(record);
      && |e| == RECORD_HEADER + |record| && e[0..RECORD_HEADER] == LE(|record|, RECORD_HEADER)
      && e[RECORD_HEADER..] == record
  {
    hide LE;
  }

  /** Any step of either side keeps the invariant. */
  lemma StepKeeps(r: Ring, a: Action)
    requires Inv(r)
    ensures Inv(Step(r, a))
  {
    match a
    case Claim(length) => if r.producer.Idle? { ClaimKeeps(r, length); }
    case LoadHead => if r.producer.NeedHead? { LoadHeadKeeps(r); }
    case WriteLength => if r.producer.NeedLength? { WriteLengthKeeps(r); }
    case WriteByte(off, b) => if r.producer.Filling? && off < r.producer.length { WriteByteKeeps(r, off, b); }
    case Publish => if r.producer.Filling? { PublishKeeps(r); }
    case Poll => PollKeeps(r);
    case LoadTail => PollKeeps(r);
    case Read => if r.consumer.Reading? && !ReadAll(r.consumer.got) { ReadKeeps(r); }
    case Release => if r.consumer.Reading? { ReleaseKeeps(r); }
  }

  // ----- Every interleaving

  function Run(r: Ring, actions: seq<Action>): Ring
    requires |r.buf| == r.cap > 0
    decreases |actions|
  {
    if actions == [] then r else
      StepBuffer(r, actions[0]);
      Run(Step(r, actions[0]), actions[1..])
  }

  lemma StepBuffer(r: Ring, a: Action)
    requires |r.buf| == r.cap > 0
    ensures Step(r, a).cap == r.cap && |Step(r, a).buf| == r.cap
  {
  }

  lemma InitHolds(cap: nat, buf: Text)
    requires GoodCapacity(cap) && |buf| == cap
    ensures Inv(Init(cap, buf))
  {
    var r := Init(cap, buf);
    assert PositionOf([], 0) == 0 && Pending(r) == [];
    assert Region(buf, 0, 0) == [];
  }

  lemma {:induction false} RunKeeps(r: Ring, actions: seq<Action>)
    requires Inv(r)
    ensures Inv(Run(r, actions))
    decreases |actions|
  {
    if actions != [] {
      StepKeeps(r, actions[0]);
      RunKeeps(Step(r, actions[0]), actions[1..]);
    }
  }

  /**
   For every interleaving of the steps of producer and consumer: the records consumed are, byte for
   byte, the first of the records published; the positions stay ordered; and a record being written
   never shares a byte with what is published and not yet released.
   */
  lemma EveryInterleaving(cap: nat, buf: Text, actions: seq<Action>)
    requires GoodCapacity(cap) && |buf| == cap
    ensures var r := Run(Init(cap, buf), actions);
      && r.consumed <= r.published
      && r.headCache <= r.head <= r.tailCache <= r.tail <= r.headCache + cap
      && (r.producer.NeedLength? || r.producer.Filling? ==>
            forall q: nat, p: nat :: r.head <= q < r.tail <= p < r.tail + RECORD_HEADER + r.producer.length ==>
              Slot(q, cap) != Slot(p, cap))
  {
    InitHolds(cap, buf);
    RunKeeps(Init(cap, buf), actions);
    var r := Run(Init(cap, buf), actions);
    RunCapacity(Init(cap, buf), actions);
    PositionOrder(r);
    if r.producer.NeedLength? || r.producer.Filling? {
      forall q: nat, p: nat | r.head <= q < r.tail <= p < r.tail + RECORD_HEADER + r.producer.length
        ensures Slot(q, cap) != Slot(p, cap)
      {
        NoAlias(q, p, cap);
      }
    }
  }

  lemma {:induction false} RunCapacity(r: Ring, actions: seq<Action>)
    requires |r.buf| == r.cap > 0
    ensures Run(r, actions).cap == r.cap && |Run(r, actions).buf| == r.cap
    decreases |actions|
  {
    if actions != [] {
      StepBuffer(r, actions[0]);
      RunCapacity(Step(r, actions[0]), actions[1..]);
    }
  }

  /** What the consumer has read of a record, at any point of any interleaving, is what was published. */
  lemma ReadsArePublished(cap: nat, buf: Text, actions: seq<Action>)
    requires GoodCapacity(cap) && |buf| == cap
    ensures var r := Run(Init(cap, buf), actions);
      r.consumer.Reading? ==> |r.consumed| < |r.published| && r.consumer.got <= Encoded(r.published[|r.consumed|])
  {
    InitHolds(cap, buf);
    RunKeeps(Init(cap, buf), actions);
  }

  /**
   Honest refusal: claim gives up at its first test only on a record longer than the ring, and at the
   second exactly when the record does not fit beside what the freshly loaded head leaves unreleased.
   */
  lemma HonestRefusal(r: Ring, length: nat)
    requires Inv(r) && r.producer.Idle?
    ensures StepClaim(r, length).producer.Idle? <==> length > r.cap
    ensures StepClaim(r, length).producer.NeedHead? ==> length + RECORD_HEADER > r.cap - (r.tail - r.headCache)
    ensures StepClaim(r, length).producer.NeedLength? ==> length + RECORD_HEADER <= r.cap - (r.tail - r.head)
  {
    PositionOrder(r);
    if length <= r.cap {
      Int32Small(r.cap);
      Int32Small(length + RECORD_HEADER);
      Int32Small(r.tail - r.headCache);
    }
  }

  lemma HonestRefusalAtHead(r: Ring)
    requires Inv(r) && r.producer.NeedHead?
    ensures StepLoadHead(r).producer.Idle? <==> r.producer.length + RECORD_HEADER > r.cap - (r.tail - r.head)
  {
    PositionOrder(r);
    SizeTSmall(r.tail - r.head);
    SizeTSmall(r.cap - (r.tail - r.head));
  }

  /** The consumer is told that nothing is there exactly when it has consumed all that is published. */
  lemma NullMeansEmpty(r: Ring)
    requires Inv(r) && r.consumer.NeedTail?
    ensures Step(r, LoadTail).consumer.Resting? <==> r.consumed == r.published
  {
    hide EncodeAll;
    PositionMono(r.published, |r.consumed|, |r.published|);
    if |r.consumed| < |r.published| { EncodedSize(r.published[|r.consumed|]); }
  }
}
