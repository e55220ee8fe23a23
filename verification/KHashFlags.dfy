/** The hash table's flag macros: two bits a bucket, sixteen buckets to a 32-bit word. */
module KHashFlags {

  /** The state of one bucket: the two bits kept for it. */
  datatype Flag = Flag(isEmpty: bool, isDel: bool) {
    predicate IsEither() {
      isEmpty || isDel
    }
  }

  const EMPTY := Flag(true, false)
  const LIVE := Flag(false, false)

  type Words = seq<bv32>

  // ----- One word

  function ShiftOf(i: bv32): bv32 {
    (i & 0xf) << 1
  }

  predicate EmptyBit(w: bv32, i: bv32) {
    (w >> ShiftOf(i)) & 2 != 0
  }

  predicate DelBit(w: bv32, i: bv32) {
    (w >> ShiftOf(i)) & 1 != 0
  }

  predicate EitherBit(w: bv32, i: bv32) {
    (w >> ShiftOf(i)) & 3 != 0
  }

  function WithDel(w: bv32, i: bv32): bv32 {
    w | (1 << ShiftOf(i))
  }

  function WithoutEmpty(w: bv32, i: bv32): bv32 {
    w & !(2 << ShiftOf(i))
  }

  function WithoutBoth(w: bv32, i: bv32): bv32 {
    w & !(3 << ShiftOf(i))
  }

  lemma WithDelBits(w: bv32, i: bv32, j: bv32)
    ensures EmptyBit(WithDel(w, i), j) == EmptyBit(w, j)
    ensures DelBit(WithDel(w, i), j) == (ShiftOf(i) == ShiftOf(j) || DelBit(w, j))
  {
  }

  lemma WithoutEmptyBits(w: bv32, i: bv32, j: bv32)
    ensures EmptyBit(WithoutEmpty(w, i), j) == (ShiftOf(i) != ShiftOf(j) && EmptyBit(w, j))
    ensures DelBit(WithoutEmpty(w, i), j) == DelBit(w, j)
  {
  }

  lemma WithoutBothBits(w: bv32, i: bv32, j: bv32)
    ensures EmptyBit(WithoutBoth(w, i), j) == (ShiftOf(i) != ShiftOf(j) && EmptyBit(w, j))
    ensures DelBit(WithoutBoth(w, i), j) == (ShiftOf(i) != ShiftOf(j) && DelBit(w, j))
  {
  }

  lemma EitherBits(w: bv32, i: bv32)
    ensures EitherBit(w, i) == (EmptyBit(w, i) || DelBit(w, i))
    ensures w == 0xaaaa_aaaa ==> EmptyBit(w, i) && !DelBit(w, i)
  {
  }

  lemma SameShift(i: bv32, j: bv32)
    ensures i >> 4 == j >> 4 && ShiftOf(i) == ShiftOf(j) ==> i == j
  {
  }

  // ----- The array of words

  function WordOf(i: bv32): nat {
    (i >> 4) as nat
  }

  /** Bucket i has a word. */
  predicate Has(f: Words, i: bv32) {
    WordOf(i) < |f|
  }

  predicate IsEither(f: Words, i: bv32)
    requires Has(f, i)
  {
    EitherBit(f[WordOf(i)], i)
  }

  function SetIsEmptyFalse(f: Words, i: bv32): Words
    requires Has(f, i)
  {
    f[WordOf(i) := WithoutEmpty(f[WordOf(i)], i)]
  }

  function SetIsBothFalse(f: Words, i: bv32): Words
    requires Has(f, i)
  {
    f[WordOf(i) := WithoutBoth(f[WordOf(i)], i)]
  }

  function SetIsDelTrue(f: Words, i: bv32): Words
    requires Has(f, i)
  {
    f[WordOf(i) := WithDel(f[WordOf(i)], i)]
  }

  /** What isempty and isdel say of bucket i. */
  function View(f: Words, i: bv32): Flag
    requires Has(f, i)
  {
    Flag(EmptyBit(f[WordOf(i)], i), DelBit(f[WordOf(i)], i))
  }

  lemma SameNumber(x: bv32, y: bv32)
    requires x as nat == y as nat
    ensures x == y
  {
    assert x == (x as nat) as bv32;
    assert y == (y as nat) as bv32;
  }

  /** Two buckets share both word and shift only when they are the same bucket. */
  lemma SlotUnique(i: bv32, j: bv32)
    ensures WordOf(i) == WordOf(j) && ShiftOf(i) == ShiftOf(j) ==> i == j
  {
    hide ShiftOf;
    SameShift(i, j);
    if WordOf(i) == WordOf(j) {
      SameNumber(i >> 4, j >> 4);
    }
  }

  /** Marking bucket i deleted changes one bit of bucket i and nothing of any other bucket. */
  lemma SetIsDelTrueRefines(f: Words, i: bv32, j: bv32)
    requires Has(f, i) && Has(f, j)
    ensures View(SetIsDelTrue(f, i), j) == if i == j then View(f, i).(isDel := true) else View(f, j)
  {
    hide EmptyBit, DelBit, WithDel, WordOf, ShiftOf;
    SlotUnique(i, j);
    WithDelBits(f[WordOf(i)], i, j);
  }

  /** Clearing the empty bit of bucket i changes that bit alone. */
  lemma SetIsEmptyFalseRefines(f: Words, i: bv32, j: bv32)
    requires Has(f, i) && Has(f, j)
    ensures View(SetIsEmptyFalse(f, i), j) == if i == j then View(f, i).(isEmpty := false) else View(f, j)
  {
    hide EmptyBit, DelBit, WithoutEmpty, WordOf, ShiftOf;
    SlotUnique(i, j);
    WithoutEmptyBits(f[WordOf(i)], i, j);
  }

  /** Clearing both bits makes bucket i live and leaves the others alone. */
  lemma SetIsBothFalseRefines(f: Words, i: bv32, j: bv32)
    requires Has(f, i) && Has(f, j)
    ensures View(SetIsBothFalse(f, i), j) == if i == j then LIVE else View(f, j)
  {
    hide EmptyBit, DelBit, WithoutBoth, WordOf, ShiftOf;
    SlotUnique(i, j);
    WithoutBothBits(f[WordOf(i)], i, j);
  }

  /** The three-way test agrees with the two bits, and words filled with 0xaa make every bucket empty. */
  lemma IsEitherRefines(f: Words, i: bv32)
    requires Has(f, i)
    ensures IsEither(f, i) == View(f, i).IsEither()
    ensures f[WordOf(i)] == 0xaaaa_aaaa ==> View(f, i) == EMPTY
  {
    hide EmptyBit, DelBit, EitherBit, WordOf;
    EitherBits(f[WordOf(i)], i);
  }
}
