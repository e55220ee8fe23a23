/** kroundup32: the bit-smearing macro, and the least power of two that it computes. */
module RoundUps {
  import opened Bits

  /** The least power of two that is not below x, and 0 for 0. */
  function RoundUp(x: nat): nat {
    if x <= 1 then x else 2 * RoundUp((x + 1) / 2)
  }

  lemma {:induction false} RoundUpIsPow2(x: nat)
    requires x > 0
    ensures x <= RoundUp(x) < 2 * x && IsPow2(RoundUp(x))
  {
    hide IsPow2;
    if x == 1 {
      OddPow2(1);
    } else {
      var r := RoundUp((x + 1) / 2);
      RoundUpIsPow2((x + 1) / 2);
      Pow2Half(2 * r);
      if x == r { OddPow2(x); }
    }
  }

  lemma {:induction false} RoundUpIsLeast(x: nat, k: nat)
    requires x <= Pow2(k)
    ensures RoundUp(x) <= Pow2(k)
  {
    if x > 1 {
      RoundUpIsLeast((x + 1) / 2, k - 1);
    }
  }

  // ----- The bitwise OR of naturals, and shifts as divisions

  function BitOr(x: nat, y: nat): nat {
    if x == 0 && y == 0 then 0
    else 2 * BitOr(x / 2, y / 2) + (if x % 2 == 1 || y % 2 == 1 then 1 else 0)
  }

  lemma OrStep(x: nat, y: nat)
    ensures BitOr(x, y) == 2 * BitOr(x / 2, y / 2) + (if x % 2 == 1 || y % 2 == 1 then 1 else 0)
  {
  }

  lemma {:induction false} OrZero(x: nat)
    ensures BitOr(x, 0) == x
  {
    if x > 0 { OrZero(x / 2); }
  }

  lemma DivIsNat(x: nat, p: nat)
    requires p > 0
    ensures x / p >= 0
  {
  }

  /** x >> j */
  function Shift(x: nat, j: nat): nat {
    DivIsNat(x, Pow2(j));
    x / Pow2(j)
  }

  lemma DivTwice(x: nat, a: nat, b: nat)
    requires a > 0 && b > 0
    ensures a * b > 0 && x / a / b == x / (a * b)
  {
    MulMono(a, 1, b);
    var q := x / a;
    var r := x % a + a * (q % b);
    assert x == a * q + x % a && q == b * (q / b) + q % b;
    assert a * q == a * (b * (q / b)) + a * (q % b);
    assert a * (b * (q / b)) == (a * b) * (q / b);
    MulMono(a, q % b, b - 1);
    assert r < a * b;
    ModUnique(x, a * b, q / b, r);
  }

  lemma ShiftTwice(x: nat, i: nat, j: nat)
    ensures Shift(Shift(x, i), j) == Shift(x, i + j)
  {
    hide Pow2;
    Pow2Add(i, j);
    DivTwice(x, Pow2(i), Pow2(j));
  }

  lemma OrHalf(x: nat, y: nat)
    ensures BitOr(x, y) / 2 == BitOr(x / 2, y / 2)
  {
    hide BitOr;
    OrStep(x, y);
  }

  lemma ShiftStep(x: nat, j: nat)
    ensures Shift(x, 0) == x && (j > 0 ==> Shift(x, j) == Shift(x / 2, j - 1))
  {
    hide Pow2;
    Pow2Step(j);
    if j > 0 { DivTwice(x, 2, Pow2(j - 1)); }
  }

  lemma {:induction false} OrShift(x: nat, y: nat, j: nat)
    ensures Shift(BitOr(x, y), j) == BitOr(Shift(x, j), Shift(y, j))
  {
    hide BitOr, Shift;
    ShiftStep(BitOr(x, y), j);
    ShiftStep(x, j);
    ShiftStep(y, j);
    if j > 0 {
      OrHalf(x, y);
      OrShift(x / 2, y / 2, j - 1);
    }
  }

  /** Setting the low s bits. */
  lemma {:induction false} OrLow(a: nat, r: nat, s: nat)
    requires r < Pow2(s)
    ensures BitOr(a * Pow2(s) + r, Pow2(s) - 1) == a * Pow2(s) + Pow2(s) - 1
  {
    hide BitOr, Pow2;
    Pow2Step(s);
    if s == 0 {
      OrZero(a);
    } else {
      var p := Pow2(s - 1);
      var x := a * (2 * p) + r;
      assert a * (2 * p) == 2 * (a * p);
      OrStep(x, 2 * p - 1);
      AllOnesHalf(p);
      assert x / 2 == a * p + r / 2;
      OrLow(a, r / 2, s - 1);
    }
  }

  lemma OnesShift(m: nat, s: nat)
    requires s <= m
    ensures Shift(Pow2(m) - 1, m - s) == Pow2(s) - 1
  {
    hide Pow2, Shift;
    var n := m - s;
    Pow2Add(n, s);
    OnesQuotient(Pow2(n), Pow2(s));
    ShiftIs(Pow2(m) - 1, n, Pow2(n));
  }

  lemma ShiftIs(x: nat, j: nat, p: nat)
    requires p == Pow2(j)
    ensures Shift(x, j) == x / p
  {
  }

  lemma OnesQuotient(b: nat, c: nat)
    requires b > 0 && c > 0
    ensures b * c > 0 && (b * c - 1) / b == c - 1
  {
    assert b * (c - 1) == b * c - b;
    MulMono(b, 1, c);
    ModUnique(b * c - 1, b, c - 1, b - 1);
  }

  // ----- Smearing

  /** y has w bits, the first m of them set. */
  predicate TopOnes(y: nat, w: nat, m: nat) {
    m <= w && Shift(y, w - m) == Pow2(m) - 1
  }

  /** y |= y >> m doubles the run of ones at the top. */
  lemma SmearGrows(y: nat, w: nat, m: nat)
    requires TopOnes(y, w, m)
    ensures TopOnes(BitOr(y, Shift(y, m)), w, if 2 * m <= w then 2 * m else w)
  {
    hide BitOr, Pow2, Shift;
    var n := w - m;
    var s := if m <= n then m else n;
    var t := n - s;
    var z := Shift(y, t);
    OrShift(y, Shift(y, m), t);
    ShiftTwice(y, m, t);
    ShiftTwice(y, n, m - s);
    OnesShift(m, s);
    assert Shift(y, m + t) == Pow2(s) - 1;
    ShiftTwice(y, t, s);
    OrOnes(z, m, s);
  }

  lemma OrOnes(z: nat, m: nat, s: nat)
    requires Shift(z, s) == Pow2(m) - 1
    ensures BitOr(z, Pow2(s) - 1) == Pow2(m + s) - 1
  {
    hide BitOr, Pow2;
    var p, q := Pow2(s), Pow2(m);
    OrLow(q - 1, z % p, s);
    Pow2Add(m, s);
    assert (q - 1) * p == q * p - p;
    assert z == p * (q - 1) + z % p;
  }

  lemma Smear(y: nat, w: nat, m: nat)
    requires TopOnes(y, w, if m <= w then m else w)
    ensures TopOnes(BitOr(y, Shift(y, m)), w, if 2 * m <= w then 2 * m else w)
  {
    hide BitOr, TopOnes, Pow2;
    if m <= w {
      SmearGrows(y, w, m);
    } else {
      AllOnes(y, w);
      Pow2Mono(w, m);
      assert Shift(y, m) == 0 by { ModUnique(y, Pow2(m), 0, y); }
      OrZero(y);
    }
  }

  lemma TopBit(x: nat, w: nat)
    requires w > 0 && Pow2(w - 1) <= x < Pow2(w)
    ensures TopOnes(x, w, 1)
  {
    ModUnique(x, Pow2(w - 1), 1, x - Pow2(w - 1));
  }

  lemma Widths()
    ensures Pow2(1) == 2 && Pow2(2) == 4 && Pow2(4) == 16 && Pow2(8) == 256 && Pow2(16) == 0x1_0000 && Pow2(32) == TWO32
  {
    Pow2Add(8, 8);
    Pow2Add(16, 16);
  }

  /** The number of bits of x - 1. */
  lemma Width(x: nat) returns (w: nat)
    requires 2 <= x <= TWO32
    ensures 0 < w <= 32 && RoundUp(x) == Pow2(w) && Pow2(w - 1) <= x - 1 < Pow2(w)
  {
    RoundUpIsPow2(x);
    Widths();
    RoundUpIsLeast(x, 32);
    w :| RoundUp(x) == Pow2(w);
    hide RoundUp, Pow2;
    Pow2Step(w);
    if w > 32 {
      Pow2Step(33);
      Pow2Mono(33, w);
    }
  }

  /** Unsigned 32-bit decrement and increment. */
  function Decrement(x: nat): (r: nat)
    requires x < TWO32
    ensures r < TWO32
  {
    if x == 0 then TWO32 - 1 else x - 1
  }

  function Increment(x: nat): nat
    requires x < TWO32
  {
    if x == TWO32 - 1 then 0 else x + 1
  }

  /** kroundup32 on a 32-bit unsigned integer, with its wrap-around. */
  method RoundUp32(x0: nat) returns (x: nat)
    requires x0 < TWO32
    ensures x == RoundUp(x0) % TWO32
  {
    hide BitOr, Shift, RoundUp;
    x := Decrement(x0);
    Smeared(x0);
    x := BitOr(x, Shift(x, 1));
    x := BitOr(x, Shift(x, 2));
    x := BitOr(x, Shift(x, 4));
    x := BitOr(x, Shift(x, 8));
    x := BitOr(x, Shift(x, 16));
    x := Increment(x);
  }

  /** The width of the number to be smeared; zero wraps to 32 ones. */
  lemma Start(x: nat) returns (w: nat)
    requires x < TWO32 && x != 1
    ensures 0 < w <= 32 && TopOnes(Decrement(x), w, 1)
    ensures Pow2(w) <= TWO32 && Increment(Pow2(w) - 1) == RoundUp(x) % TWO32
  {
    assert RoundUp(0) == 0;
    Widths();
    hide TopOnes, RoundUp, Pow2;
    w := 32;
    Pow2Step(32);
    if x == 0 {
      TopBit(TWO32 - 1, 32);
    } else {
      w := Width(x);
      TopBit(x - 1, w);
      Pow2Mono(w, 32);
    }
  }

  /** The 32-bit result is a power of two that is not below the request exactly for requests from 1 to 2^31. */
  lemma RoundUp32Exact(x: nat)
    requires x < TWO32
    ensures RoundUp(x) % TWO32 >= x && IsPow2(RoundUp(x) % TWO32) <==> 0 < x <= 0x8000_0000
  {
    hide IsPow2, RoundUp;
    Pow2NotZero();
    RoundUpZero();
    if 0 < x <= 0x8000_0000 {
      Widths();
      Pow2Add(31, 1);
      RoundUpIsLeast(x, 31);
      RoundUpIsPow2(x);
    } else if x > 0 {
      RoundUpWraps(x);
    }
  }

  /** Above 2^31 the macro gives 0. */
  lemma RoundUpWraps(x: nat)
    requires 0x8000_0000 < x < TWO32
    ensures RoundUp(x) % TWO32 == 0
  {
    hide RoundUp, Pow2;
    var w := Width(x);
    Widths();
    Pow2Add(31, 1);
    if w < 32 { Pow2Mono(w, 31); }
  }

  lemma RoundUpZero()
    ensures RoundUp(0) == 0
  {
  }

  lemma ShiftZero(j: nat)
    ensures Shift(0, j) == 0
  {
    hide Pow2;
    ModUnique(0, Pow2(j), 0, 0);
  }

  /** Five smears set every bit below the top one, and adding one gives the power of two above. */
  lemma Smeared(x: nat)
    requires x < TWO32
    ensures
      var y := Decrement(x);
      var a := BitOr(y, Shift(y, 1));
      var b := BitOr(a, Shift(a, 2));
      var c := BitOr(b, Shift(b, 4));
      var d := BitOr(c, Shift(c, 8));
      var e := BitOr(d, Shift(d, 16));
      e < TWO32 && Increment(e) == RoundUp(x) % TWO32
  {
    if x == 1 {
      hide BitOr, Pow2, Shift;
      OrZero(0);
      forall j ensures Shift(0, j) == 0 {
        ShiftZero(j);
      }
    } else {
      hide BitOr, TopOnes, Pow2, Shift, RoundUp, Increment, Decrement;
      var w := Start(x);
      var y := Decrement(x);
      var a := BitOr(y, Shift(y, 1));
      Smear(y, w, 1);
      var b := BitOr(a, Shift(a, 2));
      Smear(a, w, 2);
      var c := BitOr(b, Shift(b, 4));
      Smear(b, w, 4);
      var d := BitOr(c, Shift(c, 8));
      Smear(c, w, 8);
      Smear(d, w, 16);
      AllOnes(BitOr(d, Shift(d, 16)), w);
    }
  }

  lemma AllOnes(x: nat, w: nat)
    requires TopOnes(x, w, w)
    ensures x == Pow2(w) - 1
  {
    assert Pow2(w - w) == 1;
  }
}
