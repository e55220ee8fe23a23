/** Powers of two, the bitwise AND of naturals, and the masks built from them. */
module Bits {

  const TWO32 := 0x1_0000_0000
  const TWO64 := 0x1_0000_0000_0000_0000

  function Pow2(k: nat): (p: nat)
    ensures p > 0
  {
    if k == 0 then 1 else 2 * Pow2(k - 1)
  }

  ghost predicate IsPow2(n: nat) {
    exists k: nat :: n == Pow2(k)
  }

  /** The bitwise AND of two non-negative integers, lowest bit last. */
  function BitAnd(x: nat, y: nat): nat {
    if x == 0 || y == 0 then 0
    else 2 * BitAnd(x / 2, y / 2) + (if x % 2 == 1 && y % 2 == 1 then 1 else 0)
  }

  lemma MulMono(n: nat, a: int, b: int)
    requires a <= b
    ensures n * a <= n * b
  {
  }

  lemma ModUnique(x: int, n: nat, q: int, r: int)
    requires 0 <= r < n && x == n * q + r
    ensures x % n == r && x / n == q
  {
    var q' := x / n;
    assert x == n * q' + x % n;
    if q < q' {
      MulMono(n, q + 1, q');
    } else if q' < q {
      MulMono(n, q' + 1, q);
    }
  }

  /** A number modulo 2n is fixed by its lowest bit and its upper bits modulo n. */
  lemma ModDouble(x: nat, n: nat)
    requires n > 0
    ensures x % (2 * n) == 2 * (x / 2 % n) + x % 2
  {
    var q := x / 2 / n;
    assert x == 2 * (n * q + x / 2 % n) + x % 2;
    assert x == 2 * n * q + (2 * (x / 2 % n) + x % 2);
    ModUnique(x, 2 * n, q, 2 * (x / 2 % n) + x % 2);
  }

  lemma AndStep(x: nat, y: nat)
    ensures BitAnd(x, y) == 2 * BitAnd(x / 2, y / 2) + (if x % 2 == 1 && y % 2 == 1 then 1 else 0)
  {
  }

  lemma Pow2Step(k: nat)
    ensures Pow2(0) == 1 && (k > 0 ==> Pow2(k) == 2 * Pow2(k - 1))
  {
  }

  lemma AllOnesHalf(p: nat)
    requires p > 0
    ensures (2 * p - 1) / 2 == p - 1 && (2 * p - 1) % 2 == 1
  {
  }

  /** Masking with 2^k - 1 takes the remainder modulo 2^k. */
  lemma {:induction false} MaskIsMod(x: nat, k: nat)
    ensures BitAnd(x, Pow2(k) - 1) == x % Pow2(k)
  {
    hide Pow2;
    Pow2Step(k);
    if k == 0 {
      ModUnique(x, 1, x, 0);
    } else {
      hide BitAnd;
      var p := Pow2(k - 1);
      AllOnesHalf(p);
      calc {
        BitAnd(x, 2 * p - 1);
        { AndStep(x, 2 * p - 1); }
        2 * BitAnd(x / 2, p - 1) + x % 2;
        { MaskIsMod(x / 2, k - 1); }
        2 * (x / 2 % p) + x % 2;
        { ModDouble(x, p); }
        x % (2 * p);
      }
    }
  }

  lemma {:induction false} AndOfComplement(x: nat, w: nat)
    requires x < Pow2(w)
    ensures BitAnd(x, Pow2(w) - 1 - x) == 0
  {
    if w > 0 {
      AndOfComplement(x / 2, w - 1);
      assert (Pow2(w) - 1 - x) / 2 == Pow2(w - 1) - 1 - x / 2;
    }
  }

  lemma {:induction false} Pow2Half(n: nat)
    requires n > 0 && n % 2 == 0
    ensures IsPow2(n) <==> IsPow2(n / 2)
  {
    if k: nat :| n == Pow2(k) {
      assert n / 2 == Pow2(k - 1);
    }
    if k: nat :| n / 2 == Pow2(k) {
      assert n == Pow2(k + 1);
    }
  }

  lemma OddPow2(n: nat)
    requires n % 2 == 1
    ensures IsPow2(n) <==> n == 1
  {
    assert Pow2(0) == 1;
    if k: nat :| n == Pow2(k) {
      assert k > 0 ==> n == 2 * Pow2(k - 1);
    }
  }

  lemma Pow2NotZero()
    ensures !IsPow2(0)
  {
  }

  /** v & (~v + 1) == v in w bits exactly when v is a power of two. */
  lemma {:induction false} IsolatedLowestBit(v: nat, w: nat)
    requires 0 < v < Pow2(w)
    ensures BitAnd(v, Pow2(w) - v) == v <==> IsPow2(v)
  {
    hide IsPow2, BitAnd, Pow2;
    Pow2Step(w);
    var p, h := Pow2(w - 1), v / 2;
    AndStep(v, 2 * p - v);
    if v % 2 == 0 {
      assert (2 * p - v) / 2 == p - h;
      IsolatedLowestBit(h, w - 1);
      Pow2Half(v);
    } else {
      assert (2 * p - v) / 2 == p - 1 - h && (2 * p - v) % 2 == 1;
      AndOfComplement(h, w - 1);
      OddPow2(v);
    }
  }

  lemma {:induction false} AndWithPredecessor(n: nat)
    requires n > 0
    ensures BitAnd(n, n - 1) == 0 <==> IsPow2(n)
  {
    if n % 2 == 0 {
      AndWithPredecessor(n / 2);
      Pow2Half(n);
      assert (n - 1) / 2 == n / 2 - 1;
    } else {
      OddPow2(n);
      if n > 1 {
        assert (n - 1) / 2 == n / 2;
        AndSelf(n / 2);
      }
    }
  }

  lemma {:induction false} AndCommutes(x: nat, y: nat)
    ensures BitAnd(x, y) == BitAnd(y, x)
  {
    if x > 0 && y > 0 { AndCommutes(x / 2, y / 2); }
  }

  lemma AndSelf(x: nat)
    ensures BitAnd(x, x) == x
  {
  }

  /** Masking with n - 1 is taking the remainder for every position, exactly when n is a power of two. */
  lemma MaskIsModIffPow2(n: nat)
    requires n > 0
    ensures (forall x: nat :: BitAnd(x, n - 1) == x % n) <==> IsPow2(n)
  {
    if IsPow2(n) {
      var k: nat :| n == Pow2(k);
      forall x: nat ensures BitAnd(x, n - 1) == x % n {
        MaskIsMod(x, k);
      }
    } else {
      AndWithPredecessor(n);
      assert n % n == 0;
    }
  }

  lemma {:induction false} Pow2Add(a: nat, b: nat)
    ensures Pow2(a + b) == Pow2(a) * Pow2(b)
  {
    if a > 0 {
      Pow2Add(a - 1, b);
      assert Pow2(a) * Pow2(b) == 2 * (Pow2(a - 1) * Pow2(b));
    }
  }

  lemma {:induction false} Pow2Mono(a: nat, b: nat)
    requires a <= b
    ensures Pow2(a) <= Pow2(b)
    decreases b
  {
    if a < b { Pow2Mono(a, b - 1); }
  }
}
