/** The triangular probe sequence of the hash table: i = (i + ++step) & mask. */
module Probing {
  import opened Bits

  /** The total distance covered by the first t steps. */
  function Tri(t: nat): nat {
    if t == 0 then 0 else Tri(t - 1) + t
  }

  lemma {:induction false} TriClosed(t: nat)
    ensures 2 * Tri(t) == t * (t + 1)
  {
    if t > 0 {
      TriClosed(t - 1);
      assert t * (t + 1) == (t - 1) * t + 2 * t;
    }
  }

  /** The bucket inspected after t steps by a key of hash h in a table of n buckets. */
  function Probe(h: nat, t: nat, n: nat): (b: nat)
    requires n > 0
    ensures b < n
  {
    (h + Tri(t)) % n
  }

  /** One step of the loop: the incremental update is the closed form. */
  lemma ProbeStep(h: nat, t: nat, n: nat)
    requires n > 0
    ensures Probe(h, t + 1, n) == (Probe(h, t, n) + (t + 1)) % n
    ensures Probe(h, 0, n) == h % n
  {
    var x := h + Tri(t);
    var q := (x % n + (t + 1)) / n;
    var r := (x % n + (t + 1)) % n;
    assert x + (t + 1) == n * (x / n) + n * q + r;
    assert x + (t + 1) == n * (x / n + q) + r;
    ModUnique(x + (t + 1), n, x / n + q, r);
  }

  lemma OddTimesOdd(a: nat, b: nat)
    ensures a % 2 == 1 && b % 2 == 1 ==> a * b % 2 == 1
  {
    var i, j := a / 2, b / 2;
    if a % 2 == 1 && b % 2 == 1 {
      assert a * b == (2 * i + 1) * (2 * j + 1) == 2 * (2 * i * j + i + j) + 1;
    }
  }

  /** A power of two that divides a product with an odd factor divides the other factor. */
  lemma {:induction false} OddFactor(k: nat, a: nat, b: nat, c: nat) returns (d: nat)
    requires a * b == Pow2(k) * c && b % 2 == 1
    ensures a == Pow2(k) * d
  {
    if k == 0 {
      d := a;
    } else {
      var p, i := Pow2(k - 1), a / 2;
      Twice(p, c);
      OddTimesOdd(a, b);
      assert a == 2 * i;
      Twice(i, b);
      d := OddFactor(k - 1, i, b, c);
      Twice(p, d);
    }
  }

  lemma Twice(x: int, y: int)
    ensures 2 * x * y == 2 * (x * y)
  {
  }

  /** 2^k divides no product of two smaller positive numbers of different parity. */
  lemma NoProduct(a: nat, b: nat, k: nat, c: nat)
    requires 0 < a < Pow2(k) && 0 < b < Pow2(k) && a % 2 != b % 2
    ensures a * b != Pow2(k) * c
  {
    if a * b == Pow2(k) * c {
      if b % 2 == 1 {
        var d := OddFactor(k, a, b, c);
        NoSmallMultiple(a, Pow2(k), d);
      } else {
        Commute(a, b);
        var d := OddFactor(k, b, a, c);
        NoSmallMultiple(b, Pow2(k), d);
      }
    }
  }

  lemma Commute(x: int, y: int)
    ensures x * y == y * x
  {
  }

  /** A multiple of m strictly between 0 and m does not exist. */
  lemma NoSmallMultiple(x: nat, m: nat, d: nat)
    requires 0 < x < m
    ensures x != m * d
  {
    if d > 0 { MulMono(m, 1, d); }
  }

  lemma TriDifference(s: nat, t: nat, a: nat, b: nat)
    requires t == s + a && b == t + s + 1
    ensures 2 * (Tri(t) - Tri(s)) == a * b
  {
    hide Tri;
    TriClosed(s);
    TriClosed(t);
    assert (s + a) * (s + a + 1) == s * (s + 1) + a * (2 * s + a + 1);
  }

  lemma EqualModulo(x: nat, y: nat, n: nat) returns (c: nat)
    requires n > 0 && x <= y && x % n == y % n
    ensures y - x == n * c
  {
    var q := y / n - x / n;
    assert y - x == n * (y / n) - n * (x / n) == n * q;
    if q < 0 { MulMono(n, q, -1); }
    c := q;
  }

  lemma HalfProduct(a: int, b: int, e: int, n: nat, m: nat, c: nat)
    requires 2 * e == a * b && e == n * c && m == 2 * n
    ensures a * b == m * c
  {
    Twice(n, c);
  }

  lemma NotAMultiple(s: nat, t: nat, a: nat, b: nat, k: nat, c: nat)
    requires t == s + a && b == t + s + 1
    requires 0 < a && b < Pow2(k + 1)
    ensures Tri(t) - Tri(s) != Pow2(k) * c
  {
    ParityDiffers(a, b, s);
    NoProduct(a, b, k + 1, c);
    if Tri(t) - Tri(s) == Pow2(k) * c {
      TriDifference(s, t, a, b);
      HalfProduct(a, b, Tri(t) - Tri(s), Pow2(k), Pow2(k + 1), c);
    }
  }

  lemma ParityDiffers(a: nat, b: nat, s: nat)
    requires b == a + 2 * s + 1
    ensures a % 2 != b % 2
  {
  }

  /** Two probes whose step numbers add up to less than 2n - 1 are in different buckets. */
  lemma ProbesMeet(h: nat, s: nat, t: nat, k: nat)
    requires s < t && t + s + 1 < Pow2(k + 1)
    ensures Probe(h, s, Pow2(k)) != Probe(h, t, Pow2(k))
  {
    if Probe(h, s, Pow2(k)) == Probe(h, t, Pow2(k)) {
      TriMono(s, t);
      var c := EqualModulo(h + Tri(s), h + Tri(t), Pow2(k));
      NotAMultiple(s, t, t - s, t + s + 1, k, c);
    }
  }

  /** The first n probes of a table of n = 2^k buckets are pairwise different. */
  lemma ProbesDiffer(h: nat, s: nat, t: nat, k: nat)
    requires s < t < Pow2(k)
    ensures Probe(h, s, Pow2(k)) != Probe(h, t, Pow2(k))
  {
    ProbesMeet(h, s, t, k);
  }

  lemma {:induction false} TriMono(s: nat, t: nat)
    requires s <= t
    ensures Tri(s) <= Tri(t)
    decreases t
  {
    if s < t { TriMono(s, t - 1); }
  }

  /** The sequence comes back to its first bucket after exactly 2n - 1 steps and not before. */
  lemma FirstReturn(h: nat, t: nat, k: nat)
    requires 0 < t <= 2 * Pow2(k) - 1
    ensures Probe(h, t, Pow2(k)) == Probe(h, 0, Pow2(k)) <==> t == 2 * Pow2(k) - 1
  {
    var n := Pow2(k);
    if t == 2 * n - 1 {
      TriClosed(t);
      assert t * (t + 1) == 2 * (n * t);
      assert Tri(t) == n * t;
      assert n * (h / n + t) == n * (h / n) + n * t;
      ModUnique(h + Tri(t), n, h / n + t, h % n);
    } else {
      ProbesMeet(h, 0, t, k);
    }
  }

  /** The buckets seen by the first t probes. */
  ghost function Visited(h: nat, t: nat, n: nat): set<nat>
    requires n > 0
  {
    set s: nat | s < t :: Probe(h, s, n)
  }

  ghost function Below(n: nat): (r: set<nat>)
    ensures forall i: nat :: i in r <==> i < n
    ensures |r| == n
  {
    if n == 0 then {} else Below(n - 1) + {n - 1}
  }

  lemma {:induction false} VisitedSize(h: nat, t: nat, k: nat)
    requires t <= Pow2(k)
    ensures |Visited(h, t, Pow2(k))| == t
  {
    var n := Pow2(k);
    if t > 0 {
      VisitedSize(h, t - 1, k);
      var b := Probe(h, t - 1, n);
      assert Visited(h, t, n) == Visited(h, t - 1, n) + {b};
      forall s: nat | s < t - 1 ensures Probe(h, s, n) != b {
        ProbesDiffer(h, s, t - 1, k);
      }
    }
  }

  lemma SameSizeSubset<T>(a: set<T>, b: set<T>)
    requires a <= b && |a| == |b|
    ensures a == b
  {
    assert |b - a| == |b| - |a|;
    assert b == a + (b - a);
  }

  lemma SubsetSize<T>(a: set<T>, b: set<T>)
    requires a <= b
    ensures |a| <= |b|
  {
    assert |b - a| == |b| - |a|;
  }

  /** The first n probes visit every bucket (and, by ProbesDiffer, each exactly once). */
  lemma ProbesCover(h: nat, b: nat, n: nat) returns (t: nat)
    requires IsPow2(n) && b < n
    ensures t < n && Probe(h, t, n) == b
  {
    var k: nat :| n == Pow2(k);
    VisitedSize(h, n, k);
    SameSizeSubset(Visited(h, n, n), Below(n));
    assert b in Visited(h, n, n);
    t :| t < n && Probe(h, t, n) == b;
  }
}
