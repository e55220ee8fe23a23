/** Byte strings, and the C views of them that the program relies on. */
module Bytes {

  type Byte = b: int | 0 <= b < 256
  type Text = seq<Byte>

  const NUL: Byte := 0
  const SOH: Byte := 1
  const BAR: Byte := 124      // '|'
  const EQUALS: Byte := 61    // '='
  const ZERO: Byte := 48      // '0'

  predicate IsDigit(b: Byte) {
    ZERO <= b <= ZERO + 9
  }

  /** The value of a `char`, which is signed on this platform. */
  function Signed(b: Byte): int {
    if b < 128 then b else b - 256
  }

  function Sum(s: Text): nat {
    if s == [] then 0 else Sum(s[..|s| - 1]) + s[|s| - 1]
  }

  /** What strncpy(dst, s, |s|) writes: the bytes up to the first NUL, then zeros. */
  function StrNCpy(s: Text): (r: Text)
    ensures |r| == |s|
  {
    if s == [] then [] else if s[0] == NUL then seq(|s|, _ => NUL) else [s[0]] + StrNCpy(s[1..])
  }

  /** strncpy is a copy of anything that holds no NUL. */
  lemma {:induction false} StrNCpyCopies(s: Text)
    requires NUL !in s
    ensures StrNCpy(s) == s
  {
    if s != [] {
      assert NUL !in s[1..];
      StrNCpyCopies(s[1..]);
    }
  }

  /** The C string at the start of s: everything before the first NUL. */
  function CString(s: Text): (r: Text)
    ensures NUL !in r
  {
    if s == [] || s[0] == NUL then [] else [s[0]] + CString(s[1..])
  }

  lemma {:induction false} CStringOf(s: Text, rest: Text)
    requires NUL !in s && (rest == [] || rest[0] == NUL)
    ensures CString(s + rest) == s
  {
    if s == [] {
      assert s + rest == rest;
    } else {
      assert NUL !in s[1..];
      CStringOf(s[1..], rest);
      assert (s + rest)[1..] == s[1..] + rest;
    }
  }

  /** The bytes of a string of 8-bit characters. */
  function Ascii(s: string): (t: Text)
    requires forall i :: 0 <= i < |s| ==> s[i] as int < 256
    ensures |t| == |s|
  {
    seq(|s|, i requires 0 <= i < |s| => s[i] as int)
  }

  predicate Digits(s: Text) {
    forall i :: 0 <= i < |s| ==> '0' as int <= s[i] <= '9' as int
  }

  /** The number that decimal digits stand for, the last of them counting once. */
  function Number(s: Text): nat
    requires Digits(s)
  {
    if s == [] then 0 else Number(s[..|s| - 1]) * 10 + (s[|s| - 1] - '0' as int)
  }

  function Concat(parts: seq<Text>): Text {
    if parts == [] then [] else parts[0] + Concat(parts[1..])
  }

  // ----- Little-endian integers

  function LE(n: nat, width: nat): (r: Text)
    ensures |r| == width
  {
    if width == 0 then [] else [n % 256] + LE(n / 256, width - 1)
  }

  function FromLE(s: Text): nat {
    if s == [] then 0 else s[0] + 256 * FromLE(s[1..])
  }

  function Pow256(width: nat): nat {
    if width == 0 then 1 else 256 * Pow256(width - 1)
  }

  lemma {:induction false} LERoundTrip(n: nat, width: nat)
    requires n < Pow256(width)
    ensures FromLE(LE(n, width)) == n
  {
    if width > 0 {
      LERoundTrip(n / 256, width - 1);
      assert LE(n, width)[1..] == LE(n / 256, width - 1);
    }
  }
}
