/** The Boyer-Moore-Horspool search that finds message headers in a packet. */
module Horspool {
  import opened Bytes
  import opened Options

  const TABLE_SIZE := 256

  /** The pattern occurs in the text at position p. */
  predicate MatchAt(pattern: Text, text: Text, p: int) {
    0 <= p && p + |pattern| <= |text| && text[p..p + |pattern|] == pattern
  }

  lemma MatchByte(pattern: Text, text: Text, p: nat, k: nat)
    requires k < |pattern| && p + k < |text|
    ensures MatchAt(pattern, text, p) ==> text[p + k] == pattern[k]
  {
    if MatchAt(pattern, text, p) {
      assert text[p..p + |pattern|][k] == text[p + k];
    }
  }

  function FindFrom(pattern: Text, text: Text, p: nat): (r: Option<nat>)
    requires p <= |text|
    ensures r.Some? ==> p <= r.value <= |text| && MatchAt(pattern, text, r.value)
    ensures r.Some? ==> forall q: int :: p <= q < r.value ==> !MatchAt(pattern, text, q)
    ensures r.None? ==> forall q: int :: p <= q ==> !MatchAt(pattern, text, q)
    decreases |text| - p
  {
    if MatchAt(pattern, text, p) then Some(p)
    else if p == |text| then None
    else FindFrom(pattern, text, p + 1)
  }

  /** The leftmost occurrence of the pattern. */
  function Find(pattern: Text, text: Text): (r: Option<nat>)
    ensures r.Some? ==> r.value <= |text| && MatchAt(pattern, text, r.value)
    ensures r.Some? ==> forall q: int :: 0 <= q < r.value ==> !MatchAt(pattern, text, q)
    ensures r.None? ==> forall q: int :: !MatchAt(pattern, text, q)
  {
    FindFrom(pattern, text, 0)
  }

  /** The shift for byte c: its distance from the end of the pattern, the last position not counted. */
  ghost predicate GoodShift(pattern: Text, c: Byte, d: nat) {
    && 1 <= d <= |pattern|
    && (d < |pattern| ==> pattern[|pattern| - 1 - d] == c)
    && forall i :: |pattern| - 1 - d < i < |pattern| - 1 ==> 0 <= i && pattern[i] != c
  }

  /** The shift that boyermoore_init leaves for byte c. */
  function Shift(pattern: Text, c: Byte): (d: nat)
    requires pattern != []
    ensures GoodShift(pattern, c, d)
  {
    ShiftAfter(pattern, c, 1)
  }

  function ShiftAfter(pattern: Text, c: Byte, d: nat): (r: nat)
    requires 1 <= d <= |pattern|
    requires forall i :: |pattern| - 1 - d < i < |pattern| - 1 ==> pattern[i] != c
    ensures GoodShift(pattern, c, r)
    decreases |pattern| - d
  {
    if d == |pattern| || pattern[|pattern| - 1 - d] == c then d else ShiftAfter(pattern, c, d + 1)
  }

  lemma ShiftSkips(pattern: Text, c: Byte, d: nat, j: nat)
    requires GoodShift(pattern, c, d)
    ensures 1 <= j < d ==> pattern[|pattern| - 1 - j] != c
  {
  }

  lemma ShiftUnique(pattern: Text, c: Byte, d: nat, d': nat)
    requires GoodShift(pattern, c, d) && GoodShift(pattern, c, d')
    ensures d == d'
  {
    ShiftSkips(pattern, c, d, d');
    ShiftSkips(pattern, c, d', d);
  }

  // ----- A search that is told more bytes than there are

  /** The result of a search: an offset or none, or Past when it reads behind the memory it is given. */
  datatype Sought = Past | Sought(at: Option<nat>)

  /** The search from the window that ends at i on; mem is all the memory there is, length what the caller claims. */
  function Trace(pattern: Text, mem: Text, i: nat, length: nat): Sought
    requires pattern != [] && |pattern| - 1 <= i
    decreases if i < length then length - i else 0
  {
    if i >= length then Sought(None)
    else if i >= |mem| then Past
    else if MatchAt(pattern, mem, i - (|pattern| - 1)) then Sought(Some(i - (|pattern| - 1)))
    else Trace(pattern, mem, i + Shift(pattern, mem[i]), length)
  }

  /** boyermoore_search as a function: which bytes it reads decides whether it gets behind the memory. */
  function SearchIn(pattern: Text, mem: Text, length: nat): Sought
    requires pattern != []
  {
    if length < |pattern| then Sought(None) else Trace(pattern, mem, |pattern| - 1, length)
  }

  /** A match of the pattern that the claimed length covers. */
  predicate Covered(pattern: Text, mem: Text, length: nat, q: int) {
    MatchAt(pattern, mem, q) && q + |pattern| <= length
  }

  /** The search finds the leftmost covered match if there is one, and otherwise may only be led past the memory. */
  lemma {:induction false} TraceSpec(pattern: Text, mem: Text, i: nat, length: nat)
    requires pattern != [] && |pattern| - 1 <= i
    requires forall q: int :: 0 <= q && q + |pattern| - 1 < i ==> !MatchAt(pattern, mem, q)
    ensures match Trace(pattern, mem, i, length)
      case Past => length > |mem| && forall q: int :: !Covered(pattern, mem, length, q)
      case Sought(None) => forall q: int :: !Covered(pattern, mem, length, q)
      case Sought(Some(p)) => Covered(pattern, mem, length, p) && forall q: int :: q < p ==> !MatchAt(pattern, mem, q)
    decreases if i < length then length - i else 0
  {
    if i < length && i < |mem| && !MatchAt(pattern, mem, i - (|pattern| - 1)) {
      var d := Shift(pattern, mem[i]);
      forall q: int | 0 <= q && q + |pattern| - 1 < i + d ensures !MatchAt(pattern, mem, q) {
        SkipSafe(pattern, mem, i, d, q);
      }
      TraceSpec(pattern, mem, i + d, length);
    }
  }

  lemma SearchInSpec(pattern: Text, mem: Text, length: nat)
    requires pattern != []
    ensures match SearchIn(pattern, mem, length)
      case Past => length > |mem| && forall q: int :: !Covered(pattern, mem, length, q)
      case Sought(None) => forall q: int :: !Covered(pattern, mem, length, q)
      case Sought(Some(p)) => Covered(pattern, mem, length, p) && forall q: int :: q < p ==> !MatchAt(pattern, mem, q)
  {
    if length >= |pattern| { TraceSpec(pattern, mem, |pattern| - 1, length); }
  }

  lemma MatchInTake(pattern: Text, mem: Text, n: nat, q: int)
    requires n <= |mem|
    ensures MatchAt(pattern, mem[..n], q) <==> Covered(pattern, mem, n, q)
  {
    if 0 <= q && q + |pattern| <= n { assert mem[..n][q..q + |pattern|] == mem[q..q + |pattern|]; }
  }

  /** A match inside the memory and the claimed length is found, whatever the length claims besides. */
  lemma SearchFinds(pattern: Text, mem: Text, length: nat, n: nat)
    requires pattern != [] && n <= |mem| && n <= length
    ensures Find(pattern, mem[..n]).Some? ==> SearchIn(pattern, mem, length) == Sought(Find(pattern, mem[..n]))
    ensures n == length ==> SearchIn(pattern, mem, length) == Sought(Find(pattern, mem[..n]))
  {
    hide FindFrom, MatchAt;
    SearchInSpec(pattern, mem, length);
    forall q: int ensures MatchAt(pattern, mem[..n], q) <==> Covered(pattern, mem, n, q) {
      MatchInTake(pattern, mem, n, q);
    }
    var f, r := Find(pattern, mem[..n]), SearchIn(pattern, mem, length);
    if f.Some? {
      assert Covered(pattern, mem, length, f.value);
      if r.Sought? && r.at.Some? {
        var p := r.at.value;
        assert MatchAt(pattern, mem[..n], p) <==> Covered(pattern, mem, n, p);
      }
    }
  }

  lemma MatchStays(pattern: Text, mem: Text, more: Text, p: nat)
    requires p + |pattern| <= |mem|
    ensures MatchAt(pattern, mem + more, p) <==> MatchAt(pattern, mem, p)
  {
    assert (mem + more)[p..p + |pattern|] == mem[p..p + |pattern|];
  }

  /** A search that stays inside the memory does not notice what lies behind it. */
  lemma {:induction false} TraceStays(pattern: Text, mem: Text, more: Text, i: nat, length: nat)
    requires pattern != [] && |pattern| - 1 <= i && Trace(pattern, mem, i, length).Sought?
    ensures Trace(pattern, mem + more, i, length) == Trace(pattern, mem, i, length)
    decreases if i < length then length - i else 0
  {
    hide MatchAt, Shift;
    if i < length {
      var p := i - (|pattern| - 1);
      MatchStays(pattern, mem, more, p);
      assert (mem + more)[i] == mem[i];
      if !MatchAt(pattern, mem, p) { TraceStays(pattern, mem, more, i + Shift(pattern, mem[i]), length); }
    }
  }

  lemma SearchStays(pattern: Text, mem: Text, more: Text, length: nat)
    requires pattern != [] && SearchIn(pattern, mem, length).Sought?
    ensures SearchIn(pattern, mem + more, length) == SearchIn(pattern, mem, length)
  {
    if length >= |pattern| { TraceStays(pattern, mem, more, |pattern| - 1, length); }
  }

  /** Where the windows of a search without a match first end behind the memory. */
  function StopAt(pattern: Text, mem: Text, i: nat): nat
    requires pattern != [] && |pattern| - 1 <= i
    decreases if i < |mem| then |mem| - i else 0
  {
    if i >= |mem| then i else StopAt(pattern, mem, i + Shift(pattern, mem[i]))
  }

  /** A window never skips further than the pattern is long. */
  lemma {:induction false} StopBound(pattern: Text, mem: Text, i: nat)
    requires pattern != [] && |pattern| - 1 <= i < |mem| + |pattern|
    ensures |mem| <= StopAt(pattern, mem, i) < |mem| + |pattern|
    decreases if i < |mem| then |mem| - i else 0
  {
    if i < |mem| { StopBound(pattern, mem, i + Shift(pattern, mem[i])); }
  }

  /** A search without a match reads behind the memory exactly when the claimed length reaches past that point. */
  lemma {:induction false} StopExact(pattern: Text, mem: Text, i: nat, length: nat)
    requires pattern != [] && |pattern| - 1 <= i && |mem| <= length
    requires forall q: int :: !MatchAt(pattern, mem, q)
    ensures Trace(pattern, mem, i, length) == if length <= StopAt(pattern, mem, i) then Sought(None) else Past
    decreases if i < |mem| then |mem| - i else 0
  {
    if i < |mem| { StopExact(pattern, mem, i + Shift(pattern, mem[i]), length); }
  }

  /** No occurrence starts where the shift jumps over. */
  lemma SkipSafe(pattern: Text, text: Text, i: nat, d: nat, p: int)
    requires pattern != [] && |pattern| - 1 <= i < |text|
    requires GoodShift(pattern, text[i], d)
    requires forall q: int :: 0 <= q && q + |pattern| - 1 < i ==> !MatchAt(pattern, text, q)
    requires !MatchAt(pattern, text, i - (|pattern| - 1))
    requires 0 <= p && p + |pattern| - 1 < i + d
    ensures !MatchAt(pattern, text, p)
  {
    if p + |pattern| - 1 > i {
      MatchByte(pattern, text, p, i - p);
    }
  }

  class Matcher {
    const pattern: Text
    const len: nat
    const badMatch: array<nat>

    ghost predicate Valid()
      reads badMatch
    {
      && 0 < len == |pattern|
      && badMatch.Length == TABLE_SIZE
      && forall c: Byte :: GoodShift(pattern, c, badMatch[c])
    }

    /** boyermoore_init */
    constructor (pattern: Text)
      requires pattern != []
      ensures Valid() && fresh(badMatch)
      ensures this.pattern == pattern
    {
      var table := new nat[TABLE_SIZE];
      for i := 0 to TABLE_SIZE
        invariant forall c :: 0 <= c < i ==> table[c] == |pattern|
      {
        table[i] := |pattern|;
      }
      assert forall c: Byte :: table[c] == |pattern|;
      for i := 0 to |pattern| - 1
        invariant forall c: Byte ::
          && 1 <= table[c] <= |pattern|
          && (table[c] < |pattern| ==> |pattern| - 1 - table[c] < i && pattern[|pattern| - 1 - table[c]] == c)
          && forall j :: |pattern| - 1 - table[c] < j < i ==> pattern[j] != c
      {
        table[pattern[i]] := |pattern| - i - 1;
      }
      this.pattern := pattern;
      this.len := |pattern|;
      this.badMatch := table;
    }

    /**
     boyermoore_search on memory that may be shorter than the length claimed for it: the leftmost
     occurrence if the memory is long enough, and in any case what the bytes it reads lead to.
     */
    method Search(haystack: Text, length: nat) returns (r: Sought)
      requires Valid()
      ensures r == SearchIn(pattern, haystack, length)
      ensures length <= |haystack| ==> r == Sought(Find(pattern, haystack[..length]))
    {
      hide FindFrom, MatchAt, Shift;
      SearchInSpec(pattern, haystack, length);
      if length <= |haystack| { SearchFinds(pattern, haystack, length, length); }
      if length < len {
        return Sought(None);
      }
      var i := len - 1;
      while i < length
        invariant len - 1 <= i
        invariant Trace(pattern, haystack, i, length) == SearchIn(pattern, haystack, length)
        decreases length - i
      {
        if i >= |haystack| {
          return Past;
        }
        var found := Compare(haystack, i);
        if found {
          return Sought(Some(i - (len - 1)));
        }
        ShiftUnique(pattern, haystack[i], Shift(pattern, haystack[i]), badMatch[haystack[i]]);
        i := i + badMatch[haystack[i]];
      }
      return Sought(None);
    }

    /** The inner loop: pattern and haystack compared backwards from i. */
    method Compare(haystack: Text, i: nat) returns (found: bool)
      requires Valid() && len - 1 <= i < |haystack|
      ensures found <==> MatchAt(pattern, haystack, i - (len - 1))
    {
      var j, k: int := len - 1, i;
      while j >= 0 && haystack[k] == pattern[j]
        invariant -1 <= j < len && k - j == i - (len - 1)
        invariant haystack[k + 1..i + 1] == pattern[j + 1..]
      {
        j, k := j - 1, k - 1;
      }
      found := j == -1;
      if !found {
        assert haystack[k] == haystack[i - (len - 1)..i + 1][j];
      }
    }
  }
}
