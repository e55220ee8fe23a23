/** What the parser and the wire format promise each other. */
module FixCodec {
  import opened Bytes
  import opened FixParser

  // ----- Framed messages: complete, and nothing after them

  /** m is one message: its BodyLength accounts for every byte. */
  predicate IsMessage(m: Text) {
    match Frame(m)
    case Framed(_, bodyStart, msgLen) => bodyStart + msgLen + CHECK_SUM_LEN == |m|
    case _ => false
  }

  lemma {:induction false} ScanPrefix(m: Text, k: nat, pos: nat, stop: Byte, acc: nat)
    requires pos <= k <= |m| && ScanNumber(m, pos, stop, acc).Stopped?
    ensures var full, cut := ScanNumber(m, pos, stop, acc), ScanNumber(m[..k], pos, stop, acc);
      if full.next <= k then cut == full else cut.RanOut?
    decreases |m| - pos
  {
    if pos < k && IsDigit(m[pos]) {
      ScanPrefix(m, k, pos + 1, stop, acc * 10 + (m[pos] - ZERO));
    }
  }

  /** A buffer that starts with a message is framed as that message. */
  lemma FrameThen(m: Text, rest: Text)
    requires IsMessage(m)
    ensures Frame(m + rest) == Frame(m)
  {
    var buf := m + rest;
    assert buf[..|m|] == m && buf[..HEADER_LEN] == m[..HEADER_LEN];
    var n := ScanNumber(m, HEADER_LEN, SOH, 0);
    ScanThen(m, rest, HEADER_LEN, SOH, 0);
  }

  lemma {:induction false} ScanThen(m: Text, rest: Text, pos: nat, stop: Byte, acc: nat)
    requires pos <= |m| && !ScanNumber(m, pos, stop, acc).RanOut?
    ensures ScanNumber(m + rest, pos, stop, acc) == ScanNumber(m, pos, stop, acc)
    decreases |m| - pos
  {
    if IsDigit(m[pos]) {
      ScanThen(m, rest, pos + 1, stop, acc * 10 + (m[pos] - ZERO));
    }
  }

  /** Whatever follows a message, parsing sees that message and consumes exactly it. */
  lemma ParseThen(m: Text, rest: Text, options: Options)
    requires IsMessage(m)
    ensures Parse(m + rest, options) == Parse(m, options)
    ensures Parse(m, options).consumed == |m| && Parse(m, options).result != EMESSAGETOOSHORT
  {
    FrameThen(m, rest);
    assert (m + rest)[..|m|] == m && m[..|m|] == m;
    FieldsNotShort(m, Frame(m).bodyStart);
  }

  lemma {:induction false} FieldsNotShort(m: Text, pos: nat)
    requires pos <= |m|
    ensures ParseFields(m, pos).0 != EMESSAGETOOSHORT
    decreases |m| - pos
  {
    match ScanNumber(m, pos, EQUALS, 0)
    case Bad =>
    case RanOut(_) =>
    case Stopped(_, start) =>
      var end := FindSoh(m, start);
      if end + 1 < |m| { FieldsNotShort(m, end + 1); }
  }

  /** Every proper prefix of a message is too short: all of it is consumed and nothing is reported. */
  lemma PrefixTooShort(m: Text, k: nat, options: Options)
    requires IsMessage(m) && k < |m|
    ensures Parse(m[..k], options) == Outcome(EMESSAGETOOSHORT, k, NotStarted, [], false)
  {
    if k >= HEADER_LEN {
      assert m[..k][..HEADER_LEN] == m[..HEADER_LEN];
      ScanPrefix(m, k, HEADER_LEN, SOH, 0);
    }
  }

  /** No message is a proper prefix of another. */
  lemma PrefixFree(m: Text, m': Text)
    requires IsMessage(m) && IsMessage(m') && m <= m'
    ensures m == m'
  {
    assert m'[..|m|] == m && m + [] == m;
    if |m| < |m'| {
      PrefixTooShort(m', |m|, DEFAULT);
      ParseThen(m, [], DEFAULT);
    }
  }

  // ----- Memory behind the bytes at hand

  lemma {:induction false} SohThen(m: Text, rest: Text, pos: nat)
    requires pos <= |m| && FindSoh(m, pos) < |m|
    ensures FindSoh(m + rest, pos) == FindSoh(m, pos)
    decreases |m| - pos
  {
    if m[pos] != SOH { SohThen(m, rest, pos + 1); }
  }

  /** A bad tag ends the tag loop before it sees what follows. */
  lemma {:induction false} BadTagThen(m: Text, rest: Text, pos: nat)
    requires pos <= |m| && ParseFields(m, pos).0 == ETAGINVALID
    ensures ParseFields(m + rest, pos) == ParseFields(m, pos)
    decreases |m| - pos
  {
    ScanThen(m, rest, pos, EQUALS, 0);
    match ScanNumber(m, pos, EQUALS, 0)
    case Bad =>
    case Stopped(_, start) =>
      var end := FindSoh(m, start);
      SohThen(m, rest, start);
      assert (m + rest)[start..end] == m[start..end];
      BadTagThen(m, rest, end + 1);
  }

  lemma FixTypeStays(mem: Text, more: Text)
    requires FixTypeIn(mem).Some?
    ensures FixTypeIn(mem + more) == FixTypeIn(mem)
  {
    var all := mem + more;
    if |mem| >= HEADER_LEN {
      assert all[..HEADER_LEN] == mem[..HEADER_LEN];
    } else {
      assert all[..|mem|] == mem;
      if |all| >= HEADER_LEN { assert all[..HEADER_LEN][..|mem|] == mem; }
    }
  }

  lemma FramedStays(mem: Text, more: Text, fixType: int, bodyStart: nat, msgLen: nat, options: Options)
    requires bodyStart <= |mem| && ParseFramedIn(mem, fixType, bodyStart, msgLen, options).Parsed?
    ensures ParseFramedIn(mem + more, fixType, bodyStart, msgLen, options)
      == ParseFramedIn(mem, fixType, bodyStart, msgLen, options)
  {
    hide ParseFields, Sum, Supplied, Report;
    var all, len, k := mem + more, bodyStart + msgLen + CHECK_SUM_LEN, bodyStart + msgLen;
    if len <= |mem| {
      assert all[..len] == mem[..len];
    } else if more == [] {
      assert all == mem;
    } else {
      var m := all[..len];
      assert m == mem + more[..1];
      assert m[..k] == all[..k] == mem[..k];
      assert m[k + 3..][..3] == mem[k + 3..];
      SuppliedPrefix(m[k + 3..], mem[k + 3..]);
      if ParseFields(mem, bodyStart).0 == ETAGINVALID { BadTagThen(mem, more[..1], bodyStart); }
    }
  }

  lemma SuppliedPrefix(d: Text, d': Text)
    requires |d| >= 3 && |d'| >= 3 && d[..3] == d'[..3]
    ensures Supplied(d) == Supplied(d')
  {
    assert d[0] == d[..3][0] && d[1] == d[..3][1] && d[2] == d[..3][2];
    assert d'[0] == d'[..3][0] && d'[1] == d'[..3][1] && d'[2] == d'[..3][2];
  }

  /** A parse that stays inside the memory does not notice what lies behind it. */
  lemma ParseStays(mem: Text, more: Text, len: nat, options: Options)
    requires ParseIn(mem, len, options).Parsed?
    ensures ParseIn(mem + more, len, options) == ParseIn(mem, len, options)
  {
    hide ParseFramedIn, ScanNumber, Parse;
    if len <= |mem| {
      ParseInside(mem, len, options);
      ParseInside(mem + more, len, options);
      assert (mem + more)[..len] == mem[..len];
    } else if HEADER_LEN <= len {
      FixTypeStays(mem, more);
      var fixType := FixTypeIn(mem).value;
      if fixType != -1 {
        var n := len - |mem|;
        var rest := if |more| <= n then more else more[..n];
        assert Seen(mem + more, len) == mem + rest;
        ScanThen(mem, rest, HEADER_LEN, SOH, 0);
        match ScanNumber(mem, HEADER_LEN, SOH, 0)
        case Stopped(k, next) =>
          if 0 < k && k <= len - next - CHECK_SUM_LEN { FramedStays(mem, more, fixType, next, k, options); }
        case _ =>
      }
    }
  }

  /** A message at the start of the memory is what the parser sees, however many bytes more are claimed. */
  lemma ParseMessageIn(m: Text, rest: Text, len: nat, options: Options)
    requires IsMessage(m) && |m| <= len
    ensures ParseIn(m + rest, len, options) == Parsed(Parse(m, options))
  {
    hide Parse, ParseIn, IsMessage;
    var mem := m + rest;
    if len <= |mem| {
      ParseInside(mem, len, options);
      assert mem[..len] == m + rest[..len - |m|];
      ParseThen(m, rest[..len - |m|], options);
    } else {
      ParseMessagePast(m, rest, len, options);
    }
  }

  lemma ParseMessagePast(m: Text, rest: Text, len: nat, options: Options)
    requires IsMessage(m) && |m + rest| < len
    ensures ParseIn(m + rest, len, options) == Parsed(Parse(m, options))
  {
    hide ParseFramed, ScanNumber;
    var mem := m + rest;
    assert mem[..HEADER_LEN] == m[..HEADER_LEN];
    ScanThen(m, rest, HEADER_LEN, SOH, 0);
    assert mem[..|m|] == m && m[..|m|] == m;
  }

  // ----- The printer

  function Decimal(n: nat): (d: Text)
    ensures |d| > 0 && forall i :: 0 <= i < |d| ==> IsDigit(d[i])
  {
    if n < 10 then [ZERO + n] else Decimal(n / 10) + [ZERO + n % 10]
  }

  /** Horner evaluation of a digit string, as both digit loops do it. */
  function DigitsValue(d: Text, acc: nat): nat
    requires forall i :: 0 <= i < |d| ==> IsDigit(d[i])
  {
    if d == [] then acc
    else
      assert IsDigit(d[0]);
      DigitsValue(d[1..], acc * 10 + (d[0] - ZERO))
  }

  lemma {:induction false} DigitsValueSnoc(d: Text, x: Byte, acc: nat)
    requires (forall i :: 0 <= i < |d| ==> IsDigit(d[i])) && IsDigit(x)
    ensures DigitsValue(d + [x], acc) == DigitsValue(d, acc) * 10 + (x - ZERO)
  {
    if d == [] {
      assert [x][1..] == [] && d + [x] == [x];
      assert DigitsValue([x], acc) == DigitsValue([], acc * 10 + (x - ZERO));
    } else {
      assert (d + [x])[1..] == d[1..] + [x];
      DigitsValueSnoc(d[1..], x, acc * 10 + (d[0] - ZERO));
    }
  }

  lemma {:induction false} DecimalValue(n: nat)
    ensures DigitsValue(Decimal(n), 0) == n
  {
    if n < 10 {
      assert DigitsValue([ZERO + n], 0) == DigitsValue([], n);
    } else {
      DecimalValue(n / 10);
      DigitsValueSnoc(Decimal(n / 10), ZERO + n % 10, 0);
    }
  }

  lemma {:induction false} ScanDigits(buf: Text, pos: nat, stop: Byte, acc: nat, d: Text)
    requires !IsDigit(stop) && forall i :: 0 <= i < |d| ==> IsDigit(d[i])
    requires pos + |d| < |buf| && buf[pos..pos + |d|] == d && buf[pos + |d|] == stop
    ensures ScanNumber(buf, pos, stop, acc) == Stopped(DigitsValue(d, acc), pos + |d| + 1)
    decreases |d|
  {
    if d != [] {
      assert buf[pos] == d[0];
      assert buf[pos + 1..pos + |d|] == d[1..];
      ScanDigits(buf, pos + 1, stop, acc * 10 + (d[0] - ZERO), d[1..]);
    }
  }

  lemma {:induction false} FindSohAt(buf: Text, pos: nat, end: nat)
    requires pos <= end < |buf| && buf[end] == SOH && SOH !in buf[pos..end]
    ensures FindSoh(buf, pos) == end
    decreases end - pos
  {
    if pos < end {
      assert buf[pos] in buf[pos..end];
      assert buf[pos + 1..end] == buf[pos..end][1..];
      FindSohAt(buf, pos + 1, end);
    }
  }

  function EncodeField(f: Field): Text {
    Decimal(f.tag) + [EQUALS] + f.value + [SOH]
  }

  function EncodeFields(fields: seq<Field>): Text {
    if fields == [] then [] else EncodeField(fields[0]) + EncodeFields(fields[1..])
  }

  datatype Version = Fix42 | Fix44

  function Header(v: Version): Text {
    match v case Fix42 => HEADER_42 case Fix44 => HEADER_44
  }

  function FixTypeOf(v: Version): int {
    match v case Fix42 => 42 case Fix44 => 44
  }

  function Preamble(v: Version, fields: seq<Field>): Text {
    Header(v) + Decimal(|EncodeFields(fields)|) + [SOH]
  }

  /** A message with the BodyLength and CheckSum its body calls for. */
  function Encode(v: Version, fields: seq<Field>): Text {
    var summed := Preamble(v, fields) + EncodeFields(fields);
    summed + EncodeField(Field(CHECK_SUM_TAG, CheckDigits(Sum(summed) % 256)))
  }

  predicate Encodable(fields: seq<Field>) {
    fields != [] && forall i :: 0 <= i < |fields| ==> SOH !in fields[i].value
  }

  lemma {:induction false} EncodeFieldsSnoc(fields: seq<Field>, f: Field)
    ensures EncodeFields(fields + [f]) == EncodeFields(fields) + EncodeField(f)
  {
    if fields == [] {
      assert fields + [f] == [f];
      assert EncodeFields([f]) == EncodeField(f) + EncodeFields([]);
    } else {
      assert (fields + [f])[1..] == fields[1..] + [f];
      EncodeFieldsSnoc(fields[1..], f);
    }
  }

  lemma SubSlice(m: Text, pos: nat, e: Text, a: nat, b: nat)
    requires pos + |e| <= |m| && m[pos..pos + |e|] == e && a <= b <= |e|
    ensures m[pos + a..pos + b] == e[a..b]
    ensures b < |e| ==> m[pos + b] == e[b]
  {
    forall i | 0 <= i < |e| ensures m[pos + i] == e[i] {
      assert m[pos + i] == m[pos..pos + |e|][i];
    }
  }

  lemma FieldLayout(f: Field)
    ensures var e, k := EncodeField(f), |Decimal(f.tag)|;
      && |e| == k + 1 + |f.value| + 1
      && e[..k] == Decimal(f.tag) && e[k] == EQUALS && e[k + 1..|e| - 1] == f.value && e[|e| - 1] == SOH
  {
  }

  /** One encoded field at pos is scanned as that field. */
  lemma ScanField(m: Text, pos: nat, f: Field)
    requires pos + |EncodeField(f)| <= |m| && m[pos..pos + |EncodeField(f)|] == EncodeField(f) && SOH !in f.value
    ensures var start := pos + |Decimal(f.tag)| + 1;
      && pos + |EncodeField(f)| == start + |f.value| + 1
      && ScanNumber(m, pos, EQUALS, 0) == Stopped(f.tag, start)
      && FindSoh(m, start) == start + |f.value|
      && m[start..start + |f.value|] == f.value
  {
    hide EncodeField, Decimal, ScanNumber, FindSoh, DigitsValue;
    var e, d := EncodeField(f), Decimal(f.tag);
    FieldLayout(f);
    SubSlice(m, pos, e, 0, |d|);
    SubSlice(m, pos, e, |d| + 1, |e| - 1);
    DecimalValue(f.tag);
    ScanDigits(m, pos, EQUALS, 0, d);
    FindSohAt(m, pos + |d| + 1, pos + |e| - 1);
  }

  lemma ParseOne(m: Text, pos: nat, f: Field, next: nat)
    requires pos + |EncodeField(f)| == next <= |m| && m[pos..next] == EncodeField(f) && SOH !in f.value
    ensures ParseFields(m, pos) ==
      if next == |m| then (OK, [f]) else (ParseFields(m, next).0, [f] + ParseFields(m, next).1)
  {
    hide EncodeField, Decimal, ScanNumber, FindSoh;
    ScanField(m, pos, f);
  }

  /** Parsing the encoding of a field list that runs to the end of the buffer reports that list. */
  lemma {:induction false} ParseEncodedFields(m: Text, pos: nat, fields: seq<Field>)
    requires pos <= |m| && Encodable(fields) && m[pos..] == EncodeFields(fields)
    ensures ParseFields(m, pos) == (OK, fields)
    decreases |fields|
  {
    hide EncodeField, ParseFields;
    var f, tail := fields[0], fields[1..];
    var e := EncodeField(f);
    var next := pos + |e|;
    assert EncodeFields(fields) == e + EncodeFields(tail);
    assert m[pos..next] == m[pos..][..|e|] == e;
    assert m[next..] == m[pos..][|e|..] == EncodeFields(tail);
    ParseOne(m, pos, f, next);
    if tail == [] {
      assert next == |m|;
      assert fields == [f];
    } else {
      FieldLayout(tail[0]);
      ParseEncodedFields(m, next, tail);
      assert fields == [f] + tail;
    }
  }

  lemma SuppliedCheckDigits(c: nat)
    requires c < 256
    ensures Supplied(CheckDigits(c)) == Supplied(CheckDigits(c) + [SOH]) == c
    ensures SOH !in CheckDigits(c)
  {
  }

  /** An encoded message is framed with its body after the preamble. */
  lemma EncodedFrame(v: Version, fields: seq<Field>)
    requires Encodable(fields)
    ensures Frame(Encode(v, fields)) == Framed(FixTypeOf(v), |Preamble(v, fields)|, |EncodeFields(fields)|)
    ensures |Encode(v, fields)| == |Preamble(v, fields)| + |EncodeFields(fields)| + CHECK_SUM_LEN
    ensures IsMessage(Encode(v, fields))
  {
    hide EncodeFields, EncodeField, Decimal, ScanNumber, Sum;
    var m, body, pre := Encode(v, fields), EncodeFields(fields), Preamble(v, fields);
    var d := Decimal(|body|);
    BodyNotEmpty(fields);
    Trailer(Sum(pre + body) % 256);
    assert pre <= m;
    assert m[..HEADER_LEN] == pre[..HEADER_LEN] == Header(v);
    assert m[HEADER_LEN..HEADER_LEN + |d|] == pre[HEADER_LEN..HEADER_LEN + |d|] == d;
    assert m[HEADER_LEN + |d|] == pre[HEADER_LEN + |d|] == SOH;
    DecimalValue(|body|);
    ScanDigits(m, HEADER_LEN, SOH, 0, d);
  }

  lemma BodyNotEmpty(fields: seq<Field>)
    requires fields != []
    ensures EncodeFields(fields) != []
  {
    FieldLayout(fields[0]);
  }

  /**
   Round trip: parsing an encoded message, whatever follows it, succeeds, consumes exactly the
   message and reports exactly its fields and then the CheckSum field.
   */
  lemma RoundTrip(v: Version, fields: seq<Field>, rest: Text, options: Options)
    requires Encodable(fields)
    ensures var m, c := Encode(v, fields), Sum(Preamble(v, fields) + EncodeFields(fields)) % 256;
      Parse(m + rest, options) == Outcome(
        OK, |m|, Started(|EncodeFields(fields)|, FixTypeOf(v)),
        Report(fields + [Field(CHECK_SUM_TAG, CheckDigits(c))], c, options), true)
  {
    hide Parse, IsMessage, Encode, Encodable, EncodeFields, Sum, Preamble, Report, CheckDigits;
    EncodedFrame(v, fields);
    ParseThen(Encode(v, fields), rest, options);
    ParseEncoded(v, fields, options);
  }

  lemma ParseEncoded(v: Version, fields: seq<Field>, options: Options)
    requires Encodable(fields)
    ensures var m, c := Encode(v, fields), Sum(Preamble(v, fields) + EncodeFields(fields)) % 256;
      Parse(m, options) == Outcome(
        OK, |m|, Started(|EncodeFields(fields)|, FixTypeOf(v)),
        Report(fields + [Field(CHECK_SUM_TAG, CheckDigits(c))], c, options), true)
  {
    hide Frame, ParseFields, Encodable, EncodeFields, EncodeField, Sum, Preamble, Report, Supplied, CheckDigits,
      IsMessage;
    var m, pre, body := Encode(v, fields), Preamble(v, fields), EncodeFields(fields);
    var c := Sum(pre + body) % 256;
    var last := Field(CHECK_SUM_TAG, CheckDigits(c));
    EncodedFrame(v, fields);
    SuppliedCheckDigits(c);
    Trailer(c);
    assert m[..|pre + body|] == pre + body && m[..|m|] == m;
    assert m[|pre + body| + 3..] == EncodeField(last)[3..];
    EncodeFieldsSnoc(fields, last);
    assert m[|pre|..] == EncodeFields(fields + [last]);
    assert Encodable(fields + [last]) by { EncodableSnoc(fields, last); }
    ParseEncodedFields(m, |pre|, fields + [last]);
  }

  lemma Trailer(c: nat)
    requires c < 256
    ensures EncodeField(Field(CHECK_SUM_TAG, CheckDigits(c)))[3..] == CheckDigits(c) + [SOH]
    ensures |EncodeField(Field(CHECK_SUM_TAG, CheckDigits(c)))| == CHECK_SUM_LEN
  {
    assert Decimal(10) == Decimal(1) + [ZERO];
  }

  lemma EncodableSnoc(fields: seq<Field>, f: Field)
    requires Encodable(fields) && SOH !in f.value
    ensures Encodable(fields + [f])
  {
  }

  // ----- Soundness of a successful parse

  /** Fields written out with the digit strings their tags had on the wire. */
  function Render(tags: seq<Text>, fields: seq<Field>): Text
    requires |tags| == |fields|
  {
    if fields == [] then [] else tags[0] + [EQUALS] + fields[0].value + [SOH] + Render(tags[1..], fields[1..])
  }

  predicate IsNumeral(d: Text, n: nat) {
    (forall i :: 0 <= i < |d| ==> IsDigit(d[i])) && DigitsValue(d, 0) == n
  }

  lemma {:induction false} ScanText(buf: Text, pos: nat, stop: Byte, acc: nat)
    requires pos <= |buf| && ScanNumber(buf, pos, stop, acc).Stopped?
    ensures var n := ScanNumber(buf, pos, stop, acc);
      && (forall i :: pos <= i < n.next - 1 ==> IsDigit(buf[i]))
      && DigitsValue(buf[pos..n.next - 1], acc) == n.value
    decreases |buf| - pos
  {
    if IsDigit(buf[pos]) {
      var n := ScanNumber(buf, pos, stop, acc);
      ScanText(buf, pos + 1, stop, acc * 10 + (buf[pos] - ZERO));
      assert buf[pos..n.next - 1][1..] == buf[pos + 1..n.next - 1];
    }
  }

  /** One step of a successful tag loop: the bytes up to the SOH are the tag, '=', the value and the SOH. */
  lemma StepTiles(m: Text, pos: nat) returns (tag: Text, field: Field, next: nat)
    requires pos <= |m| && ParseFields(m, pos).0 == OK
    ensures pos < next <= |m| && IsNumeral(tag, field.tag) && SOH !in field.value
    ensures m[pos..next] == tag + [EQUALS] + field.value + [SOH]
    ensures ParseFields(m, pos) ==
      if next == |m| then (OK, [field]) else (ParseFields(m, next).0, [field] + ParseFields(m, next).1)
  {
    hide DigitsValue, ScanNumber, FindSoh;
    var n := ScanNumber(m, pos, EQUALS, 0);
    var end := FindSoh(m, n.next);
    ScanText(m, pos, EQUALS, 0);
    tag, field, next := m[pos..n.next - 1], Field(n.value, m[n.next..end]), end + 1;
    assert m[pos..next] == m[pos..n.next - 1] + [EQUALS] + m[n.next..end] + [SOH];
  }

  lemma RenderCons(tag: Text, field: Field, tags: seq<Text>, fields: seq<Field>)
    requires |tags| == |fields|
    ensures Render([tag] + tags, [field] + fields) == tag + [EQUALS] + field.value + [SOH] + Render(tags, fields)
  {
    assert ([tag] + tags)[1..] == tags && ([field] + fields)[1..] == fields;
  }

  /** The reported fields cover the bytes from pos to the end, with nothing skipped. */
  lemma {:induction false} FieldsTile(m: Text, pos: nat) returns (tags: seq<Text>)
    requires pos <= |m| && ParseFields(m, pos).0 == OK
    ensures var fields := ParseFields(m, pos).1;
      && |tags| == |fields| && m[pos..] == Render(tags, fields)
      && forall i :: 0 <= i < |fields| ==> IsNumeral(tags[i], fields[i].tag) && SOH !in fields[i].value
    decreases |m| - pos
  {
    hide ParseFields, Render, IsNumeral;
    var tag, field, next := StepTiles(m, pos);
    if next == |m| {
      tags := [tag];
      assert m[pos..] == m[pos..next] == m[pos..next] + [];
      RenderCons(tag, field, [], []);
      assert [tag] + [] == [tag] && [field] + [] == [field];
      RenderNil();
    } else {
      var rest := FieldsTile(m, next);
      tags := [tag] + rest;
      assert m[pos..] == m[pos..next] + m[next..];
      RenderCons(tag, field, rest, ParseFields(m, next).1);
    }
  }

  lemma RenderNil()
    ensures Render([], []) == []
  {
  }

  /**
   A successful parse is sound: the reported fields tile the consumed bytes after the BodyLength
   field, and the supplied CheckSum is the sum of everything before the trailer modulo 256.
   */
  lemma Sound(buf: Text) returns (bodyStart: nat, tags: seq<Text>)
    requires Parse(buf, DEFAULT).result == OK
    ensures var o := Parse(buf, DEFAULT);
      && HEADER_LEN < bodyStart && bodyStart + CHECK_SUM_LEN < o.consumed <= |buf|
      && o.start == Started(o.consumed - CHECK_SUM_LEN - bodyStart, FixType(buf)) && o.ended
      && buf[bodyStart - 1] == SOH && IsNumeral(buf[HEADER_LEN..bodyStart - 1], o.consumed - CHECK_SUM_LEN - bodyStart)
      && |tags| == |o.fields| && buf[bodyStart..o.consumed] == Render(tags, o.fields)
      && (forall i :: 0 <= i < |tags| ==> IsNumeral(tags[i], o.fields[i].tag) && SOH !in o.fields[i].value)
      && Supplied(buf[o.consumed - 4..o.consumed]) == Sum(buf[..o.consumed - CHECK_SUM_LEN]) % 256
  {
    hide ParseFields, Render, ScanNumber, Sum, Supplied, Report, DigitsValue;
    var o, f := Parse(buf, DEFAULT), Frame(buf);
    var m := buf[..o.consumed];
    bodyStart := f.bodyStart;
    FrameScan(buf);
    ScanText(buf, HEADER_LEN, SOH, 0);
    tags := FieldsTile(m, bodyStart);
    ReportDefault(ParseFields(m, bodyStart).1, Sum(m[..bodyStart + f.msgLen]) % 256);
    assert m[bodyStart..] == buf[bodyStart..o.consumed];
    assert m[..bodyStart + f.msgLen] == buf[..o.consumed - CHECK_SUM_LEN];
    assert m[bodyStart + f.msgLen + 3..] == buf[o.consumed - 4..o.consumed];
  }

  lemma FrameScan(buf: Text)
    requires Frame(buf).Framed?
    ensures ScanNumber(buf, HEADER_LEN, SOH, 0) == Stopped(Frame(buf).msgLen, Frame(buf).bodyStart)
  {
  }

  // ----- Repairing a checksum

  /** b is a message up to the value of its CheckSum trailer: a body that ends in SOH, then "10=". */
  predicate UpToCheckSum(b: Text) {
    |b| >= 4 && b[|b| - 4] == SOH && b[|b| - 3..] == [ZERO + 1, ZERO, EQUALS]
  }

  /** The trailer is the last field reported, and its value does not affect how the others parse. */
  lemma {:induction false} TrailerValue(b: Text, d: Text, d': Text, pos: nat)
    requires UpToCheckSum(b) && SOH !in d && SOH !in d' && pos <= |b| - 3
    requires ParseFields(b + d + [SOH], pos).0 == OK
    ensures var f, f' := ParseFields(b + d + [SOH], pos), ParseFields(b + d' + [SOH], pos);
      && f'.0 == OK
      && |f'.1| == |f.1| > 0
      && f.1[|f.1| - 1] == Field(CHECK_SUM_TAG, d)
      && f'.1 == f.1[..|f.1| - 1] + [Field(CHECK_SUM_TAG, d')]
    decreases |b| - pos
  {
    hide ParseFields, UpToCheckSum, ScanNumber, FindSoh;
    if pos == |b| - 3 {
      TrailerAlone(b, d);
      TrailerAlone(b, d');
    } else {
      var field, next := StepInBody(b, d, d', pos);
      TrailerValue(b, d, d', next);
    }
  }

  lemma TenInDigits()
    ensures Decimal(CHECK_SUM_TAG) == [49, 48]
  {
    assert Decimal(10) == Decimal(1) + [ZERO];
  }

  lemma TrailerAlone(b: Text, d: Text)
    requires UpToCheckSum(b) && SOH !in d
    ensures ParseFields(b + d + [SOH], |b| - 3) == (OK, [Field(CHECK_SUM_TAG, d)])
  {
    hide ParseFields, Decimal, ScanNumber;
    var m, f := b + d + [SOH], Field(CHECK_SUM_TAG, d);
    TenInDigits();
    assert m[|b| - 3..|m|] == EncodeField(f);
    ParseOne(m, |b| - 3, f, |m|);
  }

  lemma FieldStep(m: Text, pos: nat, tag: nat, start: nat, end: nat)
    requires pos <= |m| && ScanNumber(m, pos, EQUALS, 0) == Stopped(tag, start)
    requires start <= end == FindSoh(m, start) && end + 1 < |m|
    ensures ParseFields(m, pos) == (ParseFields(m, end + 1).0, [Field(tag, m[start..end])] + ParseFields(m, end + 1).1)
  {
  }

  lemma TagStops(m: Text, pos: nat)
    requires pos <= |m| && ParseFields(m, pos).0 == OK
    ensures ScanNumber(m, pos, EQUALS, 0).Stopped?
  {
  }

  /** Before the trailer, a successful tag loop never runs past the SOH that ends the body. */
  lemma StepInBody(b: Text, d: Text, d': Text, pos: nat) returns (field: Field, next: nat)
    requires UpToCheckSum(b) && pos < |b| - 3 && ParseFields(b + d + [SOH], pos).0 == OK
    ensures pos < next <= |b| - 3
    ensures var m, m' := b + d + [SOH], b + d' + [SOH];
      && ParseFields(m, next).0 == OK
      && ParseFields(m, pos) == (OK, [field] + ParseFields(m, next).1)
      && ParseFields(m', pos) == (ParseFields(m', next).0, [field] + ParseFields(m', next).1)
  {
    hide ScanNumber, FindSoh, ParseFields;
    var m, m' := b + d + [SOH], b + d' + [SOH];
    TagStops(m, pos);
    var n := ScanNumber(m, pos, EQUALS, 0);
    ScanBeforeSoh(m, pos, |b| - 4, EQUALS, 0);
    FindSohBefore(m, n.next, |b| - 4);
    var end := FindSoh(m, n.next);
    field, next := Field(n.value, m[n.next..end]), end + 1;
    assert m[..|b|] == b && m'[..|b|] == b;
    ScanSame(m, m', |b|, pos, EQUALS, 0);
    assert m'[n.next..end] == m[n.next..end];
    FindSohAt(m', n.next, end);
    FieldStep(m, pos, n.value, n.next, end);
    FieldStep(m', pos, n.value, n.next, end);
  }

  /**
   Under both options a message parses whatever its CheckSum says, and the value reported for tag 10
   is the one to put there: with it the message passes the default parse.
   */
  lemma RepairedCheckSum(b: Text, d: Text)
    requires UpToCheckSum(b) && |d| == 3 && SOH !in d && IsMessage(b + d + [SOH])
    requires Parse(b + d + [SOH], Options(true, true)).result == OK
    ensures var fields := Parse(b + d + [SOH], Options(true, true)).fields;
      && fields != [] && fields[|fields| - 1].tag == CHECK_SUM_TAG
      && var d' := fields[|fields| - 1].value; |d'| == 3 && Parse(b + d' + [SOH], DEFAULT).result == OK
  {
    hide ParseFields, ScanNumber, Sum, Supplied, CheckDigits, UpToCheckSum;
    var m, f := b + d + [SOH], Frame(b + d + [SOH]);
    var c := Sum(m[..f.bodyStart + f.msgLen]) % 256;
    var d' := CheckDigits(c);
    var m' := b + d' + [SOH];
    SuppliedCheckDigits(c);
    assert m[..|m|] == m && m'[..|m'|] == m';
    BodyBeforeTrailer(m, |m| - CHECK_SUM_LEN);
    TrailerValue(b, d, d', f.bodyStart);
    SameFrame(m, m');
    assert m[..f.bodyStart + f.msgLen] == m'[..f.bodyStart + f.msgLen];
    assert m'[f.bodyStart + f.msgLen + 3..] == d' + [SOH];
  }

  lemma BodyBeforeTrailer(m: Text, k: nat)
    requires IsMessage(m) && k == |m| - CHECK_SUM_LEN
    ensures Frame(m).bodyStart < k == Frame(m).bodyStart + Frame(m).msgLen
  {
  }

  /** Messages that differ only in the trailer are framed alike. */
  lemma SameFrame(m: Text, m': Text)
    requires IsMessage(m) && |m'| == |m| && m'[..|m| - CHECK_SUM_LEN] == m[..|m| - CHECK_SUM_LEN]
    ensures Frame(m') == Frame(m)
  {
    var k := |m| - CHECK_SUM_LEN;
    assert m'[..HEADER_LEN] == m'[..k][..HEADER_LEN] == m[..k][..HEADER_LEN] == m[..HEADER_LEN];
    ScanSame(m, m', k, HEADER_LEN, SOH, 0);
  }

  lemma {:induction false} FindSohBefore(m: Text, pos: nat, soh: nat)
    requires pos <= soh < |m| && m[soh] == SOH
    ensures FindSoh(m, pos) <= soh
    decreases soh - pos
  {
    if m[pos] != SOH { FindSohBefore(m, pos + 1, soh); }
  }

  lemma {:induction false} ScanBeforeSoh(m: Text, pos: nat, soh: nat, stop: Byte, acc: nat)
    requires pos <= soh < |m| && m[soh] == SOH && stop != SOH && ScanNumber(m, pos, stop, acc).Stopped?
    ensures ScanNumber(m, pos, stop, acc).next <= soh
    decreases soh - pos
  {
    if IsDigit(m[pos]) { ScanBeforeSoh(m, pos + 1, soh, stop, acc * 10 + (m[pos] - ZERO)); }
  }

  lemma {:induction false} ScanSame(m: Text, m': Text, k: nat, pos: nat, stop: Byte, acc: nat)
    requires pos <= k <= |m| && k <= |m'| && m[..k] == m'[..k]
    requires ScanNumber(m, pos, stop, acc).Stopped? && ScanNumber(m, pos, stop, acc).next <= k
    ensures ScanNumber(m', pos, stop, acc) == ScanNumber(m, pos, stop, acc)
    decreases k - pos
  {
    assert pos < k ==> m[pos] == m[..k][pos] == m'[..k][pos] == m'[pos];
    if pos < k && IsDigit(m[pos]) { ScanSame(m, m', k, pos + 1, stop, acc * 10 + (m[pos] - ZERO)); }
  }
}
