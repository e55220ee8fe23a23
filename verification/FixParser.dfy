/** The FIX tag=value parser: framing by BodyLength, CheckSum validation, and the tag callbacks. */
module FixParser {
  import opened Bytes
  import opened Opt = Options

  const OK := 0
  const EMESSAGETOOSHORT := -1
  const ECHECKSUMINVALID := -2
  const ETAGINVALID := -3
  const EEMPTYVALUE := -4
  const EINVALIDTYPE := -5

  const HEADER_LEN := 12
  const CHECK_SUM_LEN := 7
  const CHECK_SUM_TAG := 10

  /** "8=FIX.4.2" SOH "9=" and its 4.4 sibling. */
  const HEADER_42: Text := [56, 61, 70, 73, 88, 46, 52, 46, 50, 1, 57, 61]
  const HEADER_44: Text := [56, 61, 70, 73, 88, 46, 52, 46, 52, 1, 57, 61]

  /** FIX_OPT_SKIP_VERIFY_CHECKSUM and FIX_OPT_REPORT_CALCULATED_CHECKSUM_FOR_TAG_10. */
  datatype Options = Options(skipVerify: bool, reportCalculated: bool)

  const DEFAULT := Options(false, false)

  datatype Field = Field(tag: nat, value: Text)

  /** The call to startp. */
  datatype Start = NotStarted | Started(msgLen: nat, fixType: int)

  /** A parse result and the callbacks made on the way: startp, the tagp calls in order, endp. */
  datatype Outcome = Outcome(result: int, consumed: nat, start: Start, fields: seq<Field>, ended: bool)

  // ----- Numbers

  /** A scan of digits up to a terminator byte: finished just after it, out of bytes, or at a byte that is neither. */
  datatype Scan = Stopped(value: nat, next: nat) | RanOut(value: nat) | Bad

  function ScanNumber(buf: Text, pos: nat, stop: Byte, acc: nat): (r: Scan)
    requires pos <= |buf|
    ensures r.Stopped? ==> pos < r.next <= |buf| && buf[r.next - 1] == stop
    decreases |buf| - pos
  {
    if pos == |buf| then RanOut(acc)
    else if IsDigit(buf[pos]) then ScanNumber(buf, pos + 1, stop, acc * 10 + (buf[pos] - ZERO))
    else if buf[pos] == stop then Stopped(acc, pos + 1)
    else Bad
  }

  /** The first SOH at or after pos. */
  function FindSoh(buf: Text, pos: nat): (r: nat)
    requires pos <= |buf|
    ensures pos <= r <= |buf| && (r < |buf| ==> buf[r] == SOH)
    ensures SOH !in buf[pos..r]
    decreases |buf| - pos
  {
    if pos == |buf| || buf[pos] == SOH then pos
    else
      assert buf[pos..FindSoh(buf, pos + 1)] == [buf[pos]] + buf[pos + 1..FindSoh(buf, pos + 1)];
      FindSoh(buf, pos + 1)
  }

  // ----- Checksum

  /** supplied_checksum: three characters read as digits without looking at them. */
  function Supplied(d: Text): int
    requires |d| >= 3
  {
    (Signed(d[0]) - ZERO) * 100 + (Signed(d[1]) - ZERO) * 10 + (Signed(d[2]) - ZERO)
  }

  /** The three characters reported in place of the value of tag 10. */
  function CheckDigits(c: nat): (d: Text)
    requires c < 256
    ensures |d| == 3
  {
    [ZERO + c / 100, ZERO + c / 10 % 10, ZERO + c % 10]
  }

  // ----- Framing

  /** How the header and BodyLength frame the bytes at hand. */
  datatype Framing = Short | BadType | BadLength | Framed(fixType: int, bodyStart: nat, msgLen: nat)

  function FixType(buf: Text): int
    requires |buf| >= HEADER_LEN
  {
    if buf[..HEADER_LEN] == HEADER_44 then 44
    else if buf[..HEADER_LEN] == HEADER_42 then 42
    else -1
  }

  function Frame(buf: Text): (f: Framing)
    ensures f.Framed? ==> 0 < f.msgLen && HEADER_LEN < f.bodyStart && f.bodyStart + f.msgLen + CHECK_SUM_LEN <= |buf|
  {
    if |buf| < HEADER_LEN then Short
    else if FixType(buf) == -1 then BadType
    else
      match ScanNumber(buf, HEADER_LEN, SOH, 0)
      case Bad => BadLength
      case RanOut(_) => Short
      case Stopped(n, next) =>
        if n == 0 || n > |buf| - next - CHECK_SUM_LEN then Short else Framed(FixType(buf), next, n)
  }

  // ----- Fields

  /** The tag loop over a whole message: the result code and the fields reported before it. */
  function ParseFields(buf: Text, pos: nat): (r: (int, seq<Field>))
    requires pos <= |buf|
    decreases |buf| - pos
  {
    match ScanNumber(buf, pos, EQUALS, 0)
    case Bad => (ETAGINVALID, [])
    case RanOut(_) => (EEMPTYVALUE, [])
    case Stopped(tag, start) =>
      var end := FindSoh(buf, start);
      if end == |buf| then (EEMPTYVALUE, [])
      else
        var field := Field(tag, buf[start..end]);
        if end + 1 == |buf| then (OK, [field])
        else
          var rest := ParseFields(buf, end + 1);
          (rest.0, [field] + rest.1)
  }

  /** What the tag callback is told: the value, or the calculated checksum when that is to be reported for tag 10. */
  function ReportField(field: Field, checksum: nat, options: Options): Field
    requires checksum < 256
  {
    if options.reportCalculated && field.tag == CHECK_SUM_TAG then field.(value := CheckDigits(checksum)) else field
  }

  function Report(fields: seq<Field>, checksum: nat, options: Options): (r: seq<Field>)
    requires checksum < 256
    ensures |r| == |fields|
  {
    seq(|fields|, i requires 0 <= i < |fields| => ReportField(fields[i], checksum, options))
  }

  lemma ReportDefault(fields: seq<Field>, checksum: nat)
    requires checksum < 256
    ensures Report(fields, checksum, DEFAULT) == fields
  {
  }

  /** vmars_fix_parse_msg after framing; m is exactly the framed message. */
  function ParseFramed(m: Text, fixType: int, bodyStart: nat, msgLen: nat, options: Options): Outcome
    requires bodyStart + msgLen + CHECK_SUM_LEN == |m|
  {
    var checksum := Sum(m[..bodyStart + msgLen]) % 256;
    if !options.skipVerify && checksum != Supplied(m[bodyStart + msgLen + 3..]) then
      Outcome(ECHECKSUMINVALID, |m|, NotStarted, [], false)
    else
      var (result, fields) := ParseFields(m, bodyStart);
      Outcome(result, |m|, Started(msgLen, fixType), Report(fields, checksum, options), result == OK)
  }

  /** The parse of a buffer as a function of its bytes. */
  function Parse(buf: Text, options: Options): (o: Outcome)
    ensures o.consumed <= |buf| && (buf != [] ==> o.consumed > 0)
  {
    match Frame(buf)
    case Short => Outcome(EMESSAGETOOSHORT, |buf|, NotStarted, [], false)
    case BadType => Outcome(EINVALIDTYPE, |buf|, NotStarted, [], false)
    case BadLength => Outcome(ETAGINVALID, |buf|, NotStarted, [], false)
    case Framed(fixType, bodyStart, msgLen) =>
      ParseFramed(buf[..bodyStart + msgLen + CHECK_SUM_LEN], fixType, bodyStart, msgLen, options)
  }

  // ----- A parser that is told more bytes than there are

  /** A parse, or ReadPast when it reads behind the memory it is given. */
  datatype Parsed = ReadPast | Parsed(outcome: Outcome)

  /** The bytes that the parser can see: mem is all the memory there is, len what the caller claims. */
  function Seen(mem: Text, len: nat): (m: Text)
    ensures m <= mem && |m| == if len <= |mem| then len else |mem|
  {
    if len <= |mem| then mem[..len] else mem
  }

  /** The tag loop on a message of length len; without a bad tag it reads all of the message. */
  function ParseFieldsIn(mem: Text, pos: nat, len: nat): Option<(int, seq<Field>)>
    requires pos <= |mem| && pos <= len
  {
    var r := ParseFields(Seen(mem, len), pos);
    if len <= |mem| || r.0 == ETAGINVALID then Some(r) else None
  }

  /** A message framed in the claimed length: its checksums reach up to its last byte but one. */
  function ParseFramedIn(mem: Text, fixType: int, bodyStart: nat, msgLen: nat, options: Options): Parsed
  {
    var len := bodyStart + msgLen + CHECK_SUM_LEN;
    if len <= |mem| then Parsed(ParseFramed(mem[..len], fixType, bodyStart, msgLen, options))
    else if len - 1 > |mem| then ReadPast
    else
      var checksum := Sum(mem[..bodyStart + msgLen]) % 256;
      if !options.skipVerify && checksum != Supplied(mem[bodyStart + msgLen + 3..]) then
        Parsed(Outcome(ECHECKSUMINVALID, len, NotStarted, [], false))
      else
        match ParseFieldsIn(mem, bodyStart, len)
        case None => ReadPast
        case Some((result, fields)) =>
          Parsed(Outcome(result, len, Started(msgLen, fixType), Report(fields, checksum, options), result == OK))
  }

  /** strncmp with the two headers: reads on as long as the memory agrees with one of them. */
  function FixTypeIn(mem: Text): Option<int> {
    if |mem| >= HEADER_LEN then Some(FixType(mem))
    else if mem <= HEADER_42 || mem <= HEADER_44 then None
    else Some(-1)
  }

  /** vmars_fix_parse_msg as a function: which bytes it reads decides whether it gets behind the memory. */
  function ParseIn(mem: Text, len: nat, options: Options): (r: Parsed)
    ensures r.Parsed? ==> r.outcome.consumed <= len && (len > 0 ==> r.outcome.consumed > 0)
  {
    if HEADER_LEN > len then Parsed(Outcome(EMESSAGETOOSHORT, len, NotStarted, [], false))
    else
      match FixTypeIn(mem)
      case None => ReadPast
      case Some(fixType) =>
        if fixType == -1 then Parsed(Outcome(EINVALIDTYPE, len, NotStarted, [], false))
        else
          match ScanNumber(Seen(mem, len), HEADER_LEN, SOH, 0)
          case Bad => Parsed(Outcome(ETAGINVALID, len, NotStarted, [], false))
          case RanOut(_) =>
            if len <= |mem| then Parsed(Outcome(EMESSAGETOOSHORT, len, NotStarted, [], false)) else ReadPast
          case Stopped(n, next) =>
            if n == 0 || n > len - next - CHECK_SUM_LEN then
              Parsed(Outcome(EMESSAGETOOSHORT, len, NotStarted, [], false))
            else ParseFramedIn(mem, fixType, next, n, options)
  }

  /** With the memory to hold the claimed length, the parse is that of those bytes. */
  lemma ParseInside(mem: Text, len: nat, options: Options)
    requires len <= |mem|
    ensures ParseIn(mem, len, options) == Parsed(Parse(mem[..len], options))
  {
    hide ParseFramed, ScanNumber;
    var buf := mem[..len];
    if HEADER_LEN <= len {
      assert buf[..HEADER_LEN] == mem[..HEADER_LEN];
      match ScanNumber(buf, HEADER_LEN, SOH, 0)
      case Stopped(n, next) =>
        var t := next + n + CHECK_SUM_LEN;
        if 0 < n && t <= len { assert buf[..t] == mem[..t]; }
      case _ =>
    }
  }

  // ----- The imperative parser

  lemma {:induction false} SumAppend(s: Text, t: Text)
    ensures Sum(s + t) == Sum(s) + Sum(t)
  {
    if t == [] {
      assert s + t == s;
    } else {
      SumAppend(s, t[..|t| - 1]);
      assert (s + t)[..|s + t| - 1] == s + t[..|t| - 1];
    }
  }

  /** psadbw against zero: the sum of eight unsigned bytes. */
  method SumOfEight(buf: Text, at: nat) returns (r: nat)
    requires at + 8 <= |buf|
    ensures r == Sum(buf[at..at + 8])
  {
    r := 0;
    for i := 0 to 8
      invariant r == Sum(buf[at..at + i])
    {
      assert buf[at..at + (i + 1)][..i] == buf[at..at + i];
      r := r + buf[at + i];
    }
  }

  /** calculate_checksum: eight unsigned bytes at a time, then the signed characters left over, masked to 8 bits. */
  method CalculateChecksum(buf: Text) returns (r: nat)
    ensures r == Sum(buf) % 256
  {
    hide Sum;
    SumNone();
    var extra, ii := |buf| % 8, |buf| / 8;
    var sum: int := 0;
    var at := 0;
    assert buf[..0] == [];
    while ii > 0
      invariant 0 <= ii && at + 8 * ii + extra == |buf|
      invariant sum == Sum(buf[..at])
    {
      var block := SumOfEight(buf, at);
      SumAppend(buf[..at], buf[at..at + 8]);
      assert buf[..at + 8] == buf[..at] + buf[at..at + 8];
      sum, ii, at := sum + block, ii - 1, at + 8;
    }
    ghost var wraps := 0;
    var k := |buf| - extra;
    while k < |buf|
      invariant |buf| - extra <= k <= |buf|
      invariant sum == Sum(buf[..k]) - 256 * wraps
    {
      SumNext(buf, k);
      wraps := wraps + if buf[k] < 128 then 0 else 1;
      sum, k := sum + Signed(buf[k]), k + 1;
    }
    assert buf[..k] == buf;
    ModWraps(Sum(buf), wraps);
    r := sum % 256;
  }

  lemma SumNone()
    ensures Sum([]) == 0
  {
  }

  lemma SumNext(buf: Text, k: nat)
    requires k < |buf|
    ensures Sum(buf[..k + 1]) == Sum(buf[..k]) + buf[k]
  {
    assert buf[..k + 1][..k] == buf[..k];
  }

  lemma ModWraps(x: int, wraps: int)
    ensures (x - 256 * wraps) % 256 == x % 256
  {
  }

  /** The digit loops of BodyLength (up to SOH) and of a tag (up to '='); past when they read behind the memory. */
  method ReadNumber(mem: Text, start: nat, len: nat, stop: Byte)
      returns (value: nat, position: nat, bad: bool, past: bool)
    requires start <= len && start <= |mem|
    ensures match ScanNumber(Seen(mem, len), start, stop, 0)
      case Bad => bad && !past
      case RanOut(v) => !bad && (past <==> len > |mem|) && (!past ==> position == len && value == v)
      case Stopped(v, next) => !bad && !past && position == next && value == v
  {
    ghost var m := Seen(mem, len);
    value, position, bad, past := 0, start, false, false;
    while position < len
      invariant start <= position <= |m| && !bad && !past
      invariant ScanNumber(m, start, stop, 0) == ScanNumber(m, position, stop, value)
    {
      if position == |mem| {
        past := true;
        return;
      }
      var b := mem[position];
      position := position + 1;
      if IsDigit(b) {
        value := value * 10 + (b - ZERO);
      } else if b == stop {
        return;
      } else {
        bad := true;
        return;
      }
    }
  }

  /** vmars_fix_parse_msg */
  method FixParseMsg(mem: Text, len: nat, options: Options) returns (r: Parsed)
    ensures r == ParseIn(mem, len, options)
  {
    hide ScanNumber, ParseFramedIn;
    if HEADER_LEN > len {
      return Parsed(Outcome(EMESSAGETOOSHORT, len, NotStarted, [], false));
    }
    var header := FixTypeIn(mem);
    if header.None? {
      return ReadPast;
    }
    var fixType := header.value;
    if fixType == -1 {
      return Parsed(Outcome(EINVALIDTYPE, len, NotStarted, [], false));
    }
    var msgLen, position, bad, past := ReadNumber(mem, HEADER_LEN, len, SOH);
    if past {
      return ReadPast;
    }
    if bad {
      return Parsed(Outcome(ETAGINVALID, len, NotStarted, [], false));
    }
    if 0 == msgLen || msgLen > (len - position) - CHECK_SUM_LEN {
      return Parsed(Outcome(EMESSAGETOOSHORT, len, NotStarted, [], false));
    }
    r := ParseMessage(mem, fixType, position, msgLen, options);
  }

  /** The rest of vmars_fix_parse_msg, once the length of the message is known. */
  method ParseMessage(mem: Text, fixType: int, position: nat, msgLen: nat, options: Options) returns (r: Parsed)
    requires 0 < msgLen && position <= |mem|
    ensures r == ParseFramedIn(mem, fixType, position, msgLen, options)
  {
    hide ParseFields, Sum, Report;
    var len := msgLen + position + CHECK_SUM_LEN;
    if len - 1 > |mem| {
      return ReadPast;
    }
    ghost var m := Seen(mem, len);
    assert m[..msgLen + position] == mem[..msgLen + position];
    var calculated := CalculateChecksum(mem[..msgLen + position]);
    var supplied := Supplied(mem[position + msgLen + 3..]);
    assert supplied == Supplied(m[position + msgLen + 3..]);
    if !options.skipVerify && calculated != supplied {
      return Parsed(Outcome(ECHECKSUMINVALID, len, NotStarted, [], false));
    }
    var past, result, fields := ParseTags(mem, position, len, calculated, options);
    if past {
      return ReadPast;
    }
    return Parsed(Outcome(result, len, Started(msgLen, fixType), fields, result == OK));
  }

  /** The inner loop that looks for the SOH after a value; valueEnd is -1 when there is none. */
  method ReadValue(mem: Text, start: nat, len: nat) returns (valueEnd: int, position: nat, past: bool)
    requires start <= len && start <= |mem|
    ensures var m := Seen(mem, len); var end := FindSoh(m, start);
      if end < |m| then !past && valueEnd == end && position == end + 1
      else valueEnd == -1 && (past <==> len > |mem|)
  {
    ghost var m := Seen(mem, len);
    valueEnd, position, past := -1, start, false;
    while position < len
      invariant start <= position <= |m| && valueEnd == -1 && !past
      invariant FindSoh(m, start) == FindSoh(m, position)
    {
      if position == |mem| {
        past := true;
        return;
      }
      var b := mem[position];
      position := position + 1;
      if b == SOH {
        valueEnd := position - 1;
        return;
      }
    }
  }

  lemma ReportSnoc(fields: seq<Field>, field: Field, checksum: nat, options: Options)
    requires checksum < 256
    ensures Report(fields + [field], checksum, options)
      == Report(fields, checksum, options) + [ReportField(field, checksum, options)]
  {
  }

  lemma ConsSnoc<T>(a: seq<T>, x: T, b: seq<T>)
    ensures a + ([x] + b) == (a + [x]) + b
  {
  }

  /** The do-while loop over the tags. */
  method ParseTags(mem: Text, bodyStart: nat, len: nat, calculated: nat, options: Options)
      returns (past: bool, result: int, fields: seq<Field>)
    requires bodyStart < len && bodyStart < |mem| && calculated < 256
    ensures match ParseFieldsIn(mem, bodyStart, len)
      case None => past
      case Some((code, all)) => !past && result == code && fields == Report(all, calculated, options)
  {
    hide Report, ScanNumber, FindSoh;
    ghost var m := Seen(mem, len);
    ghost var all := ParseFields(m, bodyStart);
    ghost var done: seq<Field> := [];
    var position := bodyStart;
    past, result, fields := false, OK, [];
    assert done + all.1 == all.1;
    while true
      invariant bodyStart <= position < |m| && !past
      invariant fields == Report(done, calculated, options)
      invariant all == (ParseFields(m, position).0, done + ParseFields(m, position).1)
      decreases |m| - position
    {
      var tag, valueStart, bad, pastTag := ReadNumber(mem, position, len, EQUALS);
      if pastTag {
        past := true;
        return;
      }
      if bad {
        assert done + [] == done;
        result := ETAGINVALID;
        return;
      }
      var valueEnd, next, pastValue := ReadValue(mem, valueStart, len);
      if pastValue {
        past := true;
        return;
      }
      if valueEnd == -1 {
        assert done + [] == done;
        result := EEMPTYVALUE;
        return;
      }
      ghost var field := Field(tag, m[valueStart..valueEnd]);
      assert m[valueStart..valueEnd] == mem[valueStart..valueEnd];
      ReportSnoc(done, field, calculated, options);
      if options.reportCalculated && tag == CHECK_SUM_TAG {
        fields := fields + [Field(tag, CheckDigits(calculated))];
      } else {
        fields := fields + [Field(tag, mem[valueStart..valueEnd])];
      }
      if !(next < len) {
        assert all == (OK, done + [field]);
        return;
      }
      if next == |mem| {
        // the next tag would start behind the memory
        past := true;
        return;
      }
      ConsSnoc(done, field, ParseFields(m, next).1);
      done := done + [field];
      position := next;
    }
  }
}
