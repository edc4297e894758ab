/** Log entries and their two codecs (src/common/log_entry.cpp): one text line
    in the log files, a binary record on the wire. */
module LogEntries {
  import opened Bytes
  import opened Streams
  import opened Serializable

  datatype LogEntry = LogEntry(id: U64, name: seq<Byte>, timestamp: U64, kind: U32, value: U64)

  /** Whatever uninitialised memory holds when a reader leaves it unset: the
      fields of a fresh entry, a local kind, a local four-byte count. */
  datatype StaleMemory = StaleMemory(entry: LogEntry, kind: U32, bytes: seq<Byte>)

  type Stale = m: StaleMemory | |m.bytes| == 4
    witness StaleMemory(LogEntry(0, [], 0, 0, 0), 0, [0, 0, 0, 0])

  /** `id + 1` on 64 bits. */
  function Succ(id: U64): U64 {
    (id + 1) % TWO_64
  }

  /** Names that survive the text form. */
  predicate TextSafe(name: seq<Byte>) {
    BAR !in name && LF !in name
  }

  // ---- text form

  /** The fields after the name. */
  function TextTail(e: LogEntry): seq<Byte> {
    Decimal(e.timestamp) + [BAR] + (Decimal(e.kind) + [BAR] + Decimal(e.value))
  }

  function TextBody(e: LogEntry): seq<Byte> {
    Decimal(e.id) + [BAR] + (e.name + [BAR] + TextTail(e))
  }

  function TextLine(e: LogEntry): seq<Byte> {
    TextBody(e) + [LF]
  }

  /** A log file: the lines of its entries. */
  function Lines(es: seq<LogEntry>): seq<Byte> {
    if es == [] then [] else Lines(es[..|es| - 1]) + TextLine(es[|es| - 1])
  }

  lemma {:induction false} LinesConcat(a: seq<LogEntry>, b: seq<LogEntry>)
    ensures Lines(a + b) == Lines(a) + Lines(b)
  {
    hide TextLine;
    if b == [] {
      assert a + b == a;
    } else {
      assert (a + b)[..|a + b| - 1] == a + b[..|b| - 1];
      LinesConcat(a, b[..|b| - 1]);
    }
  }

  lemma LinesSnoc(es: seq<LogEntry>, e: LogEntry)
    ensures Lines(es + [e]) == Lines(es) + TextLine(e)
  {
    hide TextLine;
    assert (es + [e])[..|es|] == es;
  }

  lemma LinesOne(e: LogEntry)
    ensures Lines([e]) == TextLine(e)
  {
    assert [e][..0] == [];
  }

  datatype Parsed = Parsed(ret: int, entry: LogEntry, next: Input)

  /** Splitting one line at the bars.  `prior` is what the entry held before and
      `junk` the uninitialised kind: a field that is missing or not a number
      leaves its target as it was, and a stream that has run out leaves the
      previous field's text in the scratch string. */
  function ParseBody(line: seq<Byte>, prior: LogEntry, junk: U32): LogEntry {
    var f1 := LineOf(Fresh(line), BAR, []);
    var f2 := LineOf(f1.next, BAR, prior.name);
    var f3 := LineOf(f2.next, BAR, f1.text);
    var f4 := LineOf(f3.next, BAR, f3.text);
    var f5 := LineOf(f4.next, BAR, f4.text);
    LogEntry(FromChars(f1.text, prior.id, TWO_64), f2.text,
             FromChars(f3.text, prior.timestamp, TWO_64),
             FromChars(f4.text, junk, TWO_32),
             FromChars(f5.text, prior.value, TWO_64))
  }

  function ParseLine(inp: Input, prior: LogEntry, junk: U32): Parsed {
    var l := LineOf(inp, LF, []);
    if !l.ok || l.text == [] then Parsed(1, prior, l.next)
    else Parsed(0, ParseBody(l.text, prior, junk), l.next)
  }

  lemma DecimalHas(n: nat, b: Byte)
    requires !IsDigit(b)
    ensures b !in Decimal(n)
  {
  }

  /** Reading the field before a bar. */
  lemma FieldBack(field: seq<Byte>, rest: seq<Byte>, prior: seq<Byte>)
    requires BAR !in field
    ensures LineOf(Fresh(field + [BAR] + rest), BAR, prior) == Line(field, Fresh(rest), true)
  {
    FindIs(field, BAR, rest);
    assert (field + [BAR] + rest)[..|field|] == field;
    assert (field + [BAR] + rest)[|field| + 1..] == rest;
  }

  /** Reading the last field of a line. */
  lemma LastFieldBack(field: seq<Byte>, prior: seq<Byte>)
    requires BAR !in field && field != []
    ensures LineOf(Fresh(field), BAR, prior) == Line(field, Input([], false), true)
  {
    assert Find(field, BAR) == |field|;
  }

  /** The id is recovered from any line that starts with it and a bar. */
  lemma IdBack(id: U64, rest: seq<Byte>, prior: LogEntry, junk: U32)
    ensures ParseBody(Decimal(id) + [BAR] + rest, prior, junk).id == id
  {
    DecimalHas(id, BAR);
    FieldBack(Decimal(id), rest, []);
    assert Decimal(id) + [] == Decimal(id);
    FromCharsOfDecimal(id, [], prior.id, TWO_64);
  }

  lemma BodyBack(e: LogEntry, prior: LogEntry, junk: U32)
    requires BAR !in e.name
    ensures ParseBody(TextBody(e), prior, junk) == e
  {
    DecimalHas(e.id, BAR); DecimalHas(e.timestamp, BAR);
    DecimalHas(e.kind, BAR); DecimalHas(e.value, BAR);
    FieldBack(Decimal(e.id), e.name + [BAR] + TextTail(e), []);
    FieldBack(e.name, TextTail(e), prior.name);
    FieldBack(Decimal(e.timestamp), Decimal(e.kind) + [BAR] + Decimal(e.value), Decimal(e.id));
    FieldBack(Decimal(e.kind), Decimal(e.value), Decimal(e.timestamp));
    LastFieldBack(Decimal(e.value), Decimal(e.kind));
    NumberBack(e.id, prior.id, TWO_64);
    NumberBack(e.timestamp, prior.timestamp, TWO_64);
    NumberBack(e.kind, junk, TWO_32);
    NumberBack(e.value, prior.value, TWO_64);
  }

  lemma NumberBack(n: nat, prior: nat, limit: nat)
    requires n < limit
    ensures FromChars(Decimal(n), prior, limit) == n
  {
    assert Decimal(n) + [] == Decimal(n);
    FromCharsOfDecimal(n, [], prior, limit);
  }

  lemma BodyHasNoNewline(e: LogEntry)
    requires LF !in e.name
    ensures LF !in TextBody(e)
  {
    DecimalHas(e.id, LF); DecimalHas(e.timestamp, LF);
    DecimalHas(e.kind, LF); DecimalHas(e.value, LF);
  }

  /** A written line parses back to its entry, whatever memory held before, and
      exactly that line of a longer file is consumed. */
  lemma LineBack(e: LogEntry, rest: seq<Byte>, prior: LogEntry, junk: U32)
    requires TextSafe(e.name)
    ensures ParseLine(Fresh(TextLine(e) + rest), prior, junk) == Parsed(0, e, Fresh(rest))
  {
    BodyHasNoNewline(e);
    var s := TextBody(e) + [LF] + rest;
    assert TextLine(e) + rest == s;
    FindIs(TextBody(e), LF, rest);
    assert s[..|TextBody(e)|] == TextBody(e) && s[|TextBody(e)| + 1..] == rest;
    BodyBack(e, prior, junk);
  }

  /** A parsed name never holds a bar or a newline unless it was there before. */
  lemma ParsedNameIsSafe(e: LogEntry, rest: seq<Byte>, prior: LogEntry, junk: U32)
    ensures TextSafe(ParseLine(Fresh(TextLine(e) + rest), prior, junk).entry.name)
  {
    var s := TextLine(e) + rest;
    var after := e.name + [BAR] + TextTail(e) + [LF] + rest;
    assert s == Decimal(e.id) + [BAR] + after;
    var k := Find(s, LF);
    DecimalHas(e.id, LF); DecimalHas(e.id, BAR);
    var d := |Decimal(e.id)|;
    assert forall i :: 0 <= i < d ==> s[i] == Decimal(e.id)[i];
    assert s[d] == BAR;
    assert s[|TextBody(e)|] == LF;
    assert d < k < |s|;
    assert s[..k] == Decimal(e.id) + [BAR] + s[d + 1..k];
    FieldBack(Decimal(e.id), s[d + 1..k], []);
    assert LF !in s[d + 1..k];
  }

  /** The text form round trips exactly for the safe names. */
  lemma LineBackIff(e: LogEntry, rest: seq<Byte>, prior: LogEntry, junk: U32)
    ensures ParseLine(Fresh(TextLine(e) + rest), prior, junk).entry == e <==> TextSafe(e.name)
  {
    if TextSafe(e.name) {
      LineBack(e, rest, prior, junk);
    } else {
      ParsedNameIsSafe(e, rest, prior, junk);
    }
  }

  /** The line, byte by byte: five fields, bars between them, a newline. */
  lemma TextLineIs(e: LogEntry)
    ensures TextLine(e) == Decimal(e.id) + [124] + e.name + [124] + Decimal(e.timestamp) + [124]
                           + Decimal(e.kind) + [124] + Decimal(e.value) + [10]
  {
    Flat(Decimal(e.id), e.name, Decimal(e.timestamp), Decimal(e.kind), Decimal(e.value));
  }

  // ---- lines of any other form

  /** Fields with bars between them. */
  function Joined(fields: seq<seq<Byte>>): seq<Byte> {
    if fields == [] then []
    else if |fields| == 1 then fields[0]
    else fields[0] + [124] + Joined(fields[1..])
  }

  ghost predicate NoBars(fields: seq<seq<Byte>>) {
    forall i :: 0 <= i < |fields| ==> 124 !in fields[i]
  }

  /** Every line is fields with bars between them. */
  lemma {:induction false} FieldsOf(line: seq<Byte>) returns (fields: seq<seq<Byte>>)
    ensures fields != [] && NoBars(fields) && line == Joined(fields)
    decreases |line|
  {
    var k := Find(line, BAR);
    if k == |line| {
      fields := [line];
    } else {
      var more := FieldsOf(line[k + 1..]);
      fields := [line[..k]] + more;
      assert fields[1..] == more;
    }
  }

  /** Reading the next field, and from a stream that has run out, nothing. */
  lemma NextField(fields: seq<seq<Byte>>, prior: seq<Byte>)
    requires fields != [] && NoBars(fields)
    ensures var l := LineOf(Fresh(Joined(fields)), BAR, prior);
            && l.text == fields[0]
            && (|fields| > 1 ==> l.next == Fresh(Joined(fields[1..])) && NoBars(fields[1..]))
            && (|fields| == 1 ==> !l.next.good)
  {
    if |fields| > 1 {
      FieldBack(fields[0], Joined(fields[1..]), prior);
    }
  }

  lemma NothingMore(inp: Input, prior: seq<Byte>)
    requires !inp.good
    ensures LineOf(inp, BAR, prior).text == prior && !LineOf(inp, BAR, prior).next.good
  {
  }

  /** What any line parses to, field by field: a missing name leaves the entry's, a
      missing timestamp is read from the first field again, a missing kind or value
      from the field read before it; and a field that is no number that fits leaves
      what memory held. */
  lemma FieldsParsed(fields: seq<seq<Byte>>, prior: LogEntry, junk: U32)
    requires fields != [] && NoBars(fields)
    ensures var n := |fields|;
            var timestamp := if n > 2 then fields[2] else fields[0];
            var kind := if n > 3 then fields[3] else timestamp;
            var value := if n > 4 then fields[4] else kind;
            ParseBody(Joined(fields), prior, junk) ==
            LogEntry(FromChars(fields[0], prior.id, 0x1_0000_0000_0000_0000),
                     if n > 1 then fields[1] else prior.name,
                     FromChars(timestamp, prior.timestamp, 0x1_0000_0000_0000_0000),
                     FromChars(kind, junk, 0x1_0000_0000),
                     FromChars(value, prior.value, 0x1_0000_0000_0000_0000))
  {
    hide FromChars, LineOf, Joined, NoBars;
    var f1 := LineOf(Fresh(Joined(fields)), BAR, []);
    NextField(fields, []);
    var f2 := FieldAt(fields, f1.next, 1, prior.name);
    var f3 := FieldAt(fields, f2.next, 2, f1.text);
    var f4 := FieldAt(fields, f3.next, 3, f3.text);
    var f5 := FieldAt(fields, f4.next, 4, f4.text);
  }

  /** The call that reads field k, there or not. */
  lemma FieldAt(fields: seq<seq<Byte>>, inp: Input, k: nat, prior: seq<Byte>) returns (l: Line)
    requires k > 0 && NoBars(fields)
    requires if k < |fields| then inp == Fresh(Joined(fields[k..])) else !inp.good
    ensures l == LineOf(inp, BAR, prior)
    ensures l.text == if k < |fields| then fields[k] else prior
    ensures if k + 1 < |fields| then l.next == Fresh(Joined(fields[k + 1..])) else !l.next.good
  {
    l := LineOf(inp, BAR, prior);
    if k < |fields| {
      NextField(fields[k..], prior);
      assert k + 1 < |fields| ==> fields[k..][1..] == fields[k + 1..];
    } else {
      NothingMore(inp, prior);
    }
  }

  /** What one call takes from a stream: a line up to the newline, or what is left
      of it; and an empty line, like a stream that has run out, sets nothing. */
  lemma LineTaken(line: seq<Byte>, rest: seq<Byte>, prior: LogEntry, junk: U32)
    requires 10 !in line
    ensures ParseLine(Fresh(line + [10] + rest), prior, junk) ==
            if line == [] then Parsed(1, prior, Fresh(rest)) else Parsed(0, ParseBody(line, prior, junk), Fresh(rest))
    ensures ParseLine(Fresh(line), prior, junk) ==
            if line == [] then Parsed(1, prior, Input([], false))
            else Parsed(0, ParseBody(line, prior, junk), Input([], false))
    ensures ParseLine(Input(line, false), prior, junk) == Parsed(1, prior, Input(line, false))
  {
    hide ParseBody;
    var s := line + [10] + rest;
    FindIs(line, LF, rest);
    assert s[..|line|] == line && s[|line| + 1..] == rest;
    assert Find(line, LF) == |line|;
  }

  method SerializeStr(e: LogEntry, os: OutStream)
    modifies os
    ensures os.data == old(os.data) + TextLine(e)
  {
    Flat(Decimal(e.id), e.name, Decimal(e.timestamp), Decimal(e.kind), Decimal(e.value));
    os.Write(Decimal(e.id) + [BAR] + e.name + [BAR] + Decimal(e.timestamp) + [BAR]
             + Decimal(e.kind) + [BAR] + Decimal(e.value) + [LF]);
  }

  lemma Flat(a: seq<Byte>, b: seq<Byte>, c: seq<Byte>, d: seq<Byte>, v: seq<Byte>)
    ensures a + [BAR] + b + [BAR] + c + [BAR] + d + [BAR] + v + [LF]
         == a + [BAR] + (b + [BAR] + (c + [BAR] + (d + [BAR] + v))) + [LF]
  {
  }

  method DeserializeStr(inp: InStream, prior: LogEntry, junk: U32) returns (ret: int, e: LogEntry)
    modifies inp
    ensures Parsed(ret, e, inp.View()) == ParseLine(old(inp.View()), prior, junk)
  {
    var line, ok := inp.GetLine(LF, []);
    e := prior;
    if !ok {
      return 1, e;
    }
    if line == [] {
      return 1, e;
    }
    var ss := new InStream(line);
    var temp, found := ss.GetLine(BAR, []);
    e := e.(id := FromChars(temp, e.id, TWO_64));
    var name;
    name, found := ss.GetLine(BAR, e.name);
    e := e.(name := name);
    temp, found := ss.GetLine(BAR, temp);
    e := e.(timestamp := FromChars(temp, e.timestamp, TWO_64));
    temp, found := ss.GetLine(BAR, temp);
    e := e.(kind := FromChars(temp, junk, TWO_32));
    temp, found := ss.GetLine(BAR, temp);
    e := e.(value := FromChars(temp, e.value, TWO_64));
    ret := 0;
  }

  // ---- binary form

  predicate Encodable(e: LogEntry) {
    |e.name| < TWO_32
  }

  function EncodeEntry(e: LogEntry): seq<Byte> {
    BigEndian(e.id, 8) + (EncodeString(e.name) + (BigEndian(e.timestamp, 8)
    + (BigEndian(e.kind, 4) + BigEndian(e.value, 8))))
  }

  /** The record, byte by byte: each number with its most significant byte first. */
  lemma EncodedEntryIs(e: LogEntry)
    ensures EncodeEntry(e) == BigEndian(e.id, 8) + BigEndian(|e.name|, 4) + e.name
                              + BigEndian(e.timestamp, 8) + BigEndian(e.kind, 4) + BigEndian(e.value, 8)
  {
    hide BigEndian;
  }

  function ReadEntry(inp: Input): Read<LogEntry> {
    var (id, i1) :- ReadU64(inp);
    var (name, i2) :- ReadString(i1);
    var (timestamp, i3) :- ReadU64(i2);
    var (kind, i4) :- ReadU32(i3);
    var (value, i5) :- ReadU64(i4);
    Got(LogEntry(id, name, timestamp, kind, value), i5)
  }

  lemma EntryBack(e: LogEntry, rest: seq<Byte>)
    requires Encodable(e)
    ensures ReadEntry(Fresh(EncodeEntry(e) + rest)) == Got(e, Fresh(rest))
  {
    var s4 := BigEndian(e.value, 8);
    var s3 := BigEndian(e.kind, 4) + s4;
    var s2 := BigEndian(e.timestamp, 8) + s3;
    var s1 := EncodeString(e.name) + s2;
    assert EncodeEntry(e) + rest == BigEndian(e.id, 8) + (s1 + rest);
    assert s1 + rest == EncodeString(e.name) + (s2 + rest);
    assert s2 + rest == BigEndian(e.timestamp, 8) + (s3 + rest);
    assert s3 + rest == BigEndian(e.kind, 4) + (s4 + rest);
    ReadU64Back(e.id, s1 + rest);
    ReadStringBack(e.name, s2 + rest);
    ReadU64Back(e.timestamp, s3 + rest);
    ReadU32Back(e.kind, s4 + rest);
    ReadU64Back(e.value, rest);
  }

  lemma CutAfter(a: seq<Byte>, b: seq<Byte>, k: nat)
    requires |a| <= k <= |a| + |b|
    ensures (a + b)[..k] == a + b[..k - |a|]
  {
  }

  lemma CutInside(a: seq<Byte>, b: seq<Byte>, k: nat)
    requires k <= |a|
    ensures (a + b)[..k] == a[..k]
  {
  }

  lemma ShortThrows(s: seq<Byte>)
    ensures |s| < 8 ==> ReadU64(Fresh(s)).Thrown?
    ensures |s| < 4 ==> ReadU32(Fresh(s)).Thrown?
  {
  }

  /** Every strict prefix of an encoded entry makes the reader throw. */
  lemma EntryPrefixThrows(e: LogEntry, k: nat)
    requires Encodable(e) && k < |EncodeEntry(e)|
    ensures ReadEntry(Fresh(EncodeEntry(e)[..k])).Thrown?
  {
    hide BigEndian, EncodeString, ReadU64, ReadU32, ReadString;
    var s2 := BigEndian(e.timestamp, 8) + (BigEndian(e.kind, 4) + BigEndian(e.value, 8));
    var s1 := EncodeString(e.name) + s2;
    var n := |EncodeString(e.name)|;
    if k < 8 {
      ShortThrows(EncodeEntry(e)[..k]);
    } else {
      CutAfter(BigEndian(e.id, 8), s1, k);
      ReadU64Back(e.id, s1[..k - 8]);
      if k < 8 + n {
        CutInside(EncodeString(e.name), s2, k - 8);
        StringPrefixThrows(e.name, k - 8);
      } else {
        CutAfter(EncodeString(e.name), s2, k - 8);
        ReadStringBack(e.name, s2[..k - 8 - n]);
        NumbersPrefixThrow(e, k - 8 - n);
      }
    }
  }

  /** The three numbers at the end of an entry, cut short. */
  lemma NumbersPrefixThrow(e: LogEntry, j: nat)
    requires j < 20
    ensures var s := BigEndian(e.timestamp, 8) + (BigEndian(e.kind, 4) + BigEndian(e.value, 8));
            var timestamp := ReadU64(Fresh(s[..j]));
            timestamp.Got? ==>
              var kind := ReadU32(timestamp.next);
              kind.Got? ==> ReadU64(kind.next).Thrown?
  {
    hide BigEndian, ReadU64, ReadU32;
    var s3 := BigEndian(e.kind, 4) + BigEndian(e.value, 8);
    if j < 8 {
      ShortThrows((BigEndian(e.timestamp, 8) + s3)[..j]);
    } else {
      CutAfter(BigEndian(e.timestamp, 8), s3, j);
      ReadU64Back(e.timestamp, s3[..j - 8]);
      if j < 12 {
        ShortThrows(s3[..j - 8]);
      } else {
        CutAfter(BigEndian(e.kind, 4), BigEndian(e.value, 8), j - 8);
        ReadU32Back(e.kind, BigEndian(e.value, 8)[..j - 12]);
        ShortThrows(BigEndian(e.value, 8)[..j - 12]);
      }
    }
  }

  method Serialize(e: LogEntry, os: OutStream) returns (ok: bool)
    modifies os
    ensures ok == Encodable(e)
    ensures ok ==> os.data == old(os.data) + EncodeEntry(e)
  {
    hide BigEndian, EncodeString;
    RightNested(os.data, BigEndian(e.id, 8), EncodeString(e.name), BigEndian(e.timestamp, 8),
                BigEndian(e.kind, 4), BigEndian(e.value, 8));
    WriteUint64(os, e.id);
    ok := WriteString(os, e.name);
    if ok {
      WriteUint64(os, e.timestamp);
      WriteUint32(os, e.kind);
      WriteUint64(os, e.value);
    }
  }

  lemma RightNested(s: seq<Byte>, a: seq<Byte>, b: seq<Byte>, c: seq<Byte>, d: seq<Byte>, e: seq<Byte>)
    ensures s + a + b + c + d + e == s + (a + (b + (c + (d + e))))
  {
  }

  method Deserialize(inp: InStream) returns (r: Option<LogEntry>)
    modifies inp
    ensures Agrees(r, inp.View(), ReadEntry(old(inp.View())))
  {
    r := None;
    var uninit := [0, 0, 0, 0, 0, 0, 0, 0];
    var id := ReadUint64(inp, uninit);
    if id == None { return; }
    var name := ReadStr(inp, uninit[..4]);
    if name == None { return; }
    var timestamp := ReadUint64(inp, uninit);
    if timestamp == None { return; }
    var kind := ReadUint32(inp, uninit[..4]);
    if kind == None { return; }
    var value := ReadUint64(inp, uninit);
    if value == None { return; }
    r := Some(LogEntry(id.value, name.value, timestamp.value, kind.value, value.value));
  }

  // ---- vectors of entries (write_vector_serializeable, read_vector_serializeable)

  predicate AllEncodable(es: seq<LogEntry>) {
    forall i :: 0 <= i < |es| ==> Encodable(es[i])
  }

  function EncodeAll(es: seq<LogEntry>): seq<Byte> {
    if es == [] then [] else EncodeEntry(es[0]) + EncodeAll(es[1..])
  }

  /** The size is truncated to 32 bits. */
  function EncodeVector(es: seq<LogEntry>): seq<Byte> {
    BigEndian(|es| % TWO_32, 4) + EncodeAll(es)
  }

  function ReadAll(inp: Input, n: nat): Read<seq<LogEntry>>
    decreases n
  {
    if n == 0 then Got([], inp)
    else
      var (e, i1) :- ReadEntry(inp);
      var (es, i2) :- ReadAll(i1, n - 1);
      Got([e] + es, i2)
  }

  /** The count is read without a check: what a short read does not fill of its
      four bytes keeps the uninitialised contents. */
  function ReadCount(inp: Input, uninit: seq<Byte>): (U32, Input)
    requires |uninit| == 4
  {
    Widths();
    var image := if !inp.good then uninit
                 else if 4 <= |inp.rest| then inp.rest[..4]
                 else inp.rest + uninit[|inp.rest|..];
    FromBigEndianBound(image);
    (FromBigEndian(image),
     if inp.good && 4 <= |inp.rest| then Fresh(inp.rest[4..])
     else if inp.good then Input([], false) else inp)
  }

  function ReadVector(inp: Input, uninit: seq<Byte>): Read<seq<LogEntry>>
    requires |uninit| == 4
  {
    var (count, next) := ReadCount(inp, uninit);
    ReadAll(next, count)
  }

  lemma {:induction false} AllBack(es: seq<LogEntry>, rest: seq<Byte>)
    requires AllEncodable(es)
    ensures ReadAll(Fresh(EncodeAll(es) + rest), |es|) == Got(es, Fresh(rest))
  {
    hide EncodeEntry, ReadEntry;
    if es == [] {
      assert EncodeAll(es) + rest == rest;
    } else {
      assert EncodeAll(es) + rest == EncodeEntry(es[0]) + (EncodeAll(es[1..]) + rest);
      EntryBack(es[0], EncodeAll(es[1..]) + rest);
      AllBack(es[1..], rest);
      assert es == [es[0]] + es[1..];
    }
  }

  lemma VectorBack(es: seq<LogEntry>, rest: seq<Byte>, uninit: seq<Byte>)
    requires AllEncodable(es) && |es| < TWO_32 && |uninit| == 4
    ensures ReadVector(Fresh(EncodeVector(es) + rest), uninit) == Got(es, Fresh(rest))
  {
    hide EncodeAll, ReadAll;
    var s := EncodeVector(es) + rest;
    assert s[..4] == BigEndian(|es|, 4);
    assert s[4..] == EncodeAll(es) + rest;
    Widths();
    BigEndianRoundTrip(|es|, 4);
    AllBack(es, rest);
  }

  lemma {:induction false} AllPrefixThrows(es: seq<LogEntry>, k: nat)
    requires AllEncodable(es) && k < |EncodeAll(es)|
    ensures ReadAll(Fresh(EncodeAll(es)[..k]), |es|).Thrown?
  {
    hide EncodeEntry, ReadEntry;
    var first, rest := EncodeEntry(es[0]), EncodeAll(es[1..]);
    if k < |first| {
      CutInside(first, rest, k);
      EntryPrefixThrows(es[0], k);
    } else {
      CutAfter(first, rest, k);
      EntryBack(es[0], rest[..k - |first|]);
      AllPrefixThrows(es[1..], k - |first|);
    }
  }

  /** A vector cut short is rejected, except for one hole: when the cut falls
      inside the count and the stale memory completes it to zero, it is taken
      for an empty vector. */
  lemma VectorPrefix(es: seq<LogEntry>, k: nat, uninit: seq<Byte>)
    requires AllEncodable(es) && |es| < TWO_32 && |uninit| == 4
    requires k < |EncodeVector(es)|
    ensures var cut := EncodeVector(es)[..k];
            ReadVector(Fresh(cut), uninit) ==
            if k < 4 && FromBigEndian(cut + uninit[k..]) == 0 then Got([], Input([], false)) else Thrown
  {
    if k >= 4 {
      CutAfter(BigEndian(|es|, 4), EncodeAll(es), k);
      assert EncodeVector(es)[..k][..4] == BigEndian(|es|, 4);
      assert EncodeVector(es)[..k][4..] == EncodeAll(es)[..k - 4];
      Widths();
      BigEndianRoundTrip(|es|, 4);
      AllPrefixThrows(es, k - 4);
    }
  }

  lemma {:induction false} EncodeAllSnoc(es: seq<LogEntry>, e: LogEntry)
    ensures EncodeAll(es + [e]) == EncodeAll(es) + EncodeEntry(e)
  {
    hide EncodeEntry;
    if es == [] {
      assert es + [e] == [e];
      assert EncodeAll([e]) == EncodeEntry(e) + [];
    } else {
      assert (es + [e])[1..] == es[1..] + [e];
      EncodeAllSnoc(es[1..], e);
    }
  }

  method WriteVector(os: OutStream, es: seq<LogEntry>) returns (ok: bool)
    modifies os
    ensures ok == AllEncodable(es)
    ensures ok ==> os.data == old(os.data) + EncodeVector(es)
  {
    hide EncodeEntry, BigEndian, Encodable;
    WriteUint32(os, |es| % TWO_32);
    ok := true;
    for i := 0 to |es|
      invariant AllEncodable(es[..i])
      invariant os.data == old(os.data) + (BigEndian(|es| % TWO_32, 4) + EncodeAll(es[..i]))
    {
      EncodeAllSnoc(es[..i], es[i]);
      assert es[..i + 1] == es[..i] + [es[i]];
      ghost var count, init := BigEndian(|es| % TWO_32, 4), EncodeAll(es[..i]);
      Associate(old(os.data), count + init, EncodeEntry(es[i]));
      Associate(count, init, EncodeEntry(es[i]));
      ok := Serialize(es[i], os);
      if !ok {
        return;
      }
    }
    assert es[..|es|] == es;
  }

  /** Entries already read, put in front of what is still to be read. */
  function Prepend(done: seq<LogEntry>, r: Read<seq<LogEntry>>): Read<seq<LogEntry>> {
    match r
    case Thrown => Thrown
    case Got(es, next) => Got(done + es, next)
  }

  lemma ReadAllStep(done: seq<LogEntry>, start: Input, k: nat)
    requires k > 0
    ensures match ReadEntry(start)
            case Thrown => ReadAll(start, k).Thrown?
            case Got(e, next) => Prepend(done, ReadAll(start, k)) == Prepend(done + [e], ReadAll(next, k - 1))
  {
    hide ReadEntry;
    var first := ReadEntry(start);
    if first.Got? {
      var more := ReadAll(first.next, k - 1);
      if more.Got? {
        assert done + ([first.value] + more.value) == done + [first.value] + more.value;
      }
    }
  }

  method ReadNetCount(inp: InStream, uninit: seq<Byte>) returns (count: U32)
    requires |uninit| == 4
    modifies inp
    ensures (count, inp.View()) == ReadCount(old(inp.View()), uninit)
  {
    var image := inp.Read(4, uninit);
    SwapOfImage(image);
    Widths();
    count := SwapEndian32(FromLittleEndian(image));
  }

  method ReadEntries(inp: InStream, uninit: seq<Byte>) returns (r: Option<seq<LogEntry>>)
    requires |uninit| == 4
    modifies inp
    ensures Agrees(r, inp.View(), ReadVector(old(inp.View()), uninit))
  {
    hide ReadEntry, ReadCount;
    ghost var spec := ReadVector(inp.View(), uninit);
    var count := ReadNetCount(inp, uninit);
    var vec: seq<LogEntry> := [];
    assert spec.Got? ==> vec + spec.value == spec.value;
    for i := 0 to count
      invariant spec == Prepend(vec, ReadAll(inp.View(), count - i))
    {
      ReadAllStep(vec, inp.View(), count - i);
      var item := Deserialize(inp);
      if item == None {
        return None;
      }
      vec := vec + [item.value];
    }
    assert vec + [] == vec;
    r := Some(vec);
  }

  // ---- the "log" message

  const TAG_LOG: seq<Byte> := [108, 111, 103]

  function LogMessage(es: seq<LogEntry>): seq<Byte> {
    EncodeString(TAG_LOG) + EncodeVector(es)
  }

  /** A "log" message decodes to its tag and its entries, and leaves whatever
      follows it unread. */
  lemma LogMessageBack(es: seq<LogEntry>, rest: seq<Byte>, uninit: seq<Byte>)
    requires AllEncodable(es) && |es| < TWO_32 && |uninit| == 4
    ensures var tag := ReadString(Fresh(LogMessage(es) + rest));
            tag.Got? && tag.value == TAG_LOG &&
            ReadVector(tag.next, uninit) == Got(es, Fresh(rest))
  {
    assert LogMessage(es) + rest == EncodeString(TAG_LOG) + (EncodeVector(es) + rest);
    ReadStringBack(TAG_LOG, EncodeVector(es) + rest);
    VectorBack(es, rest, uninit);
  }

  /** The client loop's message: tag, then the batch. */
  method BuildLogMessage(es: seq<LogEntry>) returns (payload: Option<seq<Byte>>)
    ensures payload == if AllEncodable(es) then Some(LogMessage(es)) else None
  {
    var oss := new OutStream();
    var tagged := WriteString(oss, TAG_LOG);
    var ok := WriteVector(oss, es);
    assert [] + EncodeString(TAG_LOG) == EncodeString(TAG_LOG);
    payload := if ok then Some(oss.data) else None;
  }
}
