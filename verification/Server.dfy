/** The server's handling of a "log" message (src/server/client_handler.cpp).
    Its only state is the client's log file; the last accepted id is recovered
    from the file's last line on every message. */
module LogServer {
  import opened Bytes
  import opened Streams
  import opened Serializable
  import opened LogEntries
  import opened LastLines

  type File = Option<seq<Byte>>

  const TAG_ACK: seq<Byte> := [97, 99, 107, 32]   // "ack "

  function AckMessage(id: U64): seq<Byte> {
    EncodeString(TAG_ACK + Decimal(id))
  }

  function RecoverLast(file: File, stale: Stale): U64 {
    var line := LastLine(file);
    if line == [] then 0 else ParseLine(Fresh(line), stale.entry, stale.kind).entry.id
  }

  /** The acceptance loop: take an entry when its id is the successor of the last. */
  function Accepted(last: U64, batch: seq<LogEntry>): seq<LogEntry>
    decreases batch
  {
    if batch == [] then []
    else if batch[0].id == Succ(last) then [batch[0]] + Accepted(Succ(last), batch[1..])
    else Accepted(last, batch[1..])
  }

  function LastAfter(last: U64, accepted: seq<LogEntry>): U64 {
    if accepted == [] then last else accepted[|accepted| - 1].id
  }

  /** Whether the log file can be opened for reading, and for appending. */
  datatype Access = Access(canRead: bool, canAppend: bool)

  const FULL := Access(true, true)

  datatype Outcome = Outcome(file: File, reply: Option<seq<Byte>>)

  /** What one payload does to the file, and the reply sent.  A payload that makes
      a reader throw, a payload that is not a log message, and a file that cannot
      be appended to all leave the file alone and send nothing.  A file that cannot
      be read looks like one without lines. */
  function Handle(file: File, payload: seq<Byte>, stale: Stale, access: Access): Outcome {
    var tag := ReadString(Fresh(payload));
    if tag.Thrown? || tag.value != TAG_LOG then Outcome(file, None)
    else HandleLog(file, tag.next, stale, access)
  }

  function Readable(file: File, access: Access): File {
    if access.canRead then file else None
  }

  function HandleLog(file: File, inp: Input, stale: Stale, access: Access): Outcome {
    var batch := ReadVector(inp, stale.bytes);
    if batch.Thrown? || !access.canAppend then Outcome(file, None)
    else
      var last := RecoverLast(Readable(file, access), stale);
      var accepted := Accepted(last, batch.value);
      Outcome(Some(file.ValueOr([]) + Lines(accepted)),
              Some(AckMessage(LastAfter(last, accepted))))
  }

  class ClientHandler {
    /** client-log-<ip>.txt */
    var logFile: File

    constructor (file: File)
      ensures logFile == file
    {
      logFile := file;
    }

    /** The loop over the batch: the text appended to the file, and the last id. */
    static method AcceptLoop(es: seq<LogEntry>, start: U64) returns (text: seq<Byte>, last: U64)
      ensures text == Lines(Accepted(start, es))
      ensures last == LastAfter(start, Accepted(start, es))
    {
      hide TextLine;
      var out := new OutStream();
      ghost var accepted := [];
      last := start;
      for i := 0 to |es|
        invariant Accepted(start, es) == accepted + Accepted(last, es[i..])
        invariant last == LastAfter(start, accepted)
        invariant out.data == Lines(accepted)
      {
        AcceptStep(start, es, accepted, last, i);
        if es[i].id == (last + 1) % TWO_64 {
          SerializeStr(es[i], out);
          LinesSnoc(accepted, es[i]);
          accepted := accepted + [es[i]];
          last := (last + 1) % TWO_64;
        }
      }
      assert accepted + [] == accepted;
      text := out.data;
    }

    method HandleRecvLog(inp: InStream, stale: Stale, access: Access) returns (reply: Option<seq<Byte>>)
      modifies this, inp
      ensures Outcome(logFile, reply) == HandleLog(old(logFile), old(inp.View()), stale, access)
    {
      var lastAckedId: U64 := 0;
      var lastLine := GetLastLineOfFile(Readable(logFile, access));
      if lastLine != [] {
        var line := new InStream(lastLine);
        var ret, entry := DeserializeStr(line, stale.entry, stale.kind);
        lastAckedId := entry.id;
      }
      var batch := ReadEntries(inp, stale.bytes);
      if batch == None {
        return None;
      }
      if !access.canAppend {
        return None;
      }
      var text, last := AcceptLoop(batch.value, lastAckedId);
      logFile := Some(logFile.ValueOr([]) + text);
      lastAckedId := last;
      var oss := new OutStream();
      DecimalIsShort(lastAckedId);
      var sent := WriteString(oss, TAG_ACK + Decimal(lastAckedId));
      assert [] + AckMessage(lastAckedId) == AckMessage(lastAckedId);
      reply := Some(oss.data);
    }

    /** The network-receive callback: dispatch on the leading string. */
    method OnMessage(payload: seq<Byte>, stale: Stale, access: Access) returns (reply: Option<seq<Byte>>)
      modifies this
      ensures Outcome(logFile, reply) == Handle(old(logFile), payload, stale, access)
    {
      var inp := new InStream(payload);
      var response := ReadStr(inp, stale.bytes);
      if response == None || response.value != TAG_LOG {
        return None;
      }
      reply := HandleRecvLog(inp, stale, access);
    }
  }

  /** One round of the acceptance loop. */
  lemma AcceptStep(start: U64, es: seq<LogEntry>, accepted: seq<LogEntry>, last: U64, i: nat)
    requires i < |es|
    requires Accepted(start, es) == accepted + Accepted(last, es[i..])
    ensures if es[i].id == Succ(last)
            then Accepted(start, es) == accepted + [es[i]] + Accepted(Succ(last), es[i + 1..])
            else Accepted(start, es) == accepted + Accepted(last, es[i + 1..])
  {
    assert es[i..][1..] == es[i + 1..];
    var more := Accepted(Succ(last), es[i + 1..]);
    assert accepted + ([es[i]] + more) == accepted + [es[i]] + more;
  }

  lemma {:induction false} DecimalLength(n: nat, d: nat)
    requires n < Pow10(d) && d > 0
    ensures |Decimal(n)| <= d
  {
    if n >= 10 {
      DecimalLength(n / 10, d - 1);
    }
  }

  function Pow10(d: nat): nat {
    if d == 0 then 1 else 10 * Pow10(d - 1)
  }

  lemma DecimalIsShort(id: U64)
    ensures |Decimal(id)| <= 20
  {
    assert Pow10(5) == 100000;
    assert Pow10(10) == 100000 * 100000;
    assert Pow10(15) == 100000 * 100000 * 100000;
    assert Pow10(20) == 100000 * 100000 * 100000 * 100000;
    DecimalLength(id, 20);
  }

  /** A well-formed log message is handled entry by entry. */
  lemma HandleMessage(file: File, es: seq<LogEntry>, stale: Stale, access: Access)
    requires AllEncodable(es) && |es| < TWO_32 && access.canAppend
    ensures var last := RecoverLast(Readable(file, access), stale);
            var accepted := Accepted(last, es);
            Handle(file, LogMessage(es), stale, access) ==
            Outcome(Some(file.ValueOr([]) + Lines(accepted)), Some(AckMessage(LastAfter(last, accepted))))
  {
    hide LogMessage, AckMessage, RecoverLast, Accepted, LastAfter, Lines;
    assert LogMessage(es) + [] == LogMessage(es);
    LogMessageBack(es, [], stale.bytes);
  }

  /** A payload whose leading string cannot be read or is not "log", one whose
      entries cannot be read, and any payload when the file cannot be opened for
      appending: the file stays, and nothing is sent. */
  lemma NothingHandled(file: File, payload: seq<Byte>, stale: Stale, access: Access)
    ensures var tag := ReadString(Fresh(payload));
            (tag.Thrown? || tag.value != [108, 111, 103] || ReadVector(tag.next, stale.bytes).Thrown?
             || !access.canAppend) ==>
              Handle(file, payload, stale, access) == Outcome(file, None)
  {
    hide ReadString, ReadVector;
  }

  /** The last number comes from the last line of the file; without such a line,
      or a file that can be read, it is 0. */
  lemma LastNumber(file: File, stale: Stale, access: Access)
    ensures var last := RecoverLast(Readable(file, access), stale);
            && (!access.canRead || LastLine(file) == [] ==> last == 0)
            && (access.canRead && LastLine(file) != [] ==>
                  last == ParseLine(Fresh(LastLine(file)), stale.entry, stale.kind).entry.id)
  {
    hide LastSegment, DropTrailingBreaks, WithoutCR, ParseLine;
  }

  // ---- acceptance on arbitrary batches

  /** Ids 1, 2, 3, ... on 64 bits. */
  predicate Contiguous(es: seq<LogEntry>) {
    forall i :: 0 <= i < |es| ==> es[i].id == (i + 1) % TWO_64
  }

  /** Any batch whatsoever keeps the file contiguous, never shortens it, and is
      answered with the number of the last entry. */
  lemma {:induction false} AcceptedKeepsContiguous(es: seq<LogEntry>, batch: seq<LogEntry>)
    requires Contiguous(es)
    ensures var accepted := Accepted(|es| % TWO_64, batch);
            && Contiguous(es + accepted)
            && LastAfter(|es| % TWO_64, accepted) == |es + accepted| % TWO_64
    decreases batch
  {
    if batch != [] {
      var last := |es| % TWO_64;
      if batch[0].id == Succ(last) {
        var es1 := es + [batch[0]];
        assert Succ(last) == |es1| % TWO_64;
        AcceptedKeepsContiguous(es1, batch[1..]);
        var more := Accepted(Succ(last), batch[1..]);
        assert es + ([batch[0]] + more) == es1 + more;
      } else {
        AcceptedKeepsContiguous(es, batch[1..]);
      }
    }
  }

  /** Place i lies strictly between the places p[j - 1] and p[j]. */
  predicate Between(p: seq<nat>, j: nat, i: nat) {
    j <= |p| && (j > 0 ==> p[j - 1] < i) && (j < |p| ==> i < p[j])
  }

  ghost predicate Hits(last: U64, batch: seq<LogEntry>, p: seq<nat>) {
    forall j :: 0 <= j < |p| ==> p[j] < |batch| && batch[p[j]].id == (last + 1 + j) % TWO_64
  }

  ghost predicate NoneMissed(last: U64, batch: seq<LogEntry>, p: seq<nat>) {
    forall j: nat, i: nat :: Between(p, j, i) && i < |batch| ==> batch[i].id != (last + 1 + j) % TWO_64
  }

  /** The greedy run, said without the loop: places p[0] < p[1] < ... holding
      the ids after `last` in order, each one the first occurrence after the
      previous place, and no occurrence of the next id after the last place. */
  ghost predicate GreedyRun(last: U64, batch: seq<LogEntry>, p: seq<nat>) {
    && Hits(last, batch, p)
    && (forall i, j :: 0 <= i < j < |p| ==> p[i] < p[j])
    && NoneMissed(last, batch, p)
  }

  /** The entries at the places p. */
  ghost predicate Picks(picked: seq<LogEntry>, batch: seq<LogEntry>, p: seq<nat>) {
    |picked| == |p| && forall j :: 0 <= j < |p| ==> p[j] < |batch| && picked[j] == batch[p[j]]
  }

  /** The accepted entries are those of a greedy run. */
  lemma {:induction false} AcceptedIsGreedyRun(last: U64, batch: seq<LogEntry>) returns (p: seq<nat>)
    ensures GreedyRun(last, batch, p)
    ensures Picks(Accepted(last, batch), batch, p)
    decreases batch
  {
    if batch == [] {
      p := [];
    } else {
      hide GreedyRun, Picks, Accepted;
      var d := if batch[0].id == Succ(last) then 1 else 0;
      var from := (last + d) % TWO_64;
      var q := AcceptedIsGreedyRun(from, batch[1..]);
      p := ShiftPlaces(q, d);
      GreedyRunCons(last, batch, q, d);
      PicksCons(Accepted(from, batch[1..]), batch, q, d);
      AcceptedUnfolds(last, batch, d);
    }
  }

  lemma AcceptedUnfolds(last: U64, batch: seq<LogEntry>, d: nat)
    requires batch != [] && d == if batch[0].id == Succ(last) then 1 else 0
    ensures Accepted(last, batch) == batch[..d] + Accepted((last + d) % TWO_64, batch[1..])
  {
    assert batch[..d] == if d == 1 then [batch[0]] else [];
    assert (last + d) % TWO_64 == if d == 1 then Succ(last) else last;
  }

  /** Places in a tail, seen from the whole batch, with place 0 in front on a hit (d == 1). */
  function ShiftPlaces(q: seq<nat>, d: nat): seq<nat> {
    seq(|q| + d, j requires 0 <= j < |q| + d => if j < d then 0 else q[j - d] + 1)
  }

  lemma PicksCons(picked: seq<LogEntry>, batch: seq<LogEntry>, q: seq<nat>, d: nat)
    requires batch != [] && d <= 1 && Picks(picked, batch[1..], q)
    ensures Picks(batch[..d] + picked, batch, ShiftPlaces(q, d))
  {
    var p := ShiftPlaces(q, d);
    forall j | 0 <= j < |p|
      ensures p[j] < |batch| && (batch[..d] + picked)[j] == batch[p[j]]
    {
      if j >= d {
        assert picked[j - d] == batch[1..][q[j - d]];
      }
    }
  }

  lemma GreedyRunCons(last: U64, batch: seq<LogEntry>, q: seq<nat>, d: nat)
    requires batch != [] && d == if batch[0].id == Succ(last) then 1 else 0
    requires GreedyRun((last + d) % TWO_64, batch[1..], q)
    ensures GreedyRun(last, batch, ShiftPlaces(q, d))
  {
    HitsCons(last, batch, q, d);
    NoneMissedCons(last, batch, q, d);
    hide Hits, NoneMissed;
  }

  lemma HitsCons(last: U64, batch: seq<LogEntry>, q: seq<nat>, d: nat)
    requires batch != [] && d == if batch[0].id == Succ(last) then 1 else 0
    requires Hits((last + d) % TWO_64, batch[1..], q)
    ensures Hits(last, batch, ShiftPlaces(q, d))
  {
    var p := ShiftPlaces(q, d);
    forall j | 0 <= j < |p|
      ensures p[j] < |batch| && batch[p[j]].id == (last + 1 + j) % TWO_64
    {
      if j >= d {
        assert batch[p[j]] == batch[1..][q[j - d]];
        Wrap(last, d, j - d);
      }
    }
  }

  lemma NoneMissedCons(last: U64, batch: seq<LogEntry>, q: seq<nat>, d: nat)
    requires batch != [] && d == if batch[0].id == Succ(last) then 1 else 0
    requires NoneMissed((last + d) % TWO_64, batch[1..], q)
    ensures NoneMissed(last, batch, ShiftPlaces(q, d))
  {
    var p := ShiftPlaces(q, d);
    forall j: nat, i: nat | Between(p, j, i) && i < |batch|
      ensures batch[i].id != (last + 1 + j) % TWO_64
    {
      if i > 0 && j >= d {
        assert Between(q, j - d, i - 1);
        assert batch[i] == batch[1..][i - 1];
        Wrap(last, d, j - d);
      }
    }
  }

  lemma Wrap(last: U64, d: nat, j: nat)
    requires d <= 1
    ensures ((last + d) % TWO_64 + 1 + j) % TWO_64 == (last + 1 + (j + d)) % TWO_64
  {
  }

  /** There is only one greedy run. */
  lemma {:induction false} GreedyRunUnique(last: U64, batch: seq<LogEntry>, p: seq<nat>, q: seq<nat>, n: nat)
    requires GreedyRun(last, batch, p) && GreedyRun(last, batch, q)
    requires n <= |p| && n <= |q| && p[..n] == q[..n]
    ensures p == q
    decreases |p| - n
  {
    if n > 0 {
      assert p[n - 1] == p[..n][n - 1] == q[..n][n - 1] == q[n - 1];
    }
    if n < |p| {
      assert n == |q| || p[n] < q[n] ==> Between(q, n, p[n]);
    }
    if n < |q| {
      assert n == |p| || q[n] < p[n] ==> Between(p, n, q[n]);
    }
    if n < |p| && n < |q| {
      assert p[..n + 1] == p[..n] + [p[n]];
      assert q[..n + 1] == q[..n] + [q[n]];
      GreedyRunUnique(last, batch, p, q, n + 1);
    } else {
      assert p == p[..n] && q == q[..n];
    }
  }

  // ---- what the last line gives back

  /** With a newline in the last name, the last line starts inside the name: this
      is where the server then reads the id. */
  function CarriedField(name: seq<Byte>): seq<Byte> {
    var t := WithoutCR(LastSegment(name));
    t[..Find(t, BAR)]
  }

  /** That piece happens to start with exactly the entry's own id. */
  predicate NameCarriesId(name: seq<Byte>, id: U64) {
    var digits := DigitPrefix(CarriedField(name));
    digits != [] && DigitsValue(digits) == id
  }

  predicate Recoverable(e: LogEntry) {
    LF !in e.name || NameCarriesId(e.name, e.id)
  }

  /** The id recovered from the lines of any entries, whatever their names. */
  lemma RecoveredId(es: seq<LogEntry>, stale: Stale)
    requires es != []
    ensures var e := es[|es| - 1];
            RecoverLast(Some(Lines(es)), stale)
            == if LF !in e.name then e.id else FromChars(CarriedField(e.name), stale.entry.id, TWO_64)
  {
    hide TextBody, ParseBody;
    var e := es[|es| - 1];
    if LF !in e.name {
      LastIdOfLines(es, stale.entry, stale.kind);
    } else {
      var before := LastLineInName(es);
      var seg, tail := LastSegment(e.name), TextTail(e);
      TailEndsInDigit(e);
      LastLineOfText(before, seg + [BAR] + tail);
      WithoutCRConcat(seg + [BAR], tail);
      WithoutCRConcat(seg, [BAR]);
      WithoutCRKeeps([BAR]);
      WithoutCRNoNewline(seg);
      WithoutCRNoNewline(tail);
      FirstField(WithoutCR(seg), WithoutCR(tail), stale);
    }
  }

  /** Where the last line of the file begins when the last name has a newline. */
  lemma LastLineInName(es: seq<LogEntry>) returns (before: seq<Byte>)
    requires es != [] && LF in es[|es| - 1].name
    ensures before != [] && before[|before| - 1] == LF
    ensures LF !in LastSegment(es[|es| - 1].name)
    ensures Lines(es) == before + (LastSegment(es[|es| - 1].name) + [BAR] + TextTail(es[|es| - 1])) + [LF]
  {
    hide TextTail;
    var e := es[|es| - 1];
    var b := SegmentMeaning(e.name);
    var start := Lines(es[..|es| - 1]) + (Decimal(e.id) + [BAR]);
    before := start + b;
    NamePieces(Lines(es[..|es| - 1]), Decimal(e.id), b, LastSegment(e.name), TextTail(e));
  }

  lemma NamePieces(init: seq<Byte>, id: seq<Byte>, b: seq<Byte>, seg: seq<Byte>, tail: seq<Byte>)
    ensures init + (id + [BAR] + (b + seg + [BAR] + tail) + [LF])
         == init + (id + [BAR]) + b + (seg + [BAR] + tail) + [LF]
  {
  }

  lemma TailEndsInDigit(e: LogEntry)
    ensures LF !in TextTail(e) && TextTail(e) != [] && IsDigit(TextTail(e)[|TextTail(e)| - 1])
  {
    DecimalHas(e.timestamp, LF); DecimalHas(e.kind, LF); DecimalHas(e.value, LF);
    assert TextTail(e)[|TextTail(e)| - 1] == Decimal(e.value)[|Decimal(e.value)| - 1];
  }

  /** The id field of a line whose first bar is the first one of t, or follows t. */
  lemma FirstField(t: seq<Byte>, rest: seq<Byte>, stale: Stale)
    requires LF !in t && LF !in rest
    ensures ParseLine(Fresh(t + [BAR] + rest), stale.entry, stale.kind).entry.id
         == FromChars(t[..Find(t, BAR)], stale.entry.id, TWO_64)
  {
    hide FromChars, ParseLine, ParseBody, Find, LineOf;
    var s, k := t + [BAR] + rest, Find(t, BAR);
    OneLine(s, stale);
    assert s == t[..k] + [BAR] + s[k + 1..];
    FieldOfBody(t[..k], s[k + 1..], stale);
  }

  lemma OneLine(s: seq<Byte>, stale: Stale)
    requires LF !in s && s != []
    ensures ParseLine(Fresh(s), stale.entry, stale.kind).entry == ParseBody(s, stale.entry, stale.kind)
  {
    hide ParseBody;
    assert Find(s, LF) == |s|;
  }

  lemma FieldOfBody(field: seq<Byte>, after: seq<Byte>, stale: Stale)
    requires BAR !in field
    ensures ParseBody(field + [BAR] + after, stale.entry, stale.kind).id == FromChars(field, stale.entry.id, TWO_64)
  {
    hide FromChars, LineOf;
    FieldBack(field, after, []);
  }

  /** Exact recovery: the last id comes back, whatever memory held, if and only if
      the last name has no newline or carries that very id after its last one. */
  lemma RecoveryIff(es: seq<LogEntry>)
    requires es != []
    ensures var e := es[|es| - 1];
            (forall stale: Stale :: RecoverLast(Some(Lines(es)), stale) == e.id) <==> Recoverable(e)
  {
    hide Lines, RecoverLast, CarriedField, DigitPrefix, DigitsValue;
    var e := es[|es| - 1];
    if Recoverable(e) {
      forall stale: Stale
        ensures RecoverLast(Some(Lines(es)), stale) == e.id
      {
        RecoveredId(es, stale);
      }
    } else {
      var other: Stale := StaleMemory(e.(id := Succ(e.id)), 0, [0, 0, 0, 0]);
      RecoveredId(es, other);
      assert RecoverLast(Some(Lines(es)), other) != e.id;
    }
  }

  // ---- the stateless server refines one that keeps a counter

  /** A server that remembers its entries and its last id. */
  datatype CounterServer = CounterServer(entries: seq<LogEntry>, last: U64)

  datatype Call = Call(payload: seq<Byte>, stale: Stale, access: Access)

  function BatchOf(c: Call): Read<seq<LogEntry>> {
    var tag := ReadString(Fresh(c.payload));
    if tag.Thrown? || tag.value != TAG_LOG then Thrown else ReadVector(tag.next, c.stale.bytes)
  }

  function CounterStep(s: CounterServer, c: Call): (CounterServer, Option<seq<Byte>>) {
    var batch := BatchOf(c);
    if batch.Thrown? || !c.access.canAppend then (s, None)
    else
      var accepted := Accepted(s.last, batch.value);
      var last := LastAfter(s.last, accepted);
      (CounterServer(s.entries + accepted, last), Some(AckMessage(last)))
  }

  function CounterRun(s: CounterServer, calls: seq<Call>): (CounterServer, seq<Option<seq<Byte>>>)
    decreases calls
  {
    if calls == [] then (s, [])
    else
      var (s1, reply) := CounterStep(s, calls[0]);
      var (s2, replies) := CounterRun(s1, calls[1..]);
      (s2, [reply] + replies)
  }

  function FileRun(file: File, calls: seq<Call>): (File, seq<Option<seq<Byte>>>)
    decreases calls
  {
    if calls == [] then (file, [])
    else
      var o := Handle(file, calls[0].payload, calls[0].stale, calls[0].access);
      var (file2, replies) := FileRun(o.file, calls[1..]);
      (file2, [o.reply] + replies)
  }

  predicate AllRecoverable(es: seq<LogEntry>) {
    forall i :: 0 <= i < |es| ==> Recoverable(es[i])
  }

  /** The names leave the id recoverable, and the file can be read if it can be appended to. */
  predicate SafeCall(c: Call) {
    && (BatchOf(c).Got? ==> AllRecoverable(BatchOf(c).value))
    && (c.access.canAppend ==> c.access.canRead)
  }

  predicate SafeCalls(calls: seq<Call>) {
    forall i :: 0 <= i < |calls| ==> SafeCall(calls[i])
  }

  /** The file is the counter server's entries, and its last line holds the counter. */
  predicate Represents(file: File, s: CounterServer) {
    && ((file == None && s.entries == []) || file == Some(Lines(s.entries)))
    && (s.entries != [] ==> Recoverable(s.entries[|s.entries| - 1]))
    && s.last == LastAfter(0, s.entries)
  }

  lemma RecoverLastIs(file: File, s: CounterServer, stale: Stale)
    requires Represents(file, s)
    ensures RecoverLast(file, stale) == s.last
  {
    if s.entries != [] {
      RecoveredId(s.entries, stale);
    }
  }

  lemma {:induction false} AcceptedFromBatch(last: U64, batch: seq<LogEntry>)
    requires AllRecoverable(batch)
    ensures AllRecoverable(Accepted(last, batch))
    decreases batch
  {
    hide Recoverable;
    if batch != [] {
      AcceptedFromBatch(last, batch[1..]);
      AcceptedFromBatch(Succ(last), batch[1..]);
    }
  }

  lemma StepRefines(file: File, s: CounterServer, c: Call)
    requires Represents(file, s) && SafeCall(c)
    ensures var o := Handle(file, c.payload, c.stale, c.access);
            var (s1, reply) := CounterStep(s, c);
            o.reply == reply && Represents(o.file, s1)
  {
    hide Represents, AllRecoverable, RecoverLast, Lines, AckMessage, LastAfter;
    RecoverLastIs(file, s, c.stale);
    var batch := BatchOf(c);
    if batch.Got? {
      AcceptedFromBatch(s.last, batch.value);
      RepresentsMore(file, s, Accepted(s.last, batch.value));
    }
  }

  lemma RepresentsMore(file: File, s: CounterServer, more: seq<LogEntry>)
    requires Represents(file, s) && AllRecoverable(more)
    ensures Represents(Some(file.ValueOr([]) + Lines(more)), CounterServer(s.entries + more, LastAfter(s.last, more)))
  {
    hide Recoverable;
    LinesConcat(s.entries, more);
  }

  /** Over any sequence of messages, re-reading the file's last line behaves as a
      counter kept in memory: same replies, same file. */
  lemma {:induction false} StatelessRefinesCounter(file: File, s: CounterServer, calls: seq<Call>)
    requires Represents(file, s) && SafeCalls(calls)
    ensures FileRun(file, calls).1 == CounterRun(s, calls).1
    ensures Represents(FileRun(file, calls).0, CounterRun(s, calls).0)
    decreases calls
  {
    if calls != [] {
      StepRefines(file, s, calls[0]);
      var o := Handle(file, calls[0].payload, calls[0].stale, calls[0].access);
      assert SafeCalls(calls[1..]);
      StatelessRefinesCounter(o.file, CounterStep(s, calls[0]).0, calls[1..]);
    }
  }

  /** Over any sequence of messages the counter is the length of the log, whose
      ids are 1, 2, 3, ... and whose old entries are never touched. */
  lemma {:induction false} CounterRunStaysContiguous(s: CounterServer, calls: seq<Call>)
    requires Contiguous(s.entries) && s.last == |s.entries| % TWO_64
    ensures var t := CounterRun(s, calls).0;
            Contiguous(t.entries) && t.last == |t.entries| % TWO_64 && s.entries <= t.entries
    decreases calls
  {
    if calls != [] {
      var batch := BatchOf(calls[0]);
      if batch.Got? {
        AcceptedKeepsContiguous(s.entries, batch.value);
      }
      CounterRunStaysContiguous(CounterStep(s, calls[0]).0, calls[1..]);
    }
  }

  /** From no file at all and through any messages, in any order and with any ids,
      the file is always the lines of entries numbered 1, 2, 3, ... */
  lemma AnyMessagesKeepTheFile(calls: seq<Call>) returns (es: seq<LogEntry>)
    requires SafeCalls(calls)
    ensures Contiguous(es)
    ensures FileRun(None, calls).0.ValueOr([]) == Lines(es)
    ensures FileRun(None, calls).1 == CounterRun(CounterServer([], 0), calls).1
  {
    var s := CounterServer([], 0);
    StatelessRefinesCounter(None, s, calls);
    CounterRunStaysContiguous(s, calls);
    es := CounterRun(s, calls).0.entries;
  }

  /** The converse: after a last entry whose id cannot be recovered, already an
      empty batch can be answered with another number. */
  lemma CounterRefinedIff(es: seq<LogEntry>)
    requires es != []
    ensures (forall c: Call :: c.access == FULL ==> SameReply(es, c)) <==> Recoverable(es[|es| - 1])
  {
    hide Recoverable, SameReply;
    if Recoverable(es[|es| - 1]) {
      forall c: Call | c.access == FULL
        ensures SameReply(es, c)
      {
        ReplyOfCounter(es, c);
      }
    } else {
      RecoveryIff(es);
      var stale: Stale :| RecoverLast(Some(Lines(es)), stale) != es[|es| - 1].id;
      EmptyBatchReplies(es, stale);
      assert !SameReply(es, Call(LogMessage([]), stale, FULL));
    }
  }

  /** A file holding es, and a counter at its last id, answer alike. */
  predicate SameReply(es: seq<LogEntry>, c: Call)
    requires es != []
  {
    Handle(Some(Lines(es)), c.payload, c.stale, c.access).reply == CounterStep(CounterServer(es, es[|es| - 1].id), c).1
  }

  lemma ReplyOfCounter(es: seq<LogEntry>, c: Call)
    requires es != [] && Recoverable(es[|es| - 1]) && c.access == FULL
    ensures SameReply(es, c)
  {
    hide Recoverable, Lines;
    RecoverLastIs(Some(Lines(es)), CounterServer(es, es[|es| - 1].id), c.stale);
  }

  lemma EmptyBatchReplies(es: seq<LogEntry>, stale: Stale)
    requires es != []
    ensures SameReply(es, Call(LogMessage([]), stale, FULL))
            <==> RecoverLast(Some(Lines(es)), stale) == es[|es| - 1].id
  {
    hide LogMessage, AckMessage, RecoverLast, Lines;
    assert LogMessage([]) + [] == LogMessage([]);
    LogMessageBack([], [], stale.bytes);
    AckInjective(RecoverLast(Some(Lines(es)), stale), es[|es| - 1].id);
  }

  lemma AckInjective(a: U64, b: U64)
    ensures AckMessage(a) == AckMessage(b) <==> a == b
  {
    if AckMessage(a) == AckMessage(b) {
      DecimalIsShort(a); DecimalIsShort(b);
      assert AckMessage(a) + [] == AckMessage(a) && AckMessage(b) + [] == AckMessage(b);
      ReadStringBack(TAG_ACK + Decimal(a), []);
      ReadStringBack(TAG_ACK + Decimal(b), []);
      assert Decimal(a) == (TAG_ACK + Decimal(a))[4..] == (TAG_ACK + Decimal(b))[4..] == Decimal(b);
      NumberBack(a, 0, TWO_64); NumberBack(b, 0, TWO_64);
    }
  }

  /** The worst input: a name whose own last line starts with digits makes the
      server recover exactly those, here 7 for the entry numbered 3 ... */
  lemma NewlineNameForgesTheId(e: LogEntry, stale: Stale)
    requires e.id == 3 && e.name == [120, LF, 55]   // "x\n7"
    ensures RecoverLast(Some(Lines([e])), stale) == 7
  {
    hide Lines, RecoverLast, CarriedField, DigitPrefix, DigitsValue, Decimal;
    RecoveredId([e], stale);
    CarriedSeven();
    NumberBack(7, stale.entry.id, TWO_64);
  }

  lemma CarriedSeven()
    ensures CarriedField([120, LF, 55]) == Decimal(7)
  {
    SegmentAfter([120, LF], [55]);
    assert [120, LF, 55] == [120, LF] + [55];
    WithoutCRKeeps([55]);
    assert Find([55], BAR) == 1 && [55][..1] == [55];
  }

  /** ... and one whose last line is empty leaves whatever memory held. */
  lemma NewlineNameLosesTheId(e: LogEntry, stale: Stale)
    requires e.name == [LF]
    ensures RecoverLast(Some(Lines([e])), stale) == stale.entry.id
  {
    RecoveredId([e], stale);
  }
}
