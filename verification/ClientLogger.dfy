/** The client's logger (src/client/client_logger.cpp): it turns resource totals
    into log entries and acknowledgements into queue updates. */
module ClientLoggers {
  import opened Bytes
  import opened Streams
  import opened Serializable
  import opened LogEntries
  import opened LogQueues
  import opened LogServer
  import opened ProcessTables

  /** Thresholds for one program. */
  datatype ConfigEntry = ConfigEntry(name: seq<Byte>, cpu: U32, mem: U64, disk: U64, network: U64)

  /** The client's reaction to a payload: the id of an "ack " message, if it is one. */
  function AckIdOf(payload: seq<Byte>, stale: Stale): Option<U64> {
    var r := ReadString(Fresh(payload));
    if r.Thrown? || !(TAG_ACK <= r.value) then None
    else Some(FromChars(r.value[|TAG_ACK|..], stale.entry.id, TWO_64))
  }

  lemma AckBack(id: U64, stale: Stale)
    ensures AckIdOf(AckMessage(id), stale) == Some(id)
  {
    var text := TAG_ACK + Decimal(id);
    DecimalIsShort(id);
    assert AckMessage(id) + [] == AckMessage(id);
    ReadStringBack(text, []);
    assert text[|TAG_ACK|..] == Decimal(id);
    NumberBack(id, stale.entry.id, TWO_64);
  }

  /** The number of any message that starts with "ack ": the digits that follow, or
      what memory held if there are none or they exceed 64 bits. */
  lemma AckNumber(payload: seq<Byte>, stale: Stale, n: nat, rest: seq<Byte>)
    requires ReadString(Fresh(payload)).Got? && (rest != [] ==> !IsDigit(rest[0]))
    ensures var text := ReadString(Fresh(payload)).value;
            && (text == [97, 99, 107, 32] + rest ==> AckIdOf(payload, stale) == Some(stale.entry.id))
            && (text == [97, 99, 107, 32] + (Decimal(n) + rest) ==>
                  AckIdOf(payload, stale) == Some(if n < 0x1_0000_0000_0000_0000 then n else stale.entry.id))
  {
    var text := ReadString(Fresh(payload)).value;
    var tag := [97, 99, 107, 32];
    assert text == tag + rest ==> tag <= text && text[4..] == rest;
    assert text == tag + (Decimal(n) + rest) ==> tag <= text && text[4..] == Decimal(n) + rest;
    FromCharsOfDecimal(n, rest, stale.entry.id, TWO_64);
  }

  // ---- what is logged

  type Totals = map<seq<Byte>, ProcessStat>

  datatype Report = Report(name: seq<Byte>, kind: U32, value: U64)

  /** A program without processes counts as all zero. */
  function TotalFor(totals: Totals, name: seq<Byte>): ProcessStat {
    if name in totals then totals[name] else NO_STAT
  }

  /** The j-th metric of a program: its kind (1 CPU, 2 MEM, 3 DISK, 4 NET), its
      value, and its threshold. */
  function Candidate(c: ConfigEntry, totals: Totals, j: nat): (Report, U64)
    requires j < 4
  {
    var s := TotalFor(totals, c.name);
    if j == 0 then (Report(c.name, 1, s.cpu), c.cpu)
    else if j == 1 then (Report(c.name, 2, s.mem), c.mem)
    else if j == 2 then (Report(c.name, 3, Sum64(s.disk.read, s.disk.write)), c.disk)
    else (Report(c.name, 4, Sum64(s.network.recv, s.network.send)), c.network)
  }

  /** The flat specification: of the 4 |config| candidates in config order, and for
      each program in the order of the kinds, those among the first k that exceed
      their thresholds. */
  function Reports(config: seq<ConfigEntry>, totals: Totals, k: nat): seq<Report>
    requires k <= 4 * |config|
  {
    if k == 0 then []
    else
      var (report, threshold) := Candidate(config[(k - 1) / 4], totals, (k - 1) % 4);
      Reports(config, totals, k - 1) + if report.value > threshold then [report] else []
  }

  /** The reports as log entries, numbered from `first` on 64 bits. */
  function Numbered64(rs: seq<Report>, first: U64, now: U64): (es: seq<LogEntry>)
    ensures |es| == |rs|
  {
    seq(|rs|, i requires 0 <= i < |rs| => LogEntry((first + i) % TWO_64, rs[i].name, now, rs[i].kind, rs[i].value))
  }

  /** The queue and the files after logging the reports. */
  function Logged(q: Queue, rs: seq<Report>, now: U64): Queue {
    Queue(q.ackId, q.entries + Numbered64(rs, q.newId, now), (q.newId + |rs|) % TWO_64)
  }

  /** The files after adding the entries one by one, where canWrite says of each
      number whether the log file can be opened for its line. */
  function FilesLogged(files: Files, es: seq<LogEntry>, canWrite: U64 -> bool): Files {
    if es == [] then files
    else
      var init, e := es[..|es| - 1], es[|es| - 1];
      FilesAdded(FilesLogged(files, init, canWrite), e, canWrite(e.id))
  }

  /** The entries whose lines were written. */
  function Kept(es: seq<LogEntry>, canWrite: U64 -> bool): seq<LogEntry> {
    if es == [] then []
    else
      var init, e := es[..|es| - 1], es[|es| - 1];
      Kept(init, canWrite) + if canWrite(e.id) then [e] else []
  }

  class ClientLogger {
    var config: seq<ConfigEntry>
    const logQueue: LogQueue

    /** The queue parameter is copied into the logger and then destroyed. */
    constructor (config: seq<ConfigEntry>, dir: Directory, disk: Disk, stale: Stale)
      modifies dir
      ensures fresh(logQueue) && logQueue.dir == dir && this.config == config
      ensures var q := Opened(old(dir.files), disk, stale);
              logQueue.View() == q && dir.files == Destroyed(q, FilesOpened(old(dir.files), disk), disk)
    {
      var parameter := new LogQueue(dir, disk, stale);
      this.config := config;
      logQueue := new LogQueue.Copy(parameter);
      new;
      parameter.Destroy(disk);
    }

    /** The network-receive callback.  Without its leading string a payload makes
        the reader throw, and nothing catches that: the client ends. */
    method OnMessage(payload: seq<Byte>, stale: Stale, ackWritten: bool) returns (alive: bool)
      modifies logQueue, logQueue.dir
      ensures alive == ReadString(Fresh(payload)).Got?
      ensures var text := ReadString(Fresh(payload));
              text.Thrown? || !([97, 99, 107, 32] <= text.value) ==>
                logQueue.View() == old(logQueue.View()) && logQueue.dir.files == old(logQueue.dir.files)
      ensures var id := AckIdOf(payload, stale);
              if id == None
              then logQueue.View() == old(logQueue.View()) && logQueue.dir.files == old(logQueue.dir.files)
              else && logQueue.View() == Acked(old(logQueue.View()), id.value)
                   && logQueue.dir.files ==
                      FilesAcked(old(logQueue.View()), old(logQueue.dir.files), id.value, ackWritten)
    {
      var inp := new InStream(payload);
      var message := ReadStr(inp, stale.bytes);
      if message == None {
        return false;
      }
      if TAG_ACK <= message.value {
        var id := FromChars(message.value[|TAG_ACK|..], stale.entry.id, TWO_64);
        logQueue.AckLog(id, ackWritten);
      }
      alive := true;
    }

    /** Drawing an id and adding one entry. */
    method AddReport(r: Report, canWrite: U64 -> bool, now: U64)
      modifies logQueue, logQueue.dir
      ensures logQueue.View() == Logged(old(logQueue.View()), [r], now)
      ensures logQueue.dir.files ==
              FilesLogged(old(logQueue.dir.files), Numbered64([r], old(logQueue.newId), now), canWrite)
    {
      hide TextLine, FilesAdded;
      var id := logQueue.GetNewId();
      var e := LogEntry(id, r.name, now, r.kind, r.value);
      logQueue.AddLog(e, canWrite(id));
      assert Numbered64([r], id, now) == [e];
      assert [e][..0] == [];
    }

    /** From the queue q0 and the files files0 on, exactly the reports among the
        first k candidates have been logged. */
    ghost predicate LoggedUpTo(k: nat, totals: Totals, canWrite: U64 -> bool, now: U64, q0: Queue, files0: Files)
      reads this, logQueue, logQueue.dir
    {
      && k <= 4 * |config|
      && var rs := Reports(config, totals, k);
         && logQueue.View() == Logged(q0, rs, now)
         && logQueue.dir.files == FilesLogged(files0, Numbered64(rs, q0.newId, now), canWrite)
    }

    /** One of the four tests of a program's metrics. */
    method LogIfOver(report: Report, threshold: U64, canWrite: U64 -> bool, now: U64,
                     ghost i: nat, ghost j: nat, ghost totals: Totals, ghost q0: Queue, ghost files0: Files)
      requires i < |config| && j < 4 && Candidate(config[i], totals, j) == (report, threshold)
      requires LoggedUpTo(4 * i + j, totals, canWrite, now, q0, files0)
      modifies logQueue, logQueue.dir
      ensures LoggedUpTo(4 * i + j + 1, totals, canWrite, now, q0, files0)
    {
      hide Logged, FilesLogged, Candidate, Numbered64;
      ghost var rs := Reports(config, totals, 4 * i + j);
      assert (4 * i + j) / 4 == i && (4 * i + j) % 4 == j;
      assert rs + [] == rs;
      if report.value > threshold {
        LoggedMore(q0, files0, rs, report, canWrite, now);
        AddReport(report, canWrite, now);
      }
    }

    /** The four tests for one program. */
    method LogProgram(c: ConfigEntry, totals: Totals, canWrite: U64 -> bool, now: U64,
                      ghost i: nat, ghost q0: Queue, ghost files0: Files)
      requires i < |config| && c == config[i]
      requires LoggedUpTo(4 * i, totals, canWrite, now, q0, files0)
      modifies logQueue, logQueue.dir
      ensures LoggedUpTo(4 * (i + 1), totals, canWrite, now, q0, files0)
    {
      hide LoggedUpTo;
      var stat := TotalFor(totals, c.name);
      LogIfOver(Report(c.name, 1, stat.cpu), c.cpu, canWrite, now, i, 0, totals, q0, files0);
      LogIfOver(Report(c.name, 2, stat.mem), c.mem, canWrite, now, i, 1, totals, q0, files0);
      LogIfOver(Report(c.name, 3, Sum64(stat.disk.read, stat.disk.write)), c.disk, canWrite, now,
                i, 2, totals, q0, files0);
      LogIfOver(Report(c.name, 4, Sum64(stat.network.recv, stat.network.send)), c.network, canWrite, now,
                i, 3, totals, q0, files0);
    }

    method GenerateLog(totals: Totals, canWrite: U64 -> bool, now: U64)
      modifies logQueue, logQueue.dir
      ensures LoggedUpTo(4 * |config|, totals, canWrite, now, old(logQueue.View()), old(logQueue.dir.files))
    {
      ghost var q0, files0 := logQueue.View(), logQueue.dir.files;
      NothingLogged(q0, now);
      assert LoggedUpTo(0, totals, canWrite, now, q0, files0);
      hide LoggedUpTo;
      for i := 0 to |config|
        invariant LoggedUpTo(4 * i, totals, canWrite, now, q0, files0)
      {
        LogProgram(config[i], totals, canWrite, now, i, q0, files0);
      }
    }
  }

  /** What logging adds: the reports in order, numbered on 64 bits. */
  lemma LoggedMeans(q: Queue, rs: seq<Report>, now: U64)
    ensures var q1, n := Logged(q, rs, now), |q.entries|;
            && n <= |q1.entries| && q1.ackId == q.ackId
            && q1.newId == (q.newId + |rs|) % 0x1_0000_0000_0000_0000
            && q1.entries == q.entries + q1.entries[n..] && |q1.entries[n..]| == |rs|
            && forall i :: 0 <= i < |rs| ==>
                 q1.entries[n..][i] == LogEntry((q.newId + i) % 0x1_0000_0000_0000_0000,
                                                rs[i].name, now, rs[i].kind, rs[i].value)
  {
  }

  lemma NothingLogged(q: Queue, now: U64)
    ensures Logged(q, [], now) == q
  {
    assert q.entries + [] == q.entries;
  }

  lemma LoggedMore(q: Queue, files: Files, rs: seq<Report>, r: Report, canWrite: U64 -> bool, now: U64)
    ensures Logged(Logged(q, rs, now), [r], now) == Logged(q, rs + [r], now)
    ensures var first := Logged(q, rs, now).newId;
            FilesLogged(FilesLogged(files, Numbered64(rs, q.newId, now), canWrite),
                        Numbered64([r], first, now), canWrite)
            == FilesLogged(files, Numbered64(rs + [r], q.newId, now), canWrite)
  {
    hide FilesAdded;
    var first := (q.newId + |rs|) % TWO_64;
    assert first % TWO_64 == first;
    ModAdd(q.newId + |rs|, 1, TWO_64);
    var a, b := Numbered64(rs, q.newId, now), Numbered64([r], first, now);
    assert Numbered64(rs + [r], q.newId, now) == a + b;
    assert q.entries + a + b == q.entries + (a + b);
    assert b == [b[0]] && b[..0] == [] && (a + b)[..|a|] == a;
  }

  /** The log file grows by exactly the lines that could be written, in order. */
  lemma {:induction false} LinesLogged(files: Files, es: seq<LogEntry>, canWrite: U64 -> bool)
    ensures var y := FilesLogged(files, es, canWrite);
            && y.log.ValueOr([]) == files.log.ValueOr([]) + Lines(Kept(es, canWrite))
            && y.ack == files.ack
            && (Kept(es, canWrite) == [] ==> y == files)
  {
    hide TextLine;
    if es != [] {
      var init, e := es[..|es| - 1], es[|es| - 1];
      LinesLogged(files, init, canWrite);
      var kept := Kept(init, canWrite);
      LinesSnoc(kept, e);
      assert kept + [] == kept;
      Associate(files.log.ValueOr([]), Lines(kept), TextLine(e));
    }
  }

  // ---- what that means

  /** A program's candidate of each kind, written out: over its threshold only if
      the program has processes. */
  lemma CandidateIs(c: ConfigEntry, totals: Totals, j: nat)
    requires j < 4
    ensures c.name !in totals ==> !(Candidate(c, totals, j).0.value > Candidate(c, totals, j).1)
    ensures c.name in totals ==>
              var s := totals[c.name];
              var disk := (s.disk.read.ValueOr(0) + s.disk.write.ValueOr(0)) % 0x1_0000_0000_0000_0000;
              var network := (s.network.recv.ValueOr(0) + s.network.send.ValueOr(0)) % 0x1_0000_0000_0000_0000;
              Candidate(c, totals, j) == if j == 0 then (Report(c.name, 1, s.cpu), c.cpu)
                                         else if j == 1 then (Report(c.name, 2, s.mem), c.mem)
                                         else if j == 2 then (Report(c.name, 3, disk), c.disk)
                                         else (Report(c.name, 4, network), c.network)
  {
  }

  predicate IsOver(config: seq<ConfigEntry>, totals: Totals, place: nat)
    requires place < 4 * |config|
  {
    var (report, threshold) := Candidate(config[place / 4], totals, place % 4);
    report.value > threshold
  }

  lemma {:induction false} ReportPlaces(config: seq<ConfigEntry>, totals: Totals, k: nat) returns (places: seq<nat>)
    requires k <= 4 * |config|
    ensures |places| == |Reports(config, totals, k)|
    ensures forall n, m :: 0 <= n < m < |places| ==> places[n] < places[m]
    ensures forall n :: 0 <= n < |places| ==>
              && places[n] < k
              && Reports(config, totals, k)[n] == Candidate(config[places[n] / 4], totals, places[n] % 4).0
    ensures forall p: nat :: p < k ==> (p in places <==> IsOver(config, totals, p))
  {
    hide Candidate, Reports, IsOver;
    places := [];
    if k == 0 {
      NoReports(config, totals);
    } else {
      var init := ReportPlaces(config, totals, k - 1);
      OneMoreReport(config, totals, k);
      places := init;
      if IsOver(config, totals, k - 1) {
        places := init + [k - 1];
        MemberOfSnoc(init, k - 1);
      }
    }
  }

  lemma NoReports(config: seq<ConfigEntry>, totals: Totals)
    ensures Reports(config, totals, 0) == []
  {
  }

  lemma OneMoreReport(config: seq<ConfigEntry>, totals: Totals, k: nat)
    requires 0 < k <= 4 * |config|
    ensures Reports(config, totals, k) == Reports(config, totals, k - 1)
              + if IsOver(config, totals, k - 1) then [Candidate(config[(k - 1) / 4], totals, (k - 1) % 4).0] else []
  {
    hide Candidate;
  }

  lemma MemberOfSnoc(s: seq<nat>, x: nat)
    ensures forall y :: y in s + [x] <==> y in s || y == x
  {
  }

  /** Exactly the due reports, in the order of the configuration and once each: the
      list of their places, four for each configured program, grows strictly, and a
      place is in it if and only if the program has processes and the place's total
      exceeds its threshold, the third and the fourth being 64-bit sums. */
  lemma ReportsInOrder(config: seq<ConfigEntry>, totals: Totals) returns (places: seq<nat>)
    ensures |places| == |Reports(config, totals, 4 * |config|)|
    ensures forall n, m :: 0 <= n < m < |places| ==> places[n] < places[m]
    ensures forall p: nat :: p in places <==>
              p < 4 * |config| && config[p / 4].name in totals
              && var c, s := config[p / 4], totals[config[p / 4].name];
                 if p % 4 == 0 then s.cpu > c.cpu
                 else if p % 4 == 1 then s.mem > c.mem
                 else if p % 4 == 2 then
                   (s.disk.read.ValueOr(0) + s.disk.write.ValueOr(0)) % 0x1_0000_0000_0000_0000 > c.disk
                 else
                   (s.network.recv.ValueOr(0) + s.network.send.ValueOr(0)) % 0x1_0000_0000_0000_0000 > c.network
    ensures forall n :: 0 <= n < |places| ==>
              && places[n] < 4 * |config| && config[places[n] / 4].name in totals
              && var name, s, j := config[places[n] / 4].name, totals[config[places[n] / 4].name], places[n] % 4;
                 Reports(config, totals, 4 * |config|)[n] ==
                 if j == 0 then Report(name, 1, s.cpu)
                 else if j == 1 then Report(name, 2, s.mem)
                 else if j == 2 then
                   Report(name, 3, (s.disk.read.ValueOr(0) + s.disk.write.ValueOr(0)) % 0x1_0000_0000_0000_0000)
                 else
                   Report(name, 4, (s.network.recv.ValueOr(0) + s.network.send.ValueOr(0)) % 0x1_0000_0000_0000_0000)
  {
    hide Candidate, Reports;
    places := ReportPlaces(config, totals, 4 * |config|);
    forall p: nat | p < 4 * |config|
      ensures p in places <==> IsOver(config, totals, p)
      ensures IsOver(config, totals, p) ==> config[p / 4].name in totals
    {
      CandidateIs(config[p / 4], totals, p % 4);
    }
    forall p: nat | p < 4 * |config| && config[p / 4].name in totals
      ensures var c, s := config[p / 4], totals[config[p / 4].name];
              var disk := (s.disk.read.ValueOr(0) + s.disk.write.ValueOr(0)) % 0x1_0000_0000_0000_0000;
              var network := (s.network.recv.ValueOr(0) + s.network.send.ValueOr(0)) % 0x1_0000_0000_0000_0000;
              && (IsOver(config, totals, p) <==>
                  if p % 4 == 0 then s.cpu > c.cpu else if p % 4 == 1 then s.mem > c.mem
                  else if p % 4 == 2 then disk > c.disk else network > c.network)
              && Candidate(c, totals, p % 4).0 ==
                 if p % 4 == 0 then Report(c.name, 1, s.cpu) else if p % 4 == 1 then Report(c.name, 2, s.mem)
                 else if p % 4 == 2 then Report(c.name, 3, disk) else Report(c.name, 4, network)
    {
      CandidateIs(config[p / 4], totals, p % 4);
    }
    assert forall n :: 0 <= n < |places| ==> places[n] in places;
  }

  /** A report is made if and only if a configured program has processes and the
      total of that kind, which is the report's value, exceeds its threshold. */
  lemma ReportedIff(config: seq<ConfigEntry>, totals: Totals, r: Report)
    ensures r in Reports(config, totals, 4 * |config|)
            <==> exists i :: 0 <= i < |config| && config[i].name == r.name && r.name in totals
                   && r.value == (var s := totals[r.name];
                        match r.kind
                        case 1 => s.cpu
                        case 2 => s.mem
                        case 3 => (s.disk.read.ValueOr(0) + s.disk.write.ValueOr(0)) % 0x1_0000_0000_0000_0000
                        case 4 => (s.network.recv.ValueOr(0) + s.network.send.ValueOr(0)) % 0x1_0000_0000_0000_0000
                        case _ => -1)
                   && r.value > (match r.kind
                        case 1 => config[i].cpu
                        case 2 => config[i].mem
                        case 3 => config[i].disk
                        case _ => config[i].network)
  {
    hide Candidate, Reports;
    if r in Reports(config, totals, 4 * |config|) {
      var i, j := ReportedFrom(config, totals, r);
      CandidateIs(config[i], totals, j);
    }
    forall i | 0 <= i < |config| && config[i].name == r.name && r.name in totals && 1 <= r.kind <= 4
      ensures var (report, threshold) := Candidate(config[i], totals, r.kind - 1);
              report == r && r.value > threshold ==> r in Reports(config, totals, 4 * |config|)
    {
      DueIsReported(config, totals, i, r.kind - 1);
    }
    forall i | 0 <= i < |config| && config[i].name == r.name && r.name in totals && 1 <= r.kind <= 4 {
      CandidateIs(config[i], totals, r.kind - 1);
    }
  }

  lemma ReportedFrom(config: seq<ConfigEntry>, totals: Totals, r: Report) returns (i: nat, j: nat)
    requires r in Reports(config, totals, 4 * |config|)
    ensures i < |config| && j < 4
    ensures Candidate(config[i], totals, j).0 == r && r.value > Candidate(config[i], totals, j).1
  {
    hide Candidate, Reports;
    var places := ReportPlaces(config, totals, 4 * |config|);
    var n :| 0 <= n < |places| && Reports(config, totals, 4 * |config|)[n] == r;
    assert places[n] in places && IsOver(config, totals, places[n]);
    i, j := places[n] / 4, places[n] % 4;
  }

  lemma DueIsReported(config: seq<ConfigEntry>, totals: Totals, i: nat, j: nat)
    requires i < |config| && j < 4
    ensures var (report, threshold) := Candidate(config[i], totals, j);
            report.value > threshold ==> report in Reports(config, totals, 4 * |config|)
  {
    hide Candidate, Reports;
    var places := ReportPlaces(config, totals, 4 * |config|);
    var p := 4 * i + j;
    assert p / 4 == i && p % 4 == j;
    if p in places {
      var n :| 0 <= n < |places| && places[n] == p;
      assert Reports(config, totals, 4 * |config|)[n] == Candidate(config[i], totals, j).0;
    }
  }

  /** A program without processes is never reported. */
  lemma {:induction false} AbsentNotReported(config: seq<ConfigEntry>, totals: Totals, k: nat, i: nat)
    requires k <= 4 * |config| && i < |Reports(config, totals, k)|
    ensures Reports(config, totals, k)[i].name in totals
  {
    hide Candidate;
    AbsentIsZero(config[(k - 1) / 4], totals, (k - 1) % 4);
    if i < |Reports(config, totals, k - 1)| {
      AbsentNotReported(config, totals, k - 1, i);
    }
  }

  lemma AbsentIsZero(c: ConfigEntry, totals: Totals, j: nat)
    requires j < 4
    ensures Candidate(c, totals, j).0.name == c.name
    ensures c.name !in totals ==> Candidate(c, totals, j).0.value == 0
  {
  }
}
