/** The client's log queue (src/client/log_queue.cpp): pending entries in
    memory, every entry in a log file, the last acknowledged id in an ack file. */
module LogQueues {
  import opened Bytes
  import opened Streams
  import opened LogEntries

  const MAX_LOG_FILE_SIZE := 10 * 1024 * 1024

  /** The two files; None for a file that does not exist. */
  datatype Files = Files(log: Option<seq<Byte>>, ack: Option<seq<Byte>>)

  /** The object's fields. */
  datatype Queue = Queue(ackId: U64, entries: seq<LogEntry>, newId: U64)

  /** Which file operations succeed while a queue is opened and a copy of it
      destroyed: opening the existing files for reading, creating the files or
      emptying those that could not be read, and what the destructor does. */
  datatype Disk = Disk(readAck: bool, readLog: bool, createAck: bool, createLog: bool,
                       reopenLog: bool, openTmp: bool, rename: bool, writeAck: bool)

  // ---- what each operation computes

  /** The loading loop: lines that parse, with ids above the stored ack. */
  function Loaded(inp: Input, ackId: U64, stale: Stale): seq<LogEntry>
    decreases |inp.rest|, inp.good
  {
    if !inp.good then []
    else
      var p := ParseLine(inp, stale.entry, stale.kind);
      var more := Loaded(p.next, ackId, stale);
      if p.ret == 0 && p.entry.id > ackId then [p.entry] + more else more
  }

  /** A file that is missing and one that cannot be opened are not told apart. */
  function StoredAck(files: Files, disk: Disk, stale: Stale): U64 {
    if files.ack == None || !disk.readAck then 0 else ExtractU64(files.ack.value, stale.entry.id)
  }

  function LoadedEntries(files: Files, disk: Disk, ackId: U64, stale: Stale): seq<LogEntry> {
    if files.log == None || !disk.readLog then [] else Loaded(Fresh(files.log.value), ackId, stale)
  }

  /** Numbering starts at 1 and is raised only by a pending entry. */
  function NextId(entries: seq<LogEntry>): U64 {
    if entries == [] then 1 else Succ(entries[|entries| - 1].id)
  }

  function Opened(files: Files, disk: Disk, stale: Stale): Queue {
    var ackId := StoredAck(files, disk, stale);
    var entries := LoadedEntries(files, disk, ackId, stale);
    Queue(ackId, entries, NextId(entries))
  }

  /** A file that could not be opened for reading is opened for writing, which
      empties it. */
  function FilesOpened(files: Files, disk: Disk): Files {
    Files(if (files.log == None || !disk.readLog) && disk.createLog then Some([]) else files.log,
          if (files.ack == None || !disk.readAck) && disk.createAck then Some(Decimal(0)) else files.ack)
  }

  /** Entries with ids above a. */
  function Above(es: seq<LogEntry>, a: U64): seq<LogEntry> {
    if es == [] then []
    else if es[0].id > a then [es[0]] + Above(es[1..], a)
    else Above(es[1..], a)
  }

  /** Dropping acknowledged entries from the front. */
  function Popped(es: seq<LogEntry>, a: U64): seq<LogEntry> {
    if es == [] || es[0].id > a then es else Popped(es[1..], a)
  }

  function Added(q: Queue, e: LogEntry): Queue {
    q.(entries := q.entries + [e])
  }

  function FilesAdded(files: Files, e: LogEntry, canWrite: bool): Files {
    if canWrite then files.(log := Some(files.log.ValueOr([]) + TextLine(e))) else files
  }

  function Acked(q: Queue, id: U64): Queue {
    if id == q.ackId then q else Queue(id, Popped(q.entries, id), q.newId)
  }

  function FilesAcked(q: Queue, files: Files, id: U64, canWrite: bool): Files {
    if id == q.ackId || !canWrite then files else files.(ack := Some(Decimal(id)))
  }

  /** The queue's size is compared with the batch size on 32 bits. */
  function BatchSize(q: Queue, batchSize: U32): nat {
    Min(batchSize, |q.entries| % TWO_32)
  }

  function Batch(q: Queue, batchSize: U32): seq<LogEntry> {
    q.entries[..BatchSize(q, batchSize)]
  }

  /** The clean-up: a log file over the size limit is replaced by the pending lines. */
  function Cleaned(q: Queue, files: Files, disk: Disk): Files {
    if files.log == None || !disk.reopenLog || |files.log.value| <= MAX_LOG_FILE_SIZE then files
    else if !disk.openTmp || !disk.rename then files
    else files.(log := Some(Lines(Above(q.entries, q.ackId))))
  }

  function Destroyed(q: Queue, files: Files, disk: Disk): Files {
    var cleaned := Cleaned(q, files, disk);
    if disk.writeAck then cleaned.(ack := Some(Decimal(q.ackId))) else cleaned
  }

  // ---- the class

  /** The directory holding the two files; it outlives the queue. */
  class Directory {
    var files: Files

    constructor (files: Files)
      ensures this.files == files
    {
      this.files := files;
    }
  }

  class LogQueue {
    const dir: Directory
    var ackId: U64
    var logEntries: seq<LogEntry>
    var newId: U64

    function View(): Queue
      reads this
    {
      Queue(ackId, logEntries, newId)
    }

    constructor (dir: Directory, disk: Disk, stale: Stale)
      modifies dir
      ensures this.dir == dir
      ensures View() == Opened(old(dir.files), disk, stale)
      ensures dir.files == FilesOpened(old(dir.files), disk)
    {
      this.dir := dir;
      newId := 1;
      ackId := 0;
      logEntries := [];
      new;
      ReadAck(disk, stale);
      ReadLog(disk, stale);
      newId := NextId(logEntries);
    }

    /** The implicit copy: the same files, the same contents. */
    constructor Copy(other: LogQueue)
      ensures dir == other.dir && View() == other.View()
    {
      dir := other.dir;
      ackId, logEntries, newId := other.ackId, other.logEntries, other.newId;
    }

    method ReadAck(disk: Disk, stale: Stale)
      modifies this`ackId, dir
      ensures ackId == StoredAck(old(dir.files), disk, stale)
      ensures dir.files == old(dir.files).(ack := FilesOpened(old(dir.files), disk).ack)
    {
      hide ExtractU64, Decimal;
      if dir.files.ack == None || !disk.readAck {
        if disk.createAck {
          dir.files := dir.files.(ack := Some(Decimal(0)));
        }
        ackId := 0;
      } else {
        ackId := ExtractU64(dir.files.ack.value, stale.entry.id);
      }
    }

    method ReadLog(disk: Disk, stale: Stale)
      requires logEntries == []
      modifies this`logEntries, dir
      ensures logEntries == LoadedEntries(old(dir.files), disk, ackId, stale)
      ensures dir.files == old(dir.files).(log := FilesOpened(old(dir.files), disk).log)
    {
      hide Loaded;
      if dir.files.log == None || !disk.readLog {
        if disk.createLog {
          dir.files := dir.files.(log := Some([]));
        }
      } else {
        LoadFrom(dir.files.log.value, stale);
      }
    }

    method LoadFrom(file: seq<Byte>, stale: Stale)
      requires logEntries == []
      modifies this`logEntries
      ensures logEntries == Loaded(Fresh(file), ackId, stale)
    {
      hide ParseLine;
      var input := new InStream(file);
      assert [] + Loaded(Fresh(file), ackId, stale) == Loaded(Fresh(file), ackId, stale);
      while input.good
        invariant logEntries + Loaded(input.View(), ackId, stale) == Loaded(Fresh(file), ackId, stale)
        decreases |input.rest|, input.good
      {
        LoadedStep(logEntries, input.View(), ackId, stale);
        var ret, entry := DeserializeStr(input, stale.entry, stale.kind);
        if ret == 0 && entry.id > ackId {
          logEntries := logEntries + [entry];
        }
      }
    }

    /** The destructor. */
    method Destroy(disk: Disk)
      modifies dir
      ensures dir.files == Destroyed(View(), old(dir.files), disk)
    {
      CleanOldLogs(disk);
      if disk.writeAck {
        dir.files := dir.files.(ack := Some(Decimal(ackId)));
      }
    }

    method CleanOldLogs(disk: Disk)
      modifies dir
      ensures dir.files == Cleaned(View(), old(dir.files), disk)
    {
      hide TextLine, Above, Lines;
      if dir.files.log == None || !disk.reopenLog {
        return;
      }
      var fileSize := |dir.files.log.value|;
      if fileSize <= MAX_LOG_FILE_SIZE {
        return;
      }
      if !disk.openTmp {
        return;
      }
      var temp := new OutStream();
      NothingAbove(ackId);
      for i := 0 to |logEntries|
        invariant temp.data == Lines(Above(logEntries[..i], ackId))
        invariant unchanged(dir) && unchanged(this)
      {
        AboveSnoc(logEntries[..i], logEntries[i], ackId);
        assert logEntries[..i + 1] == logEntries[..i] + [logEntries[i]];
        if logEntries[i].id > ackId {
          SerializeStr(logEntries[i], temp);
          LinesSnoc(Above(logEntries[..i], ackId), logEntries[i]);
        }
      }
      assert logEntries[..|logEntries|] == logEntries;
      if disk.rename {
        dir.files := dir.files.(log := Some(temp.data));
      }
    }

    method AddLog(e: LogEntry, canWrite: bool)
      modifies this`logEntries, dir
      ensures View() == Added(old(View()), e)
      ensures dir.files == FilesAdded(old(dir.files), e, canWrite)
    {
      if canWrite {
        var out := new OutStream();
        SerializeStr(e, out);
        assert [] + TextLine(e) == TextLine(e);
        dir.files := dir.files.(log := Some(dir.files.log.ValueOr([]) + out.data));
      }
      logEntries := logEntries + [e];
    }

    method GetBatchLog(batchSize: U32) returns (peek: seq<LogEntry>)
      ensures peek == Batch(View(), batchSize)
    {
      if logEntries == [] {
        return [];
      }
      var size := Min(batchSize, |logEntries| % TWO_32);
      peek := [];
      for i := 0 to size
        invariant peek == logEntries[..i]
      {
        peek := peek + [logEntries[i]];
      }
    }

    method AckLog(id: U64, canWrite: bool)
      modifies this`ackId, this`logEntries, dir
      ensures View() == Acked(old(View()), id)
      ensures dir.files == FilesAcked(old(View()), old(dir.files), id, canWrite)
    {
      if id == ackId {
        return;
      }
      ackId := id;
      while logEntries != [] && logEntries[0].id <= ackId
        invariant Popped(logEntries, id) == Popped(old(logEntries), id)
        invariant ackId == id && newId == old(newId) && dir.files == old(dir.files)
      {
        logEntries := logEntries[1..];
      }
      if canWrite {
        dir.files := dir.files.(ack := Some(Decimal(ackId)));
      }
    }

    method GetNewId() returns (id: U64)
      modifies this`newId
      ensures id == old(newId) && newId == Succ(id)
    {
      id := newId;
      newId := (newId + 1) % TWO_64;
    }
  }

  lemma LoadedStep(done: seq<LogEntry>, inp: Input, ackId: U64, stale: Stale)
    requires inp.good
    ensures var p := ParseLine(inp, stale.entry, stale.kind);
            && (|p.next.rest| < |inp.rest| || (|p.next.rest| == |inp.rest| && !p.next.good))
            && done + Loaded(inp, ackId, stale) ==
               (if p.ret == 0 && p.entry.id > ackId then done + [p.entry] else done) + Loaded(p.next, ackId, stale)
  {
    hide ParseBody;
    var p := ParseLine(inp, stale.entry, stale.kind);
    var more := Loaded(p.next, ackId, stale);
    assert done + ([p.entry] + more) == done + [p.entry] + more;
  }

  lemma NothingAbove(a: U64)
    ensures Lines(Above([], a)) == []
  {
  }

  lemma {:induction false} AboveSnoc(es: seq<LogEntry>, e: LogEntry, a: U64)
    ensures Above(es + [e], a) == if e.id > a then Above(es, a) + [e] else Above(es, a)
  {
    if es == [] {
      assert (es + [e])[1..] == [];
    } else {
      assert (es + [e])[1..] == es[1..] + [e];
      AboveSnoc(es[1..], e, a);
    }
  }

  // ---- restart and compaction

  predicate AllSafe(es: seq<LogEntry>) {
    forall i :: 0 <= i < |es| ==> TextSafe(es[i].name)
  }

  lemma LinesCons(es: seq<LogEntry>)
    requires es != []
    ensures Lines(es) == TextLine(es[0]) + Lines(es[1..])
  {
    hide TextLine;
    assert es == [es[0]] + es[1..];
    LinesConcat([es[0]], es[1..]);
    LinesOne(es[0]);
  }

  /** Loading a log file yields exactly its entries above the ack, in order. */
  lemma {:induction false} LoadLines(es: seq<LogEntry>, ackId: U64, stale: Stale)
    requires AllSafe(es)
    ensures Loaded(Fresh(Lines(es)), ackId, stale) == Above(es, ackId)
  {
    hide TextLine;
    if es != [] {
      LinesCons(es);
      LineBack(es[0], Lines(es[1..]), stale.entry, stale.kind);
      LoadLines(es[1..], ackId, stale);
    }
  }

  lemma {:induction false} AboveConcat(a: seq<LogEntry>, b: seq<LogEntry>, ack: U64)
    ensures Above(a + b, ack) == Above(a, ack) + Above(b, ack)
  {
    if a == [] {
      assert a + b == b;
    } else {
      assert (a + b)[1..] == a[1..] + b;
      AboveConcat(a[1..], b, ack);
    }
  }

  lemma {:induction false} AboveSafe(es: seq<LogEntry>, a: U64)
    requires AllSafe(es)
    ensures AllSafe(Above(es, a))
  {
    if es != [] {
      AboveSafe(es[1..], a);
    }
  }

  lemma {:induction false} AboveMember(es: seq<LogEntry>, a: U64, e: LogEntry)
    ensures e in Above(es, a) <==> e in es && e.id > a
  {
    if es != [] {
      AboveMember(es[1..], a, e);
    }
  }

  lemma {:induction false} AboveAbove(es: seq<LogEntry>, a: U64, b: U64)
    requires a <= b
    ensures Above(Above(es, a), b) == Above(es, b)
  {
    if es != [] {
      AboveAbove(es[1..], a, b);
    }
  }

  /** Replacing the log file by the entries above `a` leaves a later reload, after
      any further lines were appended, unchanged for the stored ack b exactly when
      no entry in between (above b, at most a) was thrown away; in particular for
      every b at or above a. */
  lemma CompactionIff(es: seq<LogEntry>, later: seq<LogEntry>, a: U64, b: U64, stale: Stale)
    requires AllSafe(es) && AllSafe(later)
    ensures Loaded(Fresh(Lines(Above(es, a)) + Lines(later)), b, stale)
              == Loaded(Fresh(Lines(es) + Lines(later)), b, stale)
            <==> forall e :: e in es && e.id > b ==> e.id > a
  {
    hide TextLine;
    AboveSafe(es, a);
    LinesConcat(Above(es, a), later);
    LinesConcat(es, later);
    LoadLines(Above(es, a) + later, b, stale);
    LoadLines(es + later, b, stale);
    AboveConcat(Above(es, a), later, b);
    AboveConcat(es, later, b);
    if forall e :: e in es && e.id > b ==> e.id > a {
      NothingBetween(es, a, b);
    } else {
      var e :| e in es && e.id > b && e.id <= a;
      AboveMember(es, a, e);
      AboveMember(Above(es, a), b, e);
      AboveMember(es, b, e);
      CancelRight(Above(Above(es, a), b), Above(es, b), Above(later, b));
    }
  }

  lemma CancelRight(x: seq<LogEntry>, y: seq<LogEntry>, z: seq<LogEntry>)
    ensures x + z == y + z <==> x == y
  {
    assert |x| == |y| ==> (x + z)[..|x|] == x && (y + z)[..|x|] == y;
  }

  lemma {:induction false} NothingBetween(es: seq<LogEntry>, a: U64, b: U64)
    requires forall e :: e in es && e.id > b ==> e.id > a
    ensures Above(Above(es, a), b) == Above(es, b)
  {
    if es != [] {
      assert forall e :: e in es[1..] ==> e in es;
      assert es[0] in es;
      NothingBetween(es[1..], a, b);
    }
  }

  /** Opening creates the missing files and empties the unreadable ones, the log
      with no byte and the ack file with the digit 0, and leaves the others alone;
      a queue without a readable file starts from 0, with nothing, at 1. */
  lemma OpeningMeans(files: Files, disk: Disk, stale: Stale)
    ensures var q, after := Opened(files, disk, stale), FilesOpened(files, disk);
            && (files.log == None || !disk.readLog ==>
                  q.entries == [] && q.newId == 1 && after.log == if disk.createLog then Some([]) else files.log)
            && (files.log != None && disk.readLog ==> after.log == files.log)
            && (q.entries != [] ==> q.newId == (q.entries[|q.entries| - 1].id + 1) % 0x1_0000_0000_0000_0000)
            && (files.ack == None || !disk.readAck ==>
                  q.ackId == 0 && after.ack == if disk.createAck then Some([48]) else files.ack)
            && (files.ack != None && disk.readAck ==>
                  q.ackId == ExtractU64(files.ack.value, stale.entry.id) && after.ack == files.ack)
  {
  }

  /** Loading any file, line by line: an empty line, like one whose number is not
      above the ack, adds nothing and stops nothing; the last line may lack its end. */
  lemma LoadedLine(line: seq<Byte>, rest: seq<Byte>, ackId: U64, stale: Stale)
    requires 10 !in line
    ensures var e := ParseBody(line, stale.entry, stale.kind);
            var here := if line != [] && e.id > ackId then [e] else [];
            && Loaded(Fresh(line + [10] + rest), ackId, stale) == here + Loaded(Fresh(rest), ackId, stale)
            && Loaded(Fresh(line), ackId, stale) == here
  {
    hide ParseBody, ParseLine;
    LineTaken(line, rest, stale.entry, stale.kind);
    var whole, cut := Fresh(line + [10] + rest), Fresh(line);
    LoadedStep([], whole, ackId, stale);
    LoadedStep([], cut, ackId, stale);
    assert Loaded(Input([], false), ackId, stale) == [];
  }

  /** An ack of the stored number changes nothing.  Any other one, smaller or larger,
      is stored, in the file if it can be, and drops the entries at the front up to
      the first one above it. */
  lemma AckMeans(q: Queue, files: Files, id: U64, canWrite: bool)
    ensures id == q.ackId ==> Acked(q, id) == q && FilesAcked(q, files, id, canWrite) == files
    ensures id != q.ackId ==>
              && Acked(q, id).ackId == id && Acked(q, id).newId == q.newId
              && FilesAcked(q, files, id, canWrite) ==
                 Files(files.log, if canWrite then Some(Decimal(id)) else files.ack)
              && exists n :: 0 <= n <= |q.entries| && Acked(q, id).entries == q.entries[n..]
                   && (forall i :: 0 <= i < n ==> q.entries[i].id <= id)
                   && (n < |q.entries| ==> q.entries[n].id > id)
  {
    hide Decimal;
    var n := PoppedFrom(q.entries, id);
  }

  lemma {:induction false} PoppedFrom(es: seq<LogEntry>, a: U64) returns (n: nat)
    ensures n <= |es| && Popped(es, a) == es[n..]
    ensures forall i :: 0 <= i < n ==> es[i].id <= a
    ensures n < |es| ==> es[n].id > a
  {
    n := 0;
    if es != [] && es[0].id <= a {
      n := PoppedFrom(es[1..], a);
      assert forall i :: 0 <= i < n ==> es[1..][i] == es[i + 1];
      n := n + 1;
    }
  }

  /** The destructor stores the last ack if it can, and replaces a log of more than
      10 MiB, if it can, by the lines of the pending entries; a smaller log stays. */
  lemma DestroyingMeans(q: Queue, files: Files, disk: Disk)
    ensures var after := Destroyed(q, files, disk);
            && (files.log == None || |files.log.value| <= 10485760 ==> after.log == files.log)
            && (files.log != None && |files.log.value| > 10485760 ==>
                  after.log == if disk.reopenLog && disk.openTmp && disk.rename
                               then Some(Lines(Above(q.entries, q.ackId))) else files.log)
            && after.ack == if disk.writeAck then Some(Decimal(q.ackId)) else files.ack
  {
    hide Decimal, Lines;
  }

  /** The queue loaded just before holds exactly the entries above the ack, if the
      file could be read.  Its file is left alone up to 10 MiB, and past that the
      compaction, where the disk allows it, leaves exactly those entries. */
  lemma LoadThenClean(es: seq<LogEntry>, files: Files, disk: Disk, stale: Stale)
    requires AllSafe(es) && files.log == Some(Lines(es))
    ensures var q, files1 := Opened(files, disk, stale), FilesOpened(files, disk);
            && q.entries == (if disk.readLog then Above(es, q.ackId) else [])
            && (|files1.log.value| <= 10485760 ==> Cleaned(q, files1, disk) == files1)
            && (|files1.log.value| > 10485760 ==>
                  Cleaned(q, files1, disk) ==
                  if disk.reopenLog && disk.openTmp && disk.rename
                  then files1.(log := Some(Lines(q.entries))) else files1)
  {
    hide TextLine;
    var a := StoredAck(files, disk, stale);
    LoadLines(es, a, stale);
    AboveAbove(es, a, a);
    assert Above([], a) == [];
  }
}
