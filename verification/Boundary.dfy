/** A restart that reads nothing new back: the numbering falls behind the server's,
    and numbers are used again. */
module Boundary {
  import opened Bytes
  import opened Streams
  import opened LogEntries
  import opened LogQueues
  import opened LogServer
  import opened ClientLoggers
  import opened Protocol
  import opened Progress

  /** A message with no entry past number n. */
  ghost predicate OldBatch(p: seq<Byte>, n: nat) {
    exists es :: IsMessage(p, es) && AllUpTo(es, n)
  }

  /** The entries generated after h. */
  function NewSince(x: Sys, h: seq<LogEntry>): seq<LogEntry> {
    if h <= x.history then x.history[|h|..] else []
  }

  /** What the server is going to hold: the first s entries of h, then the new ones
      with higher numbers. */
  function Continued(h: seq<LogEntry>, s: U64, news: seq<LogEntry>): seq<LogEntry> {
    h[..Min(s, |h|)] + Above(news, s)
  }

  /** After the restart the exchange goes on with that history, although the next
      number may be one the server is past. */
  ghost predicate Skipping(x: Sys, h: seq<LogEntry>, s0: U64, s: U64) {
    && h <= x.history && s0 <= |h| && s0 <= s
    && var c := Continued(h, s0, NewSince(x, h));
       |c| == Max(s0, x.queue.newId - 1) && Exchange(x, c, s)
  }

  // ---- the restart

  /** Nothing past number s would be read back, or is under way. */
  ghost predicate NothingPast(x: Sys, disk: Disk, stale: Stale, s: nat) {
    && AllUpTo(Opened(x.files, disk, stale).entries, s)
    && forall p :: p in x.toServer ==> OldBatch(p, s)
  }

  lemma RestartSkips(x: Sys, m: Marks, disk: Disk, stale: Stale)
    requires Inv(x, m) && NothingPast(x, disk, stale, m.s)
    ensures Skipping(Restarted(x, disk, stale), x.history, m.s, m.s)
    ensures Restarted(x, disk, stale).queue.newId <= m.s + 1
  {
    hide Lines, Opened, Destroyed, FilesOpened, Above, GoodHistory, QueueHolds, IsAck, OldBatch, Increasing;
    var h, s := x.history, m.s;
    var q, c := Opened(x.files, disk, stale), h[..s];
    var y := Restarted(x, disk, stale);
    NoneAbove([], s);
    ExchangeInRange(x, h, s);
    assert NewSince(y, h) == [] && c + [] == c;
    GoodPart(h, s);
    QueueBehind(x, m, disk, stale);
    assert c[..s] == c;
    forall p | p in x.toServer
      ensures IsBatch(p, c, s)
    {
      OldIsBatch(p, c, s);
    }
  }

  lemma GoodPart(h: seq<LogEntry>, s: nat)
    requires GoodHistory(h) && s <= |h|
    ensures GoodHistory(h[..s])
  {
  }

  lemma OldIsBatch(p: seq<Byte>, c: seq<LogEntry>, s: U64)
    requires OldBatch(p, s) && s == |c|
    ensures IsBatch(p, c, s)
  {
    hide IsMessage;
    var es :| IsMessage(p, es) && AllUpTo(es, s);
    NoneAbove(es, s);
  }

  /** The queue read back holds nothing that the server lacks. */
  lemma QueueBehind(x: Sys, m: Marks, disk: Disk, stale: Stale)
    requires Inv(x, m) && AllUpTo(Opened(x.files, disk, stale).entries, m.s)
    ensures var q := Opened(x.files, disk, stale);
            QueueHolds(q, x.history[..m.s], m.s) && q.newId <= m.s + 1
  {
    hide Lines, Opened, Exchange, Genuine, Above, Decimal, AllSafe, Increasing;
    var h := x.history;
    ExchangeInRange(x, h, m.s);
    var f :| LogHas(f, h, m.s, x.gap) && x.files.log.ValueOr([]) == Lines(f);
    AmongIsGood(f, h);
    ReloadedIs(x.files, f, m.a, disk, stale);
    var q := Opened(x.files, disk, stale);
    AboveKeeps(f, q.ackId);
    AmongKeeps(f, h, q.ackId);
    AmongIsGood(q.entries, h);
    NoneAbove(q.entries, m.s);
    NoneInOrder();
    NextIsHighest(q.entries);
  }

  lemma NoneInOrder()
    ensures Increasing([])
  {
  }

  /** The number after the last one is above all of them. */
  lemma NextIsHighest(es: seq<LogEntry>)
    requires Increasing(es) && AllUpTo(es, TWO_64 - 2)
    ensures NextId(es) > 0 && AllUpTo(es, NextId(es) - 1)
    ensures NextId(es) == if es == [] then 1 else es[|es| - 1].id + 1
  {
    forall i | 0 <= i < |es|
      ensures es[i].id <= es[|es| - 1].id
    {
    }
  }

  // ---- every step goes on skipping

  lemma SkippingGrows(x: Sys, h: seq<LogEntry>, s0: U64, s: U64, ev: Event)
    requires Skipping(x, h, s0, s) && ev.Generate? && Enabled(x, ev)
    ensures Skipping(Next(x, ev), h, s0, s)
  {
    hide Exchange, Above, FilesAdded, RestartsWell, ReadsWell;
    var y, e := Next(x, ev), LogEntry(x.queue.newId, ev.name, ev.timestamp, ev.kind, ev.value);
    var news := NewSince(x, h);
    assert NewSince(y, h) == news + [e];
    AboveSnoc(news, e, s0);
    var c := Continued(h, s0, news);
    ExchangeInRange(x, c, s);
    assert h[..s0] + (Above(news, s0) + [e]) == c + [e];
    var c' := ExchangeGrows(x, c, s, ev);
  }

  lemma SkippingSame(x: Sys, y: Sys, h: seq<LogEntry>, s0: U64, s: U64, s': U64)
    requires Skipping(x, h, s0, s) && y.history == x.history && y.queue.newId == x.queue.newId && s <= s'
    requires Exchange(y, Continued(h, s0, NewSince(x, h)), s')
    ensures Skipping(y, h, s0, s')
  {
    hide Exchange, Above;
  }

  lemma SkippingStep(x: Sys, h: seq<LogEntry>, s0: U64, s: U64, ev: Event) returns (s': U64)
    requires Skipping(x, h, s0, s) && Enabled(x, ev) && !ev.Restart?
    ensures Skipping(Next(x, ev), h, s0, s') && s <= s'
  {
    hide Exchange, Above, Generated, Sent, ServerGot, ClientGot, ReadsWell, TextSafe, Continued, NewSince,
         FilesAcked, Acked;
    s' := s;
    var c, y := Continued(h, s0, NewSince(x, h)), Next(x, ev);
    match ev
    case Generate(_, _, _, _, _) => SkippingGrows(x, h, s0, s, ev);
    case Send =>
      ExchangeSends(x, c, s);
      StepSame(x, ev);
      SkippingSame(x, y, h, s0, s, s);
    case DeliverBatch(p, stale, access) =>
      s' := ExchangeDelivers(x, c, s, p, stale, access);
      StepSame(x, ev);
      SkippingSame(x, y, h, s0, s, s');
    case DeliverAck(p, stale, ackWritten) =>
      var id := ExchangeAcked(x, c, s, p, stale, ackWritten);
      StepSame(x, ev);
      SkippingSame(x, y, h, s0, s, s);
    case LoseBatch(p) =>
      ExchangeLoses(x, c, s, {p}, {});
      SkippingSame(x, y, h, s0, s, s);
    case LoseAck(p) =>
      ExchangeLoses(x, c, s, {}, {p});
      SkippingSame(x, y, h, s0, s, s);
  }

  lemma StepSame(x: Sys, ev: Event)
    requires !ev.Generate? && !ev.Restart?
    ensures Next(x, ev).history == x.history && Next(x, ev).queue.newId == x.queue.newId
  {
    hide Handle, AckIdOf, LogMessage;
  }

  lemma ExchangeLoses(x: Sys, c: seq<LogEntry>, s: U64, ps: set<seq<Byte>>, acks: set<seq<Byte>>)
    requires Exchange(x, c, s)
    ensures Exchange(x.(toServer := x.toServer - ps), c, s) && Exchange(x.(toClient := x.toClient - acks), c, s)
  {
    hide QueueHolds, IsBatch, IsAck, Lines;
  }

  lemma {:induction false} SkippingRun(x: Sys, h: seq<LogEntry>, s0: U64, s: U64, evs: seq<Event>) returns (s': U64)
    requires Skipping(x, h, s0, s) && Possible(x, evs) && NoRestart(evs)
    ensures Skipping(After(x, evs), h, s0, s') && s <= s'
    decreases evs
  {
    hide Skipping, Next, Enabled;
    s' := s;
    if evs != [] {
      s' := SkippingStep(x, h, s0, s, evs[0]);
      s' := SkippingRun(Next(x, evs[0]), h, s0, s', evs[1..]);
    }
  }

  /** After a restart that reads back nothing past the server's number s, with
      nothing past s under way, every run without another restart leaves the server
      with the entries up to s followed by new entries with numbers past s only;
      above what it has, the queue holds exactly the rest of those. */
  lemma NewNumbersSkipped(x: Sys, m: Marks, disk: Disk, stale: Stale, evs: seq<Event>) returns (s': U64)
    requires Inv(x, m) && NothingPast(x, disk, stale, m.s)
    requires Possible(Restarted(x, disk, stale), evs) && NoRestart(evs)
    ensures var y := After(Restarted(x, disk, stale), evs);
            var c := Continued(x.history, m.s, NewSince(y, x.history));
            && x.history <= y.history
            && m.s <= s' <= |c| && ServerHolds(y.server, c[..s'])
            && Above(y.queue.entries, s') == c[s'..]
  {
    hide Inv, Possible, After, Restarted, NothingPast, Continued, NewSince, Above, IsBatch, IsAck, Lines;
    RestartSkips(x, m, disk, stale);
    s' := SkippingRun(Restarted(x, disk, stale), x.history, m.s, m.s, evs);
  }

  // ---- with everything acknowledged

  /** Everything is acknowledged, on disk too, and only the newest ack is under way. */
  ghost predicate AllAcked(x: Sys, m: Marks) {
    && Inv(x, m) && x.history != []
    && m.s == m.a == |x.history|
    && forall p :: p in x.toClient ==> p == AckMessage(|x.history|)
  }

  lemma AllAckedHasNothingPast(x: Sys, m: Marks, disk: Disk, stale: Stale)
    requires AllAcked(x, m)
    ensures NothingPast(x, disk, stale, m.s)
    ensures disk.readAck ==> Opened(x.files, disk, stale) == Queue(|x.history|, [], 1)
  {
    hide Lines, Opened, Exchange, Above, Decimal, AllSafe, Increasing, AckMessage, IsMessage;
    var h := x.history;
    ExchangeInRange(x, h, m.s);
    var f :| LogHas(f, h, m.s, x.gap) && x.files.log.ValueOr([]) == Lines(f);
    AmongIsGood(f, h);
    ReloadedIs(x.files, f, m.a, disk, stale);
    NoneAbove(f, |h|);
    var q := Opened(x.files, disk, stale);
    AboveKeeps(f, q.ackId);
    assert forall i :: 0 <= i < |q.entries| ==> q.entries[i] in f;
    forall p | p in x.toServer
      ensures OldBatch(p, m.s)
    {
      assert IsGenuine(p, h);
      var es :| IsMessage(p, es) && Among(es, h);
      AmongIsGood(es, h);
    }
  }

  ghost predicate AckBetween(p: seq<Byte>, low: nat, s: nat) {
    exists id: U64 :: low <= id <= s && p == AckMessage(id)
  }

  /** A batch of old entries, or of the first new ones, or of new ones past n once
      the server has such. */
  ghost predicate SharpBatch(p: seq<Byte>, news: seq<LogEntry>, n: nat, s: nat) {
    exists es :: IsMessage(p, es) && (AllUpTo(es, n) || es <= news || (s > n && AllOver(es, n)))
  }

  /** The queue holds all the new entries, or none up to n. */
  predicate SharpQueue(q: Queue, news: seq<LogEntry>, n: nat, s: nat) {
    && n <= q.ackId <= s
    && ((q.ackId == n && q.entries == news) || (s > n && AllOver(q.entries, n)))
  }

  predicate Counting(news: seq<LogEntry>, newId: nat) {
    newId == |news| + 1 && forall i :: 0 <= i < |news| ==> news[i].id == i + 1
  }

  /** The client's files: `before` is what the log file held after the restart, and
      if no append has failed since (whole) the new entries follow it. */
  predicate SharpFiles(files: Files, before: seq<LogEntry>, news: seq<LogEntry>, n: nat, s: nat, a: nat, whole: bool) {
    && AllSafe(before) && AllUpTo(before, n) && AllSafe(news)
    && (whole ==> files.log.ValueOr([]) == Lines(before + news))
    && n <= a <= s && AckHolds(files.ack, a)
  }

  ghost predicate Sharp(x: Sys, h: seq<LogEntry>, s: U64, before: seq<LogEntry>, a: nat, whole: bool) {
    && |h| < TWO_64 && Skipping(x, h, |h|, s)
    && Counting(NewSince(x, h), x.queue.newId)
    && SharpQueue(x.queue, NewSince(x, h), |h|, s)
    && SharpFiles(x.files, before, NewSince(x, h), |h|, s, a, whole)
    && (|h| >= BATCH ==> s == |h|)
    && (forall p :: p in x.toServer ==> SharpBatch(p, NewSince(x, h), |h|, s))
    && (forall p :: p in x.toClient ==> AckBetween(p, |h|, s))
  }

  /** What a restart leaves in the log file. */
  lemma LogLeft(files: Files, f: seq<LogEntry>, h: seq<LogEntry>, a: U64, disk: Disk, stale: Stale)
    returns (f': seq<LogEntry>)
    requires files.log.ValueOr([]) == Lines(f) && AllSafe(f) && Among(f, h) && AckHolds(files.ack, a)
    ensures Destroyed(Opened(files, disk, stale), FilesOpened(files, disk), disk).log.ValueOr([]) == Lines(f')
    ensures Among(f', h)
  {
    hide Lines, Opened, Above, AllSafe, Decimal, Among;
    ReloadedIs(files, f, a, disk, stale);
    var q, files1 := Opened(files, disk, stale), FilesOpened(files, disk);
    NoLines();
    AmongEmpty(h);
    AmongKeeps(f, h, q.ackId);
    AmongKeeps(q.entries, h, q.ackId);
    f' := if Cleaned(q, files1, disk) != files1 then Above(q.entries, q.ackId)
          else if files1.log == files.log then f else [];
  }

  lemma AmongEmpty(h: seq<LogEntry>)
    ensures Among([], h)
  {
  }

  lemma RestartSharp(x: Sys, m: Marks, disk: Disk, stale: Stale) returns (before: seq<LogEntry>)
    requires AllAcked(x, m) && disk.readAck
    ensures Sharp(Restarted(x, disk, stale), x.history, |x.history|, before, |x.history|, true)
  {
    hide Lines, Opened, FilesOpened, Exchange, Skipping, AckMessage, Decimal, Cleaned, IsMessage, Genuine, LogHas;
    var h, y := x.history, Restarted(x, disk, stale);
    AllAckedHasNothingPast(x, m, disk, stale);
    RestartSkips(x, m, disk, stale);
    before := BeforeOf(x, m, disk, stale);
    assert before + [] == before && NewSince(y, h) == [];
    AckLeft(x.files, m.a, disk, stale);
    hide Destroyed, AckHolds;
    forall p | p in x.toServer
      ensures SharpBatch(p, [], |h|, |h|)
    {
      assert OldBatch(p, m.s);
    }
  }

  lemma BeforeOf(x: Sys, m: Marks, disk: Disk, stale: Stale) returns (before: seq<LogEntry>)
    requires Inv(x, m)
    ensures Restarted(x, disk, stale).files.log.ValueOr([]) == Lines(before)
    ensures AllSafe(before) && AllUpTo(before, |x.history|)
  {
    hide Lines, Opened, FilesOpened, Destroyed, Exchange, Genuine, Above, Increasing, AckHolds;
    var h := x.history;
    ExchangeInRange(x, h, m.s);
    var f :| LogHas(f, h, m.s, x.gap) && x.files.log.ValueOr([]) == Lines(f);
    AmongIsGood(f, h);
    before := LogLeft(x.files, f, h, m.a, disk, stale);
    AmongIsGood(before, h);
  }

  lemma AckLeft(files: Files, a: U64, disk: Disk, stale: Stale)
    requires AckHolds(files.ack, a) && a > 0 && disk.readAck
    ensures AckHolds(Destroyed(Opened(files, disk, stale), FilesOpened(files, disk), disk).ack, a)
  {
    hide Decimal, Lines, Loaded, ExtractU64;
    StoredAckIs(files, a, disk, stale);
  }

  lemma SharpGrows(x: Sys, h: seq<LogEntry>, s: U64, before: seq<LogEntry>, a: nat, whole: bool, ev: Event)
    requires Sharp(x, h, s, before, a, whole) && ev.Generate? && Enabled(x, ev)
    ensures Sharp(Next(x, ev), h, s, before, a, whole && ev.written)
  {
    hide Skipping, Lines, TextLine, TextSafe, AckBetween, AckHolds, SharpBatch, RestartsWell, ReadsWell;
    var y, e := Next(x, ev), LogEntry(x.queue.newId, ev.name, ev.timestamp, ev.kind, ev.value);
    var news := NewSince(x, h);
    SkippingGrows(x, h, |h|, s, ev);
    SkippingBounds(x, h, |h|, s);
    assert NewSince(y, h) == news + [e];
    assert before + (news + [e]) == before + news + [e];
    LinesSnoc(before + news, e);
    forall p | p in x.toServer
      ensures SharpBatch(p, news + [e], |h|, s)
    {
      SharpBatchLater(p, news, [e], |h|, s, s);
    }
  }

  lemma SkippingBounds(x: Sys, h: seq<LogEntry>, s0: U64, s: U64)
    requires Skipping(x, h, s0, s)
    ensures h <= x.history && s0 <= |h| && s0 <= s <= Max(s0, x.queue.newId - 1) < TWO_64 - 1
  {
    hide Exchange, Above;
    ExchangeInRange(x, Continued(h, s0, NewSince(x, h)), s);
  }

  lemma SharpBatchLater(p: seq<Byte>, news: seq<LogEntry>, more: seq<LogEntry>, n: nat, s: nat, s': nat)
    requires SharpBatch(p, news, n, s) && s <= s'
    ensures SharpBatch(p, news + more, n, s')
  {
    hide IsMessage;
    var es :| IsMessage(p, es) && (AllUpTo(es, n) || es <= news || (s > n && AllOver(es, n)));
    assert es <= news ==> es <= news + more;
  }

  lemma SharpSends(x: Sys, h: seq<LogEntry>, s: U64, before: seq<LogEntry>, a: nat, whole: bool)
    requires Sharp(x, h, s, before, a, whole)
    ensures Sharp(Sent(x), h, s, before, a, whole)
  {
    hide Exchange, Lines, LogMessage, AckBetween, SharpFiles, Continued, NewSince, IsMessage, QueueHolds, Batch;
    var news, batch := NewSince(x, h), Batch(x.queue, BATCH);
    ExchangeSends(x, Continued(h, |h|, news), s);
    HeadOf(x, Continued(h, |h|, news), s, news, |h|);
    assert SharpBatch(LogMessage(batch), news, |h|, s);
    hide SharpBatch;
    SentSame(x, h);
  }

  lemma SentSame(x: Sys, h: seq<LogEntry>)
    ensures var y := Sent(x);
            && y.queue == x.queue && y.files == x.files && y.toClient == x.toClient
            && y.history == x.history && NewSince(y, h) == NewSince(x, h)
            && y.toServer <= x.toServer + {LogMessage(Batch(x.queue, BATCH))}
  {
  }

  lemma HeadOf(x: Sys, c: seq<LogEntry>, s: U64, news: seq<LogEntry>, n: nat)
    requires Exchange(x, c, s) && SharpQueue(x.queue, news, n, s)
    ensures var batch := Batch(x.queue, BATCH);
            IsMessage(LogMessage(batch), batch) && (batch <= news || (s > n && AllOver(batch, n)))
  {
    hide Lines, LogMessage, IsBatch, IsAck;
    HeadIsBatch(x.queue, c, s);
  }

  /** What a batch under way can hold past n, when n is at least a batch. */
  lemma SharpUpTo(es: seq<LogEntry>, news: seq<LogEntry>, n: nat, newId: nat)
    requires Counting(news, newId) && |es| <= n && es <= news
    ensures AllUpTo(es, n)
  {
  }

  lemma SharpDelivers(x: Sys, h: seq<LogEntry>, s: U64, before: seq<LogEntry>, a: nat, whole: bool,
                      p: seq<Byte>, stale: Stale, access: Access) returns (s': U64)
    requires Sharp(x, h, s, before, a, whole) && p in x.toServer
    requires access.canAppend ==> access.canRead
    ensures Sharp(ServerGot(x, p, stale, access), h, s', before, a, whole)
  {
    hide Exchange, Lines, LogMessage, AckMessage, Handle, AckHolds, AllSafe, Continued, NewSince, IsMessage, Above;
    s' := s;
    if !access.canAppend {
      RefusedWhenClosed(x, p, stale, access);
    } else {
      var n, news := |h|, NewSince(x, h);
      var c := Continued(h, n, news);
      var es :| IsMessage(p, es) && (AllUpTo(es, n) || es <= news || (s > n && AllOver(es, n)));
      s' := SharpDelivered(x, c, s, p, es, stale, access);
      if n >= BATCH {
        MessageSize(p, es);
        if es <= news {
          SharpUpTo(es, news, n, x.queue.newId);
        }
        NoneAbove(es, s);
      }
      SharpServer(x, h, s, s', before, a, whole, Some(Lines(c[..s'])));
    }
  }

  lemma MessageSize(p: seq<Byte>, es: seq<LogEntry>)
    requires IsMessage(p, es)
    ensures |es| <= BATCH
  {
  }

  lemma SharpDelivered(x: Sys, c: seq<LogEntry>, s: U64, p: seq<Byte>, es: seq<LogEntry>, stale: Stale, access: Access)
    returns (s': U64)
    requires Exchange(x, c, s) && p in x.toServer && IsMessage(p, es) && access == FULL
    ensures s' == s + |Above(es, s)| <= |c|
    ensures Handle(x.server, p, stale, access) == Outcome(Some(Lines(c[..s'])), Some(AckMessage(s')))
    ensures Exchange(ServerGot(x, p, stale, access), c, s')
  {
    hide Lines, LogMessage, AckMessage, Handle, QueueHolds, GoodHistory, GoesOn, IsAck, Above;
    assert IsBatch(p, c, s);
    var es1 :| IsMessage(p, es1) && GoesOn(es1, c, s);
    MessageUnique(p, es, es1, stale);
    InRange(x.queue, c, s);
    var k, reply := BatchDelivered(c, x.server, s, es, stale, access);
    NumbersFit(c, k);
    s' := k;
    ServerAdvances(x, c, s, s', Some(Lines(c[..s'])), s');
  }

  /** The rest of the invariant when the server's number goes up. */
  lemma SharpServer(x: Sys, h: seq<LogEntry>, s: U64, s': U64, before: seq<LogEntry>, a: nat, whole: bool, server: File)
    requires Sharp(x, h, s, before, a, whole) && s <= s' && (|h| >= BATCH ==> s' == s)
    requires Exchange(x.(server := server, toClient := x.toClient + {AckMessage(s')}),
                      Continued(h, |h|, NewSince(x, h)), s')
    ensures Sharp(x.(server := server, toClient := x.toClient + {AckMessage(s')}), h, s', before, a, whole)
  {
    hide Exchange, Lines, AckMessage, AckHolds, AllSafe, Continued, SharpBatch;
    var y := x.(server := server, toClient := x.toClient + {AckMessage(s')});
    assert NewSince(y, h) == NewSince(x, h);
    assert AckBetween(AckMessage(s'), |h|, s');
    forall p | p in x.toServer
      ensures SharpBatch(p, NewSince(x, h), |h|, s')
    {
      assert NewSince(x, h) + [] == NewSince(x, h);
      SharpBatchLater(p, NewSince(x, h), [], |h|, s, s');
    }
    AcksBetweenLater(x.toClient, |h|, s, s');
    hide AckBetween, NewSince;
  }

  lemma AcksBetweenLater(acks: set<seq<Byte>>, low: nat, s: nat, s': nat)
    requires s <= s' && forall p :: p in acks ==> AckBetween(p, low, s)
    ensures forall p :: p in acks ==> AckBetween(p, low, s')
  {
    hide AckMessage;
  }

  lemma SharpAcked(x: Sys, h: seq<LogEntry>, s: U64, before: seq<LogEntry>, a: nat, whole: bool,
                   p: seq<Byte>, stale: Stale, ackWritten: bool) returns (a': nat)
    requires Sharp(x, h, s, before, a, whole) && p in x.toClient
    ensures Sharp(ClientGot(x, p, stale, ackWritten), h, s, before, a', whole)
  {
    hide Exchange, Lines, AckMessage, AckIdOf, AllSafe, Continued, SharpBatch, Popped, Above, Decimal, QueueHolds;
    var n, c := |h|, Continued(h, |h|, NewSince(x, h));
    assert AckBetween(p, n, s);
    var id: U64 :| n <= id <= s && p == AckMessage(id);
    AckBack(id, stale);
    var id1 := ExchangeAcked(x, c, s, p, stale, ackWritten);
    AckBack(id1, stale);
    QueueOf(x, c, s);
    QueueAcked(x.queue, c, s, id);
    AboveKeeps(x.queue.entries, id);
    if id != x.queue.ackId {
      SharpPopped(x.queue, NewSince(x, h), n, s, id);
    }
    a' := if id == x.queue.ackId || !ackWritten then a else id;
    var y := ClientGot(x, p, stale, ackWritten);
    assert NewSince(y, h) == NewSince(x, h);
    hide AckBetween, NewSince, AllOver;
  }

  lemma SharpPopped(q: Queue, news: seq<LogEntry>, n: nat, s: U64, id: U64)
    requires SharpQueue(q, news, n, s) && n <= id <= s && id != q.ackId
    ensures SharpQueue(Queue(id, Above(q.entries, id), q.newId), news, n, s)
  {
    AboveKeeps(q.entries, id);
    hide Above;
  }

  lemma SharpLoses(x: Sys, h: seq<LogEntry>, s: U64, before: seq<LogEntry>, a: nat, whole: bool, ev: Event)
    requires Sharp(x, h, s, before, a, whole) && (ev.LoseBatch? || ev.LoseAck?)
    ensures Sharp(Next(x, ev), h, s, before, a, whole)
  {
    hide Exchange, Lines, AckMessage, SharpFiles, SharpQueue, Counting, Continued, SharpBatch, AckBetween;
    var c := Continued(h, |h|, NewSince(x, h));
    ExchangeLoses(x, c, s, if ev.LoseBatch? then {ev.payload} else {}, if ev.LoseAck? then {ev.payload} else {});
    assert NewSince(Next(x, ev), h) == NewSince(x, h);
  }

  lemma SharpStep(x: Sys, h: seq<LogEntry>, s: U64, before: seq<LogEntry>, a: nat, whole: bool, ev: Event)
    returns (s': U64, a': nat)
    requires Sharp(x, h, s, before, a, whole) && Enabled(x, ev) && !ev.Restart? && ReadsFile(ev)
    ensures Sharp(Next(x, ev), h, s', before, a', whole && Written(ev))
  {
    hide Sharp, Generated, Sent, ServerGot, ClientGot, ReadsWell;
    s', a' := s, a;
    match ev
    case Generate(_, _, _, _, _) => SharpGrows(x, h, s, before, a, whole, ev);
    case Send => SharpSends(x, h, s, before, a, whole);
    case DeliverBatch(p, stale, access) => s' := SharpDelivers(x, h, s, before, a, whole, p, stale, access);
    case DeliverAck(p, stale, ackWritten) => a' := SharpAcked(x, h, s, before, a, whole, p, stale, ackWritten);
    case LoseBatch(_) => SharpLoses(x, h, s, before, a, whole, ev);
    case LoseAck(_) => SharpLoses(x, h, s, before, a, whole, ev);
  }

  predicate Written(ev: Event) {
    ev.Generate? ==> ev.written
  }

  predicate AllWritten(evs: seq<Event>) {
    forall i :: 0 <= i < |evs| ==> Written(evs[i])
  }

  lemma {:induction false} SharpRun(x: Sys, h: seq<LogEntry>, s: U64, before: seq<LogEntry>, a: nat, whole: bool,
                                    evs: seq<Event>) returns (s': U64, a': nat)
    requires Sharp(x, h, s, before, a, whole) && Possible(x, evs) && NoRestart(evs) && ServerReads(evs)
    ensures Sharp(After(x, evs), h, s', before, a', whole && AllWritten(evs))
    decreases evs
  {
    hide Sharp, Next, Enabled, Written, ReadsFile;
    s', a' := s, a;
    if evs != [] {
      s', a' := SharpStep(x, h, s, before, a, whole, evs[0]);
      s', a' := SharpRun(Next(x, evs[0]), h, s', before, a', whole && Written(evs[0]), evs[1..]);
      assert AllWritten(evs) <==> Written(evs[0]) && AllWritten(evs[1..]) by {
        assert evs == [evs[0]] + evs[1..];
      }
    }
  }

  /** With everything acknowledged and the ack file read, as long as the server reads
      its file: the queue holds all new entries, or none with an old number, which is
      so once an ack got past |h|; the server gets only those past |h|; a reload
      yields only those past the stored ack, all of them if every append succeeded.
      A full batch of old entries stops everything. */
  lemma LostAfterRestart(x: Sys, m: Marks, disk: Disk, stale: Stale, evs: seq<Event>, nextDisk: Disk, next: Stale)
    returns (s': U64, a': U64)
    requires AllAcked(x, m) && disk.readAck
    requires Possible(Restarted(x, disk, stale), evs) && NoRestart(evs) && ServerReads(evs)
    ensures var h, y := x.history, After(Restarted(x, disk, stale), evs);
            var news := NewSince(y, h);
            && h <= y.history
            && |h| <= s' <= |Continued(h, |h|, news)| && ServerHolds(y.server, Continued(h, |h|, news)[..s'])
            && (y.queue.entries == news || AllOver(y.queue.entries, |h|))
            && (y.queue.ackId > |h| ==> AllOver(y.queue.entries, |h|))
            && (|h| >= BATCH ==> s' == |h| && y.queue.entries == news)
            && |h| <= a' <= s'
            && (nextDisk.readAck ==> AllOver(Opened(y.files, nextDisk, next).entries, a'))
            && (nextDisk.readAck && nextDisk.readLog && AllWritten(evs)
                ==> Opened(y.files, nextDisk, next).entries == Above(news, a'))
  {
    hide AllAcked, Possible, After, Restarted, Continued, NewSince, Opened, AllWritten, Sharp, ServerHolds;
    var h := x.history;
    HistoryFits(x, m);
    var before := RestartSharp(x, m, disk, stale);
    var a;
    s', a := SharpRun(Restarted(x, disk, stale), h, |h|, before, |h|, true, evs);
    var y := After(Restarted(x, disk, stale), evs);
    SharpMeans(y, h, s', before, a, AllWritten(evs));
    a' := a;
    SharpReload(y, h, s', before, a', AllWritten(evs), nextDisk, next);
  }

  lemma HistoryFits(x: Sys, m: Marks)
    requires AllAcked(x, m)
    ensures |x.history| < TWO_64 && m.s == |x.history|
  {
  }

  lemma SharpMeans(y: Sys, h: seq<LogEntry>, s: U64, before: seq<LogEntry>, a: nat, whole: bool)
    requires Sharp(y, h, s, before, a, whole)
    ensures var news := NewSince(y, h);
            && h <= y.history && |h| < TWO_64
            && |h| <= s <= |Continued(h, |h|, news)| && ServerHolds(y.server, Continued(h, |h|, news)[..s])
            && (y.queue.entries == news || AllOver(y.queue.entries, |h|))
            && (y.queue.ackId > |h| ==> AllOver(y.queue.entries, |h|))
            && (|h| >= BATCH ==> s == |h| && y.queue.entries == news)
            && |h| <= a <= s
  {
    hide Lines, QueueHolds, GoodHistory, IsBatch, SharpBatch, IsAck, AckBetween, Continued, NewSince, Counting;
    InRange(y.queue, Continued(h, |h|, NewSince(y, h)), s);
  }

  lemma SharpReload(y: Sys, h: seq<LogEntry>, s: U64, before: seq<LogEntry>, a: U64, whole: bool,
                    disk: Disk, stale: Stale)
    requires Sharp(y, h, s, before, a, whole)
    ensures disk.readAck ==> AllOver(Opened(y.files, disk, stale).entries, a)
    ensures disk.readAck && disk.readLog && whole ==> Opened(y.files, disk, stale).entries == Above(NewSince(y, h), a)
  {
    hide Lines, Opened, Skipping, SharpBatch, AckBetween, Decimal, TextSafe, Above, NewSince, Loaded;
    var news := NewSince(y, h);
    ReloadedAbove(y.files, a, disk, stale);
    if whole {
      ReloadedIs(y.files, before + news, a, disk, stale);
      AboveConcat(before, news, a);
      NoneAbove(before, a);
      assert [] + Above(news, a) == Above(news, a);
    }
  }

  /** Whatever a log file holds, nothing up to the stored ack is reloaded. */
  lemma ReloadedAbove(files: Files, a: U64, disk: Disk, stale: Stale)
    requires AckHolds(files.ack, a)
    ensures disk.readAck ==> AllOver(Opened(files, disk, stale).entries, a)
  {
    hide Decimal, Loaded;
    StoredAckIs(files, a, disk, stale);
    if disk.readAck && files.log != None {
      LoadedAbove(Fresh(files.log.value), a, stale);
    }
  }

  lemma {:induction false} LoadedAbove(inp: Input, a: U64, stale: Stale)
    ensures AllOver(Loaded(inp, a, stale), a)
    decreases |inp.rest|, inp.good
  {
    hide ParseLine;
    if inp.good {
      LoadedStep([], inp, a, stale);
      LoadedAbove(ParseLine(inp, stale.entry, stale.kind).next, a, stale);
    }
  }

  /** With at least a batch of acknowledged entries such a restart is fatal: no run
      without another one adds to the server's file, every new entry stays queued. */
  lemma DeadAfterRestart(x: Sys, m: Marks, disk: Disk, stale: Stale, evs: seq<Event>)
    requires AllAcked(x, m) && disk.readAck && |x.history| >= BATCH
    requires Possible(Restarted(x, disk, stale), evs) && NoRestart(evs) && ServerReads(evs)
    ensures var y := After(Restarted(x, disk, stale), evs);
            && y.server == Some(Lines(x.history))
            && x.history <= y.history && y.queue.entries == y.history[|x.history|..]
  {
    hide Possible, After, Restarted, Lines, AllAcked, Opened, Above;
    HistoryFits(x, m);
    NotEmpty(x, m);
    var s', a' := LostAfterRestart(x, m, disk, stale, evs, disk, stale);
    var y := After(Restarted(x, disk, stale), evs);
    assert Continued(x.history, |x.history|, NewSince(y, x.history))[..|x.history|] == x.history;
  }

  lemma NotEmpty(x: Sys, m: Marks)
    requires AllAcked(x, m)
    ensures x.history != []
  {
  }

  /** With an ack file that could not be read the client is not stuck: the first ack
      of the server's number drops all that the server is past, and the queue is
      exactly what the server is going to take. */
  lemma FirstAckUnblocks(x: Sys, h: seq<LogEntry>, s0: U64, s: U64, stale: Stale, ackWritten: bool)
    requires Skipping(x, h, s0, s) && AckMessage(s) in x.toClient && x.queue.ackId != s
    ensures ClientGot(x, AckMessage(s), stale, ackWritten).queue.entries == Continued(h, s0, NewSince(x, h))[s..]
  {
    hide Lines, AckMessage, AckIdOf, Above, Popped, Continued, NewSince, IsBatch, IsAck, Decimal;
    var c := Continued(h, s0, NewSince(x, h));
    AckBack(s, stale);
    QueueAcked(x.queue, c, s, s);
  }

  // ---- the two cases are exact

  predicate Plain(es: seq<LogEntry>) {
    forall i :: 0 <= i < |es| ==> es[i].name == []
  }

  lemma {:induction false} PlainSize(es: seq<LogEntry>)
    requires Plain(es)
    ensures |EncodeAll(es)| == 32 * |es|
  {
    hide EncodeEntry;
    if es != [] {
      PlainEntry(es[0]);
      PlainSize(es[1..]);
    }
  }

  lemma PlainEntry(e: LogEntry)
    requires e.name == []
    ensures |EncodeEntry(e)| == 32
  {
  }

  lemma PlainFits(x: Sys)
    requires Plain(x.queue.entries)
    ensures Enabled(x, Send)
  {
    hide EncodeAll, Batch;
    BatchIsPlain(x.queue);
    PlainSize(Batch(x.queue, BATCH));
  }

  lemma BatchIsPlain(q: Queue)
    requires Plain(q.entries)
    ensures Plain(Batch(q, BATCH)) && |Batch(q, BATCH)| <= BATCH
  {
  }

  const PLAIN := Generate([], 0, 0, 0, true)

  /** Logging k entries more. */
  lemma {:induction false} Refill(x: Sys, h: seq<LogEntry>, s0: U64, s: U64, k: nat) returns (evs: seq<Event>)
    requires Skipping(x, h, s0, s) && x.queue.newId + k < TWO_64 - 1 && Plain(x.queue.entries)
    ensures Possible(x, evs) && NoRestart(evs) && ServerReads(evs)
    ensures var y := After(x, evs);
            && Skipping(y, h, s0, s) && Plain(y.queue.entries)
            && y.queue.newId == x.queue.newId + k && |y.queue.entries| == |x.queue.entries| + k
            && y.server == x.server
    decreases k
  {
    hide Skipping, Generated, Enabled;
    if k == 0 {
      evs := [];
    } else {
      PlainGoes(x);
      SkippingGrows(x, h, s0, s, PLAIN);
      var more := Refill(Next(x, PLAIN), h, s0, s, k - 1);
      evs := [PLAIN] + more;
      assert evs[1..] == more;
    }
  }

  lemma PlainGoes(x: Sys)
    requires x.queue.newId < TWO_64 - 1 && Plain(x.queue.entries)
    ensures Enabled(x, PLAIN)
    ensures var y := Next(x, PLAIN);
            && y.queue.newId == x.queue.newId + 1 && |y.queue.entries| == |x.queue.entries| + 1
            && Plain(y.queue.entries) && y.server == x.server
  {
    hide RestartsWell, ReadsWell, LogMessage, FilesAdded;
  }

  /** With everything acknowledged and the files read, the server's file can grow
      again without another restart if and only if fewer than a batch of entries
      are acknowledged. */
  lemma GrowsAgainIff(x: Sys, m: Marks, disk: Disk, stale: Stale)
    requires AllAcked(x, m) && disk.readAck
    ensures (exists evs :: NoRestart(evs) && ServerReads(evs) && Possible(Restarted(x, disk, stale), evs)
                           && After(Restarted(x, disk, stale), evs).server != Some(Lines(x.history)))
            <==> |x.history| < BATCH
  {
    hide AllAcked, Possible, After, Restarted, Lines;
    var y := Restarted(x, disk, stale);
    if |x.history| < BATCH {
      var evs := GrowRun(x, m, disk, stale);
    } else {
      forall evs | NoRestart(evs) && ServerReads(evs) && Possible(y, evs)
        ensures After(y, evs).server == Some(Lines(x.history))
      {
        DeadAfterRestart(x, m, disk, stale, evs);
      }
    }
  }

  /** Log until there is one new entry more than old ones, send, deliver. */
  lemma GrowRun(x: Sys, m: Marks, disk: Disk, stale: Stale) returns (evs: seq<Event>)
    requires AllAcked(x, m) && disk.readAck && |x.history| < BATCH
    ensures var y := Restarted(x, disk, stale);
            && NoRestart(evs) && ServerReads(evs) && Possible(y, evs)
            && After(y, evs).server != Some(Lines(x.history))
  {
    hide AllAcked, Possible, After, Lines, Skipping, RoundTrip, Enabled, Opened, NothingPast;
    var h, y, n := x.history, Restarted(x, disk, stale), |x.history|;
    HistoryFits(x, m);
    AllAckedHasNothingPast(x, m, disk, stale);
    AllAckedIsInv(x, m);
    RestartSkips(x, m, disk, stale);
    var fill := Refill(y, h, n, n, n + 1);
    var z := After(y, fill);
    PlainFits(z);
    var trip := RoundTripIsARun(z, stale, stale);
    evs := fill + trip;
    AfterConcat(y, fill, trip);
    TripGrows(z, h, stale);
  }

  lemma AllAckedIsInv(x: Sys, m: Marks)
    requires AllAcked(x, m)
    ensures Inv(x, m)
  {
  }

  lemma TripGrows(z: Sys, h: seq<LogEntry>, stale: Stale)
    requires |h| < BATCH && Skipping(z, h, |h|, |h|) && z.queue.newId == |h| + 2 && |z.queue.entries| == |h| + 1
    ensures RoundTrip(z, stale, stale).server != Some(Lines(h))
  {
    hide Lines, Exchange, RoundTrip, FilesAcked, Acked, Batch, BatchSize, Continued;
    var c := Continued(h, |h|, NewSince(z, h));
    SmallBatch(z.queue);
    ContinuesOld(h, NewSince(z, h));
    var s' := TripExchanges(z, c, |h|, stale, stale);
    LongerPrefix(c, |h|, s');
  }

  lemma SmallBatch(q: Queue)
    requires |q.entries| <= BATCH
    ensures BatchSize(q, BATCH) == |q.entries| && Batch(q, BATCH) == q.entries
  {
  }

  lemma ContinuesOld(h: seq<LogEntry>, news: seq<LogEntry>)
    requires |h| < TWO_64
    ensures |h| <= |Continued(h, |h|, news)| && Continued(h, |h|, news)[..|h|] == h
  {
    hide Above;
  }

  /** The shortest way to the loss: as soon as more new entries than old ones exist,
      one round trip delivers new entries from number |h| + 1 on, and the ack
      discards the first |h|, which no reload brings back. */
  lemma OneTripLoses(x: Sys, h: seq<LogEntry>, before: seq<LogEntry>, a: nat,
                     atServer: Stale, atClient: Stale, disk: Disk, reload: Stale)
    requires |h| < BATCH && Sharp(x, h, |h|, before, a, true) && disk.readAck && disk.readLog
    requires |h| < |NewSince(x, h)| < TWO_32
    ensures var y, news := RoundTrip(x, atServer, atClient), NewSince(x, h);
            var k := Min(BATCH, |news|);
            && y.server == Some(Lines(Continued(h, |h|, news)[..k]))
            && y.queue.entries == Above(news, k)
            && Opened(y.files, disk, reload).entries == Above(news, k)
  {
    hide Lines, Exchange, Above, RoundTrip, Opened, Sharp, Decimal, Popped, Continued, NewSince, AllSafe, AllUpTo,
         Increasing;
    var news := NewSince(x, h);
    var c, k := Continued(h, |h|, news), Min(BATCH, |news|);
    OneTripFrom(x, h, before, a);
    var s' := TripExchanges(x, c, |h|, atServer, atClient);
    PoppedIsAbove(news, k);
    TripReload(x, before, news, |h|, k, RoundTrip(x, atServer, atClient).files, disk, reload);
  }

  lemma OneTripFrom(x: Sys, h: seq<LogEntry>, before: seq<LogEntry>, a: nat)
    requires |h| < TWO_64 && Sharp(x, h, |h|, before, a, true) && |h| < |NewSince(x, h)|
    ensures var news := NewSince(x, h);
            var c := Continued(h, |h|, news);
            && x.queue.entries == news && x.queue.ackId == |h| && Increasing(news)
            && Exchange(x, c, |h|) && |c| == |news|
            && AllSafe(before) && AllUpTo(before, |h|) && AllSafe(news)
            && x.files.log.ValueOr([]) == Lines(before + news)
  {
    hide Lines, Exchange, Above, AckBetween, SharpBatch, Continued, NewSince, AckHolds, TextSafe;
    QueueOf(x, Continued(h, |h|, NewSince(x, h)), |h|);
  }

  lemma TripReload(x: Sys, before: seq<LogEntry>, news: seq<LogEntry>, n: nat, k: U64, files: Files,
                   disk: Disk, reload: Stale)
    requires files.log.ValueOr([]) == Lines(before + news) && files.ack == Some(Decimal(k))
    requires AllSafe(before) && AllSafe(news) && AllUpTo(before, n) && n <= k && disk.readAck && disk.readLog
    ensures Opened(files, disk, reload).entries == Above(news, k)
  {
    hide Lines, Opened, Above, Decimal, TextSafe;
    ReloadedIs(files, before + news, k, disk, reload);
    AboveConcat(before, news, k);
    NoneAbove(before, k);
    assert [] + Above(news, k) == Above(news, k);
  }

  // ---- such states are reached

  /** n entries, all delivered and acknowledged, and nothing but the last ack under way. */
  ghost predicate Settled(x: Sys, n: nat) {
    && Inv(x, Marks(n, n)) && |x.history| == n && x.queue.entries == []
    && forall p :: p in x.toClient ==> p == AckMessage(n)
  }

  lemma SettledMore(x: Sys, n: U64, stale: Stale) returns (evs: seq<Event>)
    requires Settled(x, n) && n < TWO_64 - 2
    ensures Possible(x, evs) && Settled(After(x, evs), n + 1)
  {
    hide Settled, Possible, After, RoundTrip, Enabled;
    var y, lose := Next(x, PLAIN), LoseAck(AckMessage(n));
    SettledLogs(x, n);
    PlainFits(y);
    var trip := RoundTripIsARun(y, stale, stale);
    SettledTrips(x, n, stale);
    evs := [PLAIN] + trip + [lose];
    AfterOne(x, PLAIN);
    AfterConcat(x, [PLAIN], trip);
    AfterConcat(x, [PLAIN] + trip, [lose]);
    AfterOne(RoundTrip(y, stale, stale), lose);
    AlwaysLoses(RoundTrip(y, stale, stale), AckMessage(n));
  }

  lemma AlwaysLoses(x: Sys, p: seq<Byte>)
    ensures Enabled(x, LoseAck(p))
  {
  }

  lemma SettledLogs(x: Sys, n: U64)
    requires Settled(x, n) && n < TWO_64 - 2
    ensures Enabled(x, PLAIN) && Inv(Next(x, PLAIN), Marks(n, n)) && Plain(Next(x, PLAIN).queue.entries)
    ensures |Next(x, PLAIN).queue.entries| == 1
  {
    hide Inv, AckMessage, Generated;
    NewIdOf(x, Marks(n, n));
    PlainGoes(x);
    GenerateKeeps(x, Marks(n, n), PLAIN);
  }

  lemma SettledTrips(x: Sys, n: U64, stale: Stale)
    requires Settled(x, n) && n < TWO_64 - 2
    ensures Settled(Next(RoundTrip(Next(x, PLAIN), stale, stale), LoseAck(AckMessage(n))), n + 1)
  {
    hide Inv, AckMessage, LogMessage, Handle, RoundTrip, Next, Enabled, Batch, BatchSize, Acked, FilesAcked,
         Lines, Exchange;
    var y := Next(x, PLAIN);
    SettledLogs(x, n);
    HistoryMore(x);
    SmallBatch(y.queue);
    var m' := RoundTripMoves(y, Marks(n, n), stale, stale);
    var z := RoundTrip(y, stale, stale);
    InvParts(y, Marks(n, n));
    var s' := TripExchanges(y, y.history, n, stale, stale);
    LossKeeps(z, m', {}, {AckMessage(n)});
    LoseIs(z, AckMessage(n));
  }

  lemma LoseIs(x: Sys, p: seq<Byte>)
    ensures Next(x, LoseAck(p)) == x.(toClient := x.toClient - {p})
  {
  }

  lemma HistoryMore(x: Sys)
    ensures var y := Next(x, PLAIN);
            && |y.history| == |x.history| + 1 && y.toClient == x.toClient
            && y.queue.entries == x.queue.entries + [y.history[|x.history|]]
  {
    hide FilesAdded;
  }

  lemma NewIdOf(x: Sys, m: Marks)
    requires Inv(x, m)
    ensures x.queue.newId == |x.history| + 1
  {
  }

  lemma {:induction false} SettledReached(disk: Disk, stale: Stale, n: nat) returns (evs: seq<Event>)
    requires n < TWO_64 - 1
    ensures Possible(Start(disk, stale), evs) && Settled(After(Start(disk, stale), evs), n)
  {
    hide Settled, Possible, After;
    if n == 0 {
      evs := [];
      StartIsSettled(disk, stale);
    } else {
      var init := SettledReached(disk, stale, n - 1);
      var more := SettledMore(After(Start(disk, stale), init), n - 1, stale);
      evs := init + more;
      AfterConcat(Start(disk, stale), init, more);
    }
  }

  lemma StartIsSettled(disk: Disk, stale: Stale)
    ensures Possible(Start(disk, stale), []) && After(Start(disk, stale), []) == Start(disk, stale)
    ensures Settled(Start(disk, stale), 0)
  {
    hide Inv;
    StartIsGood(disk, stale);
  }

  /** For any number of entries, a run from the first start ends with all of them
      acknowledged, so that the next restart is one of these. */
  lemma AllAckedIsReached(disk: Disk, stale: Stale, n: nat) returns (evs: seq<Event>)
    requires 0 < n < TWO_64 - 1
    ensures var x := After(Start(disk, stale), evs);
            Possible(Start(disk, stale), evs) && AllAcked(x, Marks(n, n)) && |x.history| == n
  {
    hide Inv, Possible, After;
    evs := SettledReached(disk, stale, n);
  }
}
