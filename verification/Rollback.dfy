/** A server whose file is cut back, or wiped: what brings the missing entries back. */
module Rollback {
  import opened Bytes
  import opened LogEntries
  import opened LogQueues
  import opened LogServer
  import opened ClientLoggers
  import opened Protocol
  import opened Progress
  import opened Failures

  /** The server's file is cut back to its first k entries, and some acks are lost. */
  ghost predicate CutBack(x: Sys, x': Sys, k: nat) {
    && k <= |x.history|
    && x' == x.(server := x'.server, toClient := x'.toClient)
    && ServerHolds(x'.server, x.history[..k])
    && x'.toClient <= x.toClient
  }

  /** The log file holds every entry from place k on. */
  ghost predicate LogReaches(log: Option<seq<Byte>>, h: seq<LogEntry>, k: nat) {
    exists f :: Among(f, h) && log.ValueOr([]) == Lines(f) && forall i :: k <= i < |h| ==> h[i] in f
  }

  /** All that is under way goes on from the first k entries. */
  ghost predicate WayClear(x: Sys, h: seq<LogEntry>, k: U64) {
    && (forall p :: p in x.toServer ==> IsBatch(p, h, k))
    && (forall p :: p in x.toClient ==> IsAck(p, k))
  }

  /** The log file's content decides what it holds. */
  lemma ReachesIff(files: Files, h: seq<LogEntry>, m: Marks, g: nat, f: seq<LogEntry>, k: nat, stale: Stale)
    requires GoodHistory(h) && LogHas(f, h, m.s, g) && files.log.ValueOr([]) == Lines(f) && k <= |h|
    ensures LogReaches(files.log, h, k) <==> Above(f, k) == h[k..]
    ensures LogReaches(files.log, h, k) ==> g <= k && LogHas(f, h, k, g)
  {
    hide Lines, Above, AllSafe, AllEncodable, Among, Increasing;
    if LogReaches(files.log, h, k) {
      var f1 :| Among(f1, h) && files.log.ValueOr([]) == Lines(f1) && forall i :: k <= i < |h| ==> h[i] in f1;
      AmongIsGood(f, h);
      AmongIsGood(f1, h);
      LinesInjective(f, f1, stale);
      AllReached(f, h, k);
      GapMissing(f, h, g);
      AboveAbove(f, k, Max(k, g));
    }
    if Above(f, k) == h[k..] {
      forall i | k <= i < |h|
        ensures h[i] in f
      {
        InSuffix(h, k, i);
        AboveMember(f, k, h[i]);
      }
    }
  }

  lemma AllReached(f: seq<LogEntry>, h: seq<LogEntry>, k: nat)
    requires GoodHistory(h) && Among(f, h) && Increasing(f) && k <= |h|
    requires forall i :: k <= i < |h| ==> h[i] in f
    ensures Above(f, k) == h[k..]
  {
    hide Above, Among, Increasing;
    AboveKeeps(f, k);
    AmongKeeps(f, h, k);
    forall i | k <= i < |h|
      ensures h[i] in Above(f, k)
    {
      AboveMember(f, k, h[i]);
    }
    WholeSuffix(Above(f, k), h, k);
  }

  lemma GapMissing(f: seq<LogEntry>, h: seq<LogEntry>, g: nat)
    requires Numbered(h) && g <= |h| && !HasNumber(f, g)
    ensures g > 0 ==> h[g - 1] !in f
  {
  }

  // ---- with a restart

  /** Delivering the server's smaller ack and restarting the client: the queue is
      exactly what the server is missing when the log file can be read and still
      holds all of it; and the protocol is whole again exactly when, besides, all
      that is under way goes on from there. */
  lemma HealsIff(x: Sys, m: Marks, x': Sys, k: U64, disk: Disk, atClient: Stale, stale: Stale)
    requires Inv(x, m) && CutBack(x, x', k) && k != x.queue.ackId && k < |x.history|
    ensures var y := Restarted(ClientGot(x', AckMessage(k), atClient, true), disk, stale);
            var whole := disk.readLog && LogReaches(x.files.log, x.history, k);
            && (disk.readAck ==> (y.queue.entries == x.history[k..] <==> whole))
            && ((exists m' :: Inv(y, m')) <==> whole && WayClear(x', x.history, k))
  {
    hide Inv, Lines, LogReaches, WayClear, Restarted;
    var y := Restarted(ClientGot(x', AckMessage(k), atClient, true), disk, stale);
    Reopened(x, m, x', k, disk, atClient, stale);
    if disk.readLog && LogReaches(x.files.log, x.history, k) && WayClear(x', x.history, k) {
      Healed(x, m, x', k, disk, atClient, stale);
    } else {
      forall m' ensures !Inv(y, m') {
        if Inv(y, m') {
          OnlyHealed(x, m, x', k, disk, atClient, stale, m');
        }
      }
    }
  }

  /** The queue after the ack and the restart. */
  lemma Reopened(x: Sys, m: Marks, x': Sys, k: U64, disk: Disk, atClient: Stale, stale: Stale)
    requires Inv(x, m) && CutBack(x, x', k) && k != x.queue.ackId && k < |x.history|
    ensures var q := Restarted(ClientGot(x', AckMessage(k), atClient, true), disk, stale).queue;
            var whole := disk.readLog && LogReaches(x.files.log, x.history, k);
            && (disk.readAck ==> (q.entries == x.history[k..] <==> whole))
            && (whole <==> forall i :: k <= i < |x.history| ==> x.history[i] in q.entries)
  {
    hide Lines, AckMessage, AckIdOf, Exchange, Genuine, Opened, Popped, Above, Decimal, Among, Increasing,
         LogReaches, HasNumber;
    var h := x.history;
    AckBack(k, atClient);
    ExchangeInRange(x, h, m.s);
    var files := ClientGot(x', AckMessage(k), atClient, true).files;
    var f :| LogHas(f, h, m.s, x.gap) && x.files.log.ValueOr([]) == Lines(f);
    AmongIsGood(f, h);
    ReloadedIs(files, f, k, disk, stale);
    ReachesIff(x.files, h, m, x.gap, f, k, stale);
    var q := Opened(files, disk, stale);
    assert h[k] in h[k..] by { InSuffix(h, k, k); }
    if disk.readLog {
      ReadBackIff(f, h, k, q.ackId);
    }
  }

  lemma ReadBackIff(f: seq<LogEntry>, h: seq<LogEntry>, k: nat, a: U64)
    requires GoodHistory(h) && Among(f, h) && Increasing(f) && a <= k <= |h|
    ensures Above(f, k) == h[k..] <==> forall i :: k <= i < |h| ==> h[i] in Above(f, a)
  {
    hide Above, Among, Increasing;
    forall i | k <= i < |h|
      ensures h[i] in Above(f, a) <==> h[i] in f
      ensures Above(f, k) == h[k..] ==> h[i] in f
    {
      AboveMember(f, a, h[i]);
      AboveMember(f, k, h[i]);
      InSuffix(h, k, i);
    }
    if forall i :: k <= i < |h| ==> h[i] in f {
      AllReached(f, h, k);
    }
  }

  lemma Healed(x: Sys, m: Marks, x': Sys, k: U64, disk: Disk, atClient: Stale, stale: Stale)
    requires Inv(x, m) && CutBack(x, x', k) && k != x.queue.ackId && k < |x.history|
    requires disk.readLog && LogReaches(x.files.log, x.history, k) && WayClear(x', x.history, k)
    ensures exists m' :: Inv(Restarted(ClientGot(x', AckMessage(k), atClient, true), disk, stale), m')
  {
    hide Lines, AckMessage, AckIdOf, Exchange, Opened, Popped, Above, Decimal, Among, Increasing, LogReaches,
         IsBatch, IsAck, IsGenuine, Destroyed, FilesOpened, HasNumber;
    var h := x.history;
    AckBack(k, atClient);
    ExchangeInRange(x, h, m.s);
    var z := ClientGot(x', AckMessage(k), atClient, true);
    var f :| LogHas(f, h, m.s, x.gap) && x.files.log.ValueOr([]) == Lines(f);
    AmongIsGood(f, h);
    ReachesIff(x.files, h, m, x.gap, f, k, stale);
    assert FilesHold(z.files, h, Marks(k, k), x.gap);
    var m' := FilesReopened(h, z.files, Marks(k, k), x.gap, disk, stale);
    ReloadedIs(z.files, f, k, disk, stale);
    var q := Opened(z.files, disk, stale);
    LastReached(f, h, k, q.ackId);
    NewestOf(f, h, q);
    QueueReloaded(h, f, k, x.gap, q);
    Reassembled(Restarted(z, disk, stale), h, k);
    assert Inv(Restarted(z, disk, stale), m');
  }

  lemma LastReached(f: seq<LogEntry>, h: seq<LogEntry>, k: nat, a: U64)
    requires Numbered(h) && a <= k < |h| && Above(f, k) == h[k..]
    ensures h[|h| - 1] in Above(f, a)
  {
    hide Above;
    InSuffix(h, k, |h| - 1);
    AboveMember(f, k, h[|h| - 1]);
    AboveMember(f, a, h[|h| - 1]);
  }

  lemma Reassembled(y: Sys, h: seq<LogEntry>, k: U64)
    requires GoodHistory(h) && QueueHolds(y.queue, h, k) && ServerHolds(y.server, h[..k]) && WayClear(y, h, k)
    ensures Exchange(y, h, k)
  {
    hide QueueHolds, IsBatch, IsAck, Lines;
  }

  lemma OnlyHealed(x: Sys, m: Marks, x': Sys, k: U64, disk: Disk, atClient: Stale, stale: Stale, m': Marks)
    requires Inv(x, m) && CutBack(x, x', k) && k != x.queue.ackId && k < |x.history|
    requires Inv(Restarted(ClientGot(x', AckMessage(k), atClient, true), disk, stale), m')
    ensures disk.readLog && LogReaches(x.files.log, x.history, k) && WayClear(x', x.history, k)
  {
    hide Inv, Lines, LogReaches, AckMessage, Restarted, ClientGot;
    var y := Restarted(ClientGot(x', AckMessage(k), atClient, true), disk, stale);
    Reopened(x, m, x', k, disk, atClient, stale);
    RestartedKeeps(x', k, disk, atClient, stale);
    MarkOf(y, m', k);
    forall i | k <= i < |x.history|
      ensures x.history[i] in y.queue.entries
    {
      QueuedIsAbove(y.queue, x.history, k, i);
    }
  }

  lemma RestartedKeeps(x': Sys, k: U64, disk: Disk, atClient: Stale, stale: Stale)
    ensures var y := Restarted(ClientGot(x', AckMessage(k), atClient, true), disk, stale);
            && y.history == x'.history && y.server == x'.server
            && y.toServer == x'.toServer && y.toClient == x'.toClient
  {
    hide AckIdOf, AckMessage, Opened, Destroyed, FilesOpened;
  }

  /** The server's file tells the mark, and so what the invariant says. */
  lemma MarkOf(y: Sys, m': Marks, k: U64)
    requires Inv(y, m') && k <= |y.history| && ServerHolds(y.server, y.history[..k])
    ensures m'.s == k && QueueHolds(y.queue, y.history, k) && WayClear(y, y.history, k)
    ensures FilesHold(y.files, y.history, m', y.gap) && Genuine(y) && GoodHistory(y.history)
  {
    hide QueueHolds, IsBatch, IsAck, Lines, FilesHold, Genuine;
    PrefixIsUnique(y.server, y.history, m'.s, k);
  }

  // ---- without a restart

  /** Without a restart, once the entry after the k-th is neither in the queue nor
      carried by a batch under way, nothing brings it back, however many acks of k
      arrive: over every run the server's file stays as it is. */
  lemma StuckWithoutRestart(x: Sys, m: Marks, x': Sys, k: nat, evs: seq<Event>)
    requires Inv(x, m) && CutBack(x, x', k) && k < |x.history| && x.history[k] !in x.queue.entries
    requires forall p :: p in x'.toServer ==> !Carries(p, k + 1)
    requires Possible(x', evs) && NoRestart(evs)
    ensures var y := After(x', evs);
            && x.history <= y.history
            && y.server.ValueOr([]) == Lines(x.history[..k])
            && x.history[k] !in y.queue.entries && Above(y.queue.entries, m.s) == y.history[m.s..]
  {
    hide Inv, Lines, After, Possible, Carries, Lacks, IsAck, Above, Among;
    CutBackWithholds(x, m, x', k);
    var s', t' := WithheldRun(x', k + 1, k, m.s, evs);
    HistoryGrows(x', evs);
    assert After(x', evs).history[..k] == x.history[..k];
    NoLines();
  }

  lemma CutBackWithholds(x: Sys, m: Marks, x': Sys, k: nat)
    requires Inv(x, m) && CutBack(x, x', k) && k < |x.history| && x.history[k] !in x.queue.entries
    requires forall p :: p in x'.toServer ==> !Carries(p, k + 1)
    ensures k + 1 <= m.s < TWO_64 && Withheld(x', k + 1, k, m.s) && m.s <= |x.history|
  {
    hide Lines, FilesHold, IsBatch, IsAck, IsGenuine, Carries, Above, Lacks, AllSafe, AllEncodable;
    var h := x.history;
    ExchangeInRange(x, h, m.s);
    if m.s <= k {
      QueuedIsAbove(x.queue, h, m.s, k);
    }
    NumberAmong(x.queue.entries, h, k);
    forall p | p in x'.toServer
      ensures Lacks(p, h, k + 1)
    {
      GenuineLacks(p, h, k + 1);
    }
  }

  lemma NumberAmong(es: seq<LogEntry>, h: seq<LogEntry>, k: nat)
    requires k < |h| && Among(es, h) && h[k] !in es
    ensures !HasNumber(es, k + 1)
  {
  }

  /** What a batch under way does that goes on from the k-th entry: the server has
      everything up to the batch's last entry; and the protocol is whole again
      exactly if that is as far as the client has let go, in its queue, its files
      and its acks, and as far as all that is under way goes back. */
  lemma StrayBatchRestores(x: Sys, m: Marks, x': Sys, k: U64, p: seq<Byte>, es: seq<LogEntry>, stale: Stale)
    requires Inv(x, m) && CutBack(x, x', k) && p in x'.toServer && IsMessage(p, es) && GoesOn(es, x.history, k)
    ensures var h, j, y := x.history, k + |Above(es, k)|, ServerGot(x', p, stale, FULL);
            && j <= |h| < TWO_64 && y.server == Some(Lines(h[..j]))
            && ((exists m' :: Inv(y, m'))
                <==> && (forall i :: j <= i < |h| ==> h[i] in x.queue.entries) && x.queue.ackId <= j
                     && m.a <= j && LogReaches(x.files.log, h, Max(j, x.gap))
                     && WayClear(x', h, j))
  {
    hide Lines, LogMessage, AckMessage, Handle, Exchange, Genuine, FilesHold, GoesOn, LogReaches, WayClear,
         Above, IsMessage;
    var h := x.history;
    var j, y := k + |Above(es, k)|, ServerGot(x', p, stale, FULL);
    ExchangeInRange(x, h, m.s);
    InvFiles(x, m);
    StrayDelivered(x, x', k, p, es, stale);
    StrayClear(x', y, h, j);
    if m' :| Inv(y, m') {
      WholeMeans(x, m, y, m', j, stale);
    }
    if (forall i :: j <= i < |h| ==> h[i] in x.queue.entries) && x.queue.ackId <= j
       && m.a <= j && LogReaches(x.files.log, h, Max(j, x.gap)) && WayClear(x', h, j) {
      WholeAgain(x, m, y, j, stale);
    }
  }

  lemma StrayDelivered(x: Sys, x': Sys, k: U64, p: seq<Byte>, es: seq<LogEntry>, stale: Stale)
    requires GoodHistory(x.history) && CutBack(x, x', k) && IsMessage(p, es) && GoesOn(es, x.history, k)
    ensures var j := k + |Above(es, k)|;
            && j <= |x.history| < TWO_64
            && ServerGot(x', p, stale, FULL)
               == x'.(server := Some(Lines(x.history[..j])), toClient := x'.toClient + {AckMessage(j)})
  {
    hide Lines, LogMessage, AckMessage, Handle, Above;
    NumbersFit(x.history, |x.history|);
    var j, reply := BatchDelivered(x.history, x'.server, k, es, stale, FULL);
  }

  lemma StrayClear(x': Sys, y: Sys, h: seq<LogEntry>, j: U64)
    requires y == x'.(server := y.server, toClient := x'.toClient + {AckMessage(j)})
    ensures WayClear(y, h, j) <==> WayClear(x', h, j)
  {
    hide AckMessage, IsBatch;
    assert IsAck(AckMessage(j), j);
  }

  lemma WholeMeans(x: Sys, m: Marks, y: Sys, m': Marks, j: U64, stale: Stale)
    requires Inv(x, m) && Inv(y, m') && y == x.(server := y.server, toClient := y.toClient)
    requires j <= |x.history| && ServerHolds(y.server, x.history[..j])
    ensures forall i :: j <= i < |x.history| ==> x.history[i] in x.queue.entries
    ensures x.queue.ackId <= j && m.a <= j && x.gap <= |x.history| < TWO_64
    ensures LogReaches(x.files.log, x.history, Max(j, x.gap)) && WayClear(y, x.history, j)
  {
    hide Lines, Inv, Above, IsBatch, IsAck, Genuine, LogReaches, Decimal, Among, Increasing, HasNumber, GoodHistory;
    var h := x.history;
    MarkOf(y, m', j);
    InvFiles(x, m);
    SameAck(x.files.ack, m.a, m'.a);
    forall i | j <= i < |h|
      ensures h[i] in x.queue.entries
    {
      QueuedIsAbove(y.queue, h, j, i);
    }
    var f :| LogHas(f, h, j, x.gap) && x.files.log.ValueOr([]) == Lines(f);
    ReachesIff(x.files, h, m', x.gap, f, Max(j, x.gap), stale);
  }

  lemma InvFiles(x: Sys, m: Marks)
    requires Inv(x, m)
    ensures FilesHold(x.files, x.history, m, x.gap) && x.gap <= |x.history| < TWO_64 && GoodHistory(x.history)
    ensures Genuine(x) && QueueHolds(x.queue, x.history, m.s)
  {
    hide QueueHolds, Genuine, LogHas, IsBatch, IsAck, Lines;
    GapInHistory(x.files.log, x.history, m.s, x.gap);
    hide LogHolds;
  }

  lemma GapInHistory(log: Option<seq<Byte>>, h: seq<LogEntry>, s: nat, g: nat)
    requires LogHolds(log, h, s, g)
    ensures g <= |h|
  {
  }

  lemma SameAck(ack: Option<seq<Byte>>, a: nat, b: nat)
    requires AckHolds(ack, a) && AckHolds(ack, b) && a < TWO_64 && b < TWO_64
    ensures a == b
  {
    if ack != None {
      NumberBack(a, 0, TWO_64);
      NumberBack(b, 0, TWO_64);
    }
  }

  lemma WholeAgain(x: Sys, m: Marks, y: Sys, j: U64, stale: Stale)
    requires Inv(x, m) && y == x.(server := y.server, toClient := y.toClient)
    requires j <= |x.history| && ServerHolds(y.server, x.history[..j])
    requires forall i :: j <= i < |x.history| ==> x.history[i] in x.queue.entries
    requires x.queue.ackId <= j && m.a <= j && x.gap <= |x.history| < TWO_64
    requires LogReaches(x.files.log, x.history, Max(j, x.gap)) && WayClear(y, x.history, j)
    ensures Inv(y, Marks(j, m.a))
  {
    hide Lines, Inv, Above, IsBatch, IsAck, IsGenuine, LogReaches, AckHolds, Among, Increasing, HasNumber,
         GoodHistory, WayClear;
    var h := x.history;
    InvFiles(x, m);
    AllReached(x.queue.entries, h, j);
    var f :| LogHas(f, h, m.s, x.gap) && x.files.log.ValueOr([]) == Lines(f);
    ReachesIff(x.files, h, m, x.gap, f, Max(j, x.gap), stale);
    assert LogHas(f, h, j, x.gap);
    QueueFrom(x.queue, h, m.s, j);
    Reassembled(y, h, j);
    InvIs(y, Marks(j, m.a));
  }

  lemma QueueFrom(q: Queue, h: seq<LogEntry>, s: U64, j: U64)
    requires QueueHolds(q, h, s) && q.ackId <= j <= |h| && Above(q.entries, j) == h[j..]
    ensures QueueHolds(q, h, j)
  {
    hide Above;
  }

  /** A batch that carries the next number makes the file longer. */
  lemma {:induction false} NextAccepted(k: U64, es: seq<LogEntry>)
    requires k < TWO_64 - 1 && HasNumber(es, k + 1)
    ensures Accepted(k, es) != []
    decreases es
  {
    if es[0].id != k + 1 {
      assert forall i :: 1 <= i < |es| ==> es[1..][i - 1] == es[i];
      NextAccepted(k, es[1..]);
    }
  }

  /** The condition is exact: with the next entry gone from the queue, the server's
      file stays as it is over all runs without a restart if and only if no batch
      under way carries that entry. */
  lemma StuckIff(x: Sys, m: Marks, x': Sys, k: nat, stale: Stale)
    requires Inv(x, m) && CutBack(x, x', k) && k < |x.history| && x.history[k] !in x.queue.entries
    ensures (forall evs :: Possible(x', evs) && NoRestart(evs)
                           ==> After(x', evs).server.ValueOr([]) == x'.server.ValueOr([]))
            <==> forall p :: p in x'.toServer ==> !Carries(p, k + 1)
  {
    hide Inv, Lines, After, Possible, Carries, CutBack;
    if forall p :: p in x'.toServer ==> !Carries(p, k + 1) {
      forall evs | Possible(x', evs) && NoRestart(evs)
        ensures After(x', evs).server.ValueOr([]) == x'.server.ValueOr([])
      {
        StuckWithoutRestart(x, m, x', k, evs);
        CutContents(x, x', k);
      }
    } else {
      var p :| p in x'.toServer && Carries(p, k + 1);
      AfterOne(x', DeliverBatch(p, stale, FULL));
      InvFiles(x, m);
      CarrierGrows(x, x', k, p, stale);
      var evs := [DeliverBatch(p, stale, FULL)];
      assert NoRestart(evs) && Possible(x', evs);
    }
  }

  lemma CutContents(x: Sys, x': Sys, k: nat)
    requires CutBack(x, x', k)
    ensures x'.server.ValueOr([]) == Lines(x.history[..k])
  {
    hide Lines;
    NoLines();
  }

  lemma CarrierGrows(x: Sys, x': Sys, k: nat, p: seq<Byte>, stale: Stale)
    requires GoodHistory(x.history) && CutBack(x, x', k) && p in x'.toServer && Carries(p, k + 1)
    ensures Enabled(x', DeliverBatch(p, stale, FULL))
    ensures ServerGot(x', p, stale, FULL).server.ValueOr([]) != x'.server.ValueOr([])
  {
    hide Lines, LogMessage, AckMessage, Handle, Accepted, RecoverLast, HasNumber, LastAfter;
    var es :| IsMessage(p, es) && HasNumber(es, k + 1);
    NumbersFit(x.history, k);
    CutGood(x.history, k);
    ServerIsCounter(x'.server, x.history[..k], stale);
    HandleMessage(x'.server, es, stale, FULL);
    NextAccepted(k, es);
    LinesOfSome(Accepted(k, es));
  }

  lemma CutGood(h: seq<LogEntry>, k: nat)
    requires GoodHistory(h) && k <= |h|
    ensures GoodHistory(h[..k])
  {
  }
}
