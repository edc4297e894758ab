/** Failing file operations around the protocol's conditions: when a file cannot be
    read, or lacks a line, and what follows. */
module Failures {
  import opened Bytes
  import opened LogEntries
  import opened LogQueues
  import opened LogServer
  import opened ClientLoggers
  import opened Protocol
  import opened Progress

  /** Safe entries are determined by their lines. */
  lemma LinesInjective(a: seq<LogEntry>, b: seq<LogEntry>, stale: Stale)
    requires AllSafe(a) && AllOver(a, 0) && AllSafe(b) && AllOver(b, 0)
    ensures Lines(a) == Lines(b) <==> a == b
  {
    hide Lines, Loaded, TextSafe;
    LoadLines(a, 0, stale);
    LoadLines(b, 0, stale);
    AllAbove(a, 0);
    AllAbove(b, 0);
  }

  /** The first entry numbered 1 is where acceptance starts over. */
  lemma {:induction false} AcceptedStartsOver(es: seq<LogEntry>)
    requires HasNumber(es, 1)
    ensures Accepted(0, es) != [] && Accepted(0, es)[0].id == 1
    decreases es
  {
    if es[0].id != 1 {
      assert forall i :: 1 <= i < |es| ==> es[1..][i - 1] == es[i];
      AcceptedStartsOver(es[1..]);
    }
  }

  lemma {:induction false} AcceptedAmong(last: U64, es: seq<LogEntry>, h: seq<LogEntry>)
    requires Among(es, h)
    ensures Among(Accepted(last, es), h)
    decreases es
  {
    if es != [] {
      assert forall i :: 0 <= i < |es[1..]| ==> es[1..][i] == es[i + 1];
      AcceptedAmong(last, es[1..], h);
      AcceptedAmong(Succ(last), es[1..], h);
    }
  }

  /** Delivering a batch leaves the lines of a prefix in the server's file exactly
      when a file that is appended to could be read, or had no line, or the batch
      holds no entry numbered 1: otherwise that one is written a second time. */
  lemma UnreadableFileIff(x: Sys, m: Marks, p: seq<Byte>, stale: Stale, access: Access)
    requires Inv(x, m) && p in x.toServer
    ensures (exists k: nat :: DeliveredPrefix(ServerGot(x, p, stale, access), k))
            <==> ReadsWell(x.server, p, stale, access)
  {
    hide Lines, Exchange, FilesHold, IsMessage, Among, ReadsWell, Handle, Opened, RecoverLast;
    var y := ServerGot(x, p, stale, access);
    if ReadsWell(x.server, p, stale, access) {
      var m' := DeliverBatchKeeps(x, m, p, stale, access);
      ExchangeIsPrefix(y, m'.s);
    } else {
      assert IsGenuine(p, x.history);
      var es :| IsMessage(p, es) && Among(es, x.history);
      ServerOf(x, x.history, m.s, stale);
      forall k: nat ensures !DeliveredPrefix(y, k) {
        if DeliveredPrefix(y, k) {
          StartedOver(x.history, x.server, m.s, p, es, stale, access, k);
        }
      }
    }
  }

  lemma ExchangeIsPrefix(x: Sys, s: U64)
    requires Exchange(x, x.history, s)
    ensures DeliveredPrefix(x, s)
  {
    hide QueueHolds, IsBatch, IsAck, Lines;
    InRange(x.queue, x.history, s);
  }

  lemma StartedOver(h: seq<LogEntry>, file: File, s: nat, p: seq<Byte>, es: seq<LogEntry>, stale: Stale,
                    access: Access, k: nat)
    requires GoodHistory(h) && s <= |h| && ServerHolds(file, h[..s]) && k <= |h|
    requires IsMessage(p, es) && Among(es, h) && !ReadsWell(file, p, stale, access)
    ensures !ServerHolds(Handle(file, p, stale, access).file, h[..k])
  {
    hide Lines, Handle, StartsOver, LogMessage, AckMessage, Accepted, RecoverLast, AllSafe, HasNumber, Among;
    WellRead(file, h, s, es, stale, access);
    HandleMessage(file, es, stale, access);
    NothingRead(stale);
    var accepted := Accepted(0, es);
    AcceptedStartsOver(es);
    AcceptedAmong(0, es, h);
    PrefixAmong(h, s);
    PrefixAmong(h, k);
    AmongConcat(h[..s], accepted, h);
    AmongIsGood(h[..s] + accepted, h);
    AmongIsGood(h[..k], h);
    NotAPrefix(h, s, accepted, k);
    LinesInjective(h[..s] + accepted, h[..k], stale);
    LinesConcat(h[..s], accepted);
    NoLines();
    LinesOfSome(h[..s] + accepted);
  }

  lemma PrefixAmong(h: seq<LogEntry>, k: nat)
    requires Numbered(h) && k <= |h|
    ensures Among(h[..k], h)
  {
  }

  lemma AmongConcat(a: seq<LogEntry>, b: seq<LogEntry>, h: seq<LogEntry>)
    requires Among(a, h) && Among(b, h)
    ensures Among(a + b, h)
  {
  }

  lemma NotAPrefix(h: seq<LogEntry>, s: nat, more: seq<LogEntry>, k: nat)
    requires Numbered(h) && 0 < s <= |h| && k <= |h| && more != [] && more[0].id == 1
    ensures h[..s] + more != h[..k]
  {
    assert k > s ==> h[..k][s].id == s + 1;
    assert (h[..s] + more)[s].id == 1;
  }

  /** A restart keeps the protocol's invariant exactly when it reads back the last
      entry and the last one whose line is missing has reached the server, or when
      nothing was ever logged. */
  lemma RestartKeepsIff(x: Sys, m: Marks, disk: Disk, stale: Stale)
    requires Inv(x, m)
    ensures (exists m' :: Inv(Restarted(x, disk, stale), m')) <==> Enabled(x, Restart(disk, stale))
  {
    hide Inv, Restarted, RestartsWell;
    if Enabled(x, Restart(disk, stale)) {
      var m' := RestartKeeps(x, m, disk, stale);
    } else {
      forall m' ensures !Inv(Restarted(x, disk, stale), m') {
        if Inv(Restarted(x, disk, stale), m') {
          OnlyGoodRestarts(x, m, disk, stale, m');
        }
      }
    }
  }

  lemma OnlyGoodRestarts(x: Sys, m: Marks, disk: Disk, stale: Stale, m': Marks)
    requires Inv(x, m) && Inv(Restarted(x, disk, stale), m')
    ensures RestartsWell(x, disk, stale)
  {
    hide Exchange, Opened, FilesHold, Destroyed, FilesOpened, RecoverLast, Lines;
    var h, y := x.history, Restarted(x, disk, stale);
    ServerOf(x, h, m.s, stale);
    ServerOf(y, h, m'.s, stale);
    LastIsNewest(x, m, disk, stale);
    GapNotReloaded(x.files, h, m, x.gap, disk, stale);
    QueueOf(y, h, m'.s);
    if m.s < x.gap {
      QueuedIsAbove(y.queue, h, m.s, x.gap - 1);
    }
  }

  /** A crash loses nothing exactly when all is delivered, or the log file can be
      read and the last entry whose line is missing is delivered. */
  lemma CrashHarmlessIff(x: Sys, m: Marks, disk: Disk, stale: Stale, nextDisk: Disk, next: Stale)
    requires Inv(x, m)
    ensures SplitSomewhere(Restarted(x, disk, stale), nextDisk, next)
            <==> m.s == |x.history| || (disk.readLog && x.gap <= m.s)
  {
    hide Exchange, Opened, FilesHold, Destroyed, FilesOpened, Lines, Genuine;
    var h, y := x.history, Restarted(x, disk, stale);
    ExchangeIsPrefix(x, m.s);
    ExchangeInRange(x, h, m.s);
    GapNotReloaded(x.files, h, m, x.gap, disk, stale);
    if m.s == |h| {
      assert DeliveredPrefix(y, m.s) && RestPending(y, m.s, nextDisk, next);
    } else if disk.readLog && x.gap <= m.s {
      var m' := FilesReopened(h, x.files, m, x.gap, disk, stale);
      forall i | m.s <= i < |h|
        ensures h[i] in y.queue.entries
        ensures nextDisk.readLog ==> h[i] in Opened(y.files, nextDisk, next).entries
      {
        WrittenIsReloaded(x.files, h, m, x.gap, disk, stale, i);
        if nextDisk.readLog {
          WrittenIsReloaded(y.files, h, m', x.gap, nextDisk, next, i);
        }
      }
      assert DeliveredPrefix(y, m.s) && RestPending(y, m.s, nextDisk, next);
    } else {
      var lost := if disk.readLog then x.gap - 1 else m.s;
      assert h[lost] !in y.queue.entries;
      forall s: nat ensures !(DeliveredPrefix(y, s) && RestPending(y, s, nextDisk, next)) {
        if DeliveredPrefix(y, s) {
          PrefixIsUnique(x.server, h, s, m.s);
        }
      }
    }
  }

  /** A restart continues the numbering exactly when it reads back the last entry or
      nothing was ever logged; from an unreadable log file it starts at 1. */
  lemma RestartNumberingIff(x: Sys, m: Marks, disk: Disk, stale: Stale)
    requires Inv(x, m)
    ensures var h, q := x.history, Restarted(x, disk, stale).queue;
            && (q.newId == |h| + 1 <==> h == [] || h[|h| - 1] in q.entries)
            && (!disk.readLog ==> q.newId == 1)
            && (disk.readLog && m.s < |h| ==> (q.newId == |h| + 1 <==> x.gap < |h|))
  {
    hide Exchange, Opened, FilesHold, Destroyed, FilesOpened, Lines, Genuine, HasNumber;
    var h := x.history;
    LastIsNewest(x, m, disk, stale);
    ExchangeInRange(x, h, m.s);
    GapNotReloaded(x.files, h, m, x.gap, disk, stale);
    NumbersFromOne(x.files, disk, stale);
    if disk.readLog && m.s < |h| {
      if x.gap < |h| {
        WrittenIsReloaded(x.files, h, m, x.gap, disk, stale, |h| - 1);
      } else {
        NumberOfLast(h, Opened(x.files, disk, stale).entries);
      }
    }
  }

  lemma NumbersFromOne(files: Files, disk: Disk, stale: Stale)
    ensures Opened(files, disk, stale).entries == [] ==> Opened(files, disk, stale).newId == 1
  {
  }

  lemma NumberOfLast(h: seq<LogEntry>, es: seq<LogEntry>)
    requires Numbered(h) && h != [] && !HasNumber(es, |h|)
    ensures h[|h| - 1] !in es
  {
  }

  // ---- an entry nobody can deliver any more

  ghost predicate Carries(p: seq<Byte>, n: nat) {
    exists es :: IsMessage(p, es) && HasNumber(es, n)
  }

  /** A message of generated entries, none of them numbered w. */
  ghost predicate Lacks(p: seq<Byte>, h: seq<LogEntry>, w: nat) {
    exists es :: IsMessage(p, es) && Among(es, h) && !HasNumber(es, w)
  }

  /** The server holds s < w entries, and number w is neither in the queue nor under
      way; no ack under way is above t, so the entries above w and t stay queued. */
  ghost predicate Withheld(x: Sys, w: U64, s: U64, t: U64) {
    && GoodHistory(x.history) && s < w <= |x.history| && s <= t <= |x.history|
    && x.queue.newId == |x.history| + 1
    && QueueLacks(x.queue.entries, x.history, w, Max(w, t))
    && ServerHolds(x.server, x.history[..s])
    && (forall p :: p in x.toServer ==> Lacks(p, x.history, w))
    && (forall p :: p in x.toClient ==> IsAck(p, t))
  }

  predicate QueueLacks(es: seq<LogEntry>, h: seq<LogEntry>, w: nat, t: U64) {
    && t <= |h|
    && Among(es, h) && Increasing(es) && !HasNumber(es, w)
    && Above(es, t) == h[t..]
  }

  lemma {:induction false} AcceptedShort(h: seq<LogEntry>, s: U64, w: U64, es: seq<LogEntry>) returns (s': U64)
    requires Numbered(h) && s < w <= |h| && Among(es, h) && !HasNumber(es, w)
    ensures s <= s' < w && Accepted(s, es) == h[s..s']
    decreases es
  {
    hide Among, HasNumber, Numbered;
    s' := s;
    if es != [] {
      TailAmong(es, h, w);
      if es[0].id == s + 1 {
        s' := AcceptedShort(h, s + 1, w, es[1..]);
        SliceCons(h, s, s');
      } else {
        s' := AcceptedShort(h, s, w, es[1..]);
      }
    }
  }

  lemma SliceCons(h: seq<LogEntry>, i: nat, j: nat)
    requires i < j <= |h|
    ensures h[i..j] == [h[i]] + h[i + 1..j]
  {
  }

  lemma TailAmong(es: seq<LogEntry>, h: seq<LogEntry>, w: nat)
    requires es != [] && Numbered(h) && Among(es, h) && !HasNumber(es, w)
    ensures Among(es[1..], h) && !HasNumber(es[1..], w)
    ensures es[0].id != w && 0 < es[0].id <= |h| < TWO_64 - 1 && es[0] == h[es[0].id - 1]
  {
    assert forall i :: 0 <= i < |es[1..]| ==> es[1..][i] == es[i + 1];
  }

  lemma WithheldGrows(x: Sys, w: U64, s: U64, t: U64, ev: Event)
    requires Withheld(x, w, s, t) && ev.Generate? && Enabled(x, ev)
    ensures Withheld(Next(x, ev), w, s, t)
  {
    hide Lines, IsAck, FilesAdded, Lacks, Among, Increasing, RecoverLast, Opened, TextSafe;
    var h, e := x.history, LogEntry(x.queue.newId, ev.name, ev.timestamp, ev.kind, ev.value);
    assert (h + [e])[..s] == h[..s];
    QueueLacksMore(x.queue.entries, h, w, Max(w, t), e);
    GoodMore(h, e);
    forall p | p in x.toServer
      ensures Lacks(p, h + [e], w)
    {
      LacksMore(p, h, w, e);
    }
  }

  lemma GoodMore(h: seq<LogEntry>, e: LogEntry)
    requires GoodHistory(h) && e.id == |h| + 1 < TWO_64 - 1 && TextSafe(e.name) && Encodable(e)
    ensures GoodHistory(h + [e])
  {
  }

  lemma LacksMore(p: seq<Byte>, h: seq<LogEntry>, w: nat, e: LogEntry)
    requires Lacks(p, h, w)
    ensures Lacks(p, h + [e], w)
  {
    hide IsMessage, HasNumber;
    var es :| IsMessage(p, es) && Among(es, h) && !HasNumber(es, w);
    AmongMore(es, h, e);
  }

  lemma QueueLacksMore(es: seq<LogEntry>, h: seq<LogEntry>, w: nat, t: U64, e: LogEntry)
    requires QueueLacks(es, h, w, t) && e.id == |h| + 1 && w <= |h|
    ensures QueueLacks(es + [e], h + [e], w, t)
  {
    hide Above;
    AmongSnoc(es, h, e);
    AboveSnoc(es, e, t);
    assert (h + [e])[t..] == h[t..] + [e];
    assert (es + [e])[|es|] == e;
  }

  lemma WithheldSends(x: Sys, w: U64, s: U64, t: U64)
    requires Withheld(x, w, s, t)
    ensures Withheld(Sent(x), w, s, t)
  {
    hide Lines, LogMessage, IsAck, Increasing, AllSafe;
    var batch := Batch(x.queue, BATCH);
    AmongIsGood(batch, x.history);
    assert IsMessage(LogMessage(batch), batch) && Among(batch, x.history) && !HasNumber(batch, w);
    hide QueueLacks, GoodHistory;
  }

  lemma WithheldDelivers(x: Sys, w: U64, s: U64, t: U64, p: seq<Byte>, stale: Stale, access: Access)
    returns (s': U64, t': U64)
    requires Withheld(x, w, s, t) && p in x.toServer && ReadsWell(x.server, p, stale, access)
    ensures Withheld(ServerGot(x, p, stale, access), w, s', t')
    ensures s <= s' && Max(w, t') == Max(w, t)
  {
    hide Lines, LogMessage, AckMessage, Handle, QueueLacks, GoodHistory, StartsOver, ReadsWell;
    s', t' := s, t;
    if !access.canAppend {
      RefusedWhenClosed(x, p, stale, access);
    } else {
      var es :| IsMessage(p, es) && Among(es, x.history) && !HasNumber(es, w);
      WellRead(x.server, x.history, s, es, stale, access);
      var reply;
      s', reply := ShortDelivered(x.history, x.server, s, w, es, stale, access);
      t' := Max(t, s');
      assert IsAck(AckMessage(reply), t');
      AcksMore(x.toClient, t, t', AckMessage(reply));
      hide IsAck, Lacks;
    }
  }

  lemma AcksMore(acks: set<seq<Byte>>, t: nat, t': nat, reply: seq<Byte>)
    requires t <= t' && IsAck(reply, t')
    requires forall p :: p in acks ==> IsAck(p, t)
    ensures forall p :: p in acks + {reply} ==> IsAck(p, t')
  {
    hide AckMessage;
  }

  lemma ShortDelivered(h: seq<LogEntry>, file: File, s: U64, w: U64, es: seq<LogEntry>, stale: Stale, access: Access)
    returns (s': U64, reply: U64)
    requires GoodHistory(h) && s < w <= |h| && ServerHolds(file, h[..s]) && access.canAppend
    requires AllEncodable(es) && |es| <= BATCH && Among(es, h) && !HasNumber(es, w)
    requires access.canRead || s == 0 || !HasNumber(es, 1)
    ensures s <= s' < w && reply <= s'
    ensures Handle(file, LogMessage(es), stale, access) == Outcome(Some(Lines(h[..s'])), Some(AckMessage(reply)))
  {
    hide Handle, Lines, AckMessage, LogMessage, RecoverLast, Accepted, LastAfter, HasNumber, Among;
    HandleMessage(file, es, stale, access);
    NoLines();
    NothingRead(stale);
    if access.canRead || s == 0 {
      ServerIsCounter(file, h[..s], stale);
      s' := AcceptedShort(h, s, w, es);
      reply := s';
      LastOfSlice(h, s, s');
      LinesConcat(h[..s], Accepted(s, es));
    } else {
      AcceptedFromOne(es);
      NothingAccepted(0);
      s', reply := s, 0;
      assert file.value + [] == file.value;
    }
  }

  lemma WithheldAcked(x: Sys, w: U64, s: U64, t: U64, p: seq<Byte>, stale: Stale, ackWritten: bool)
    requires Withheld(x, w, s, t) && p in x.toClient
    ensures Withheld(ClientGot(x, p, stale, ackWritten), w, s, t)
  {
    hide Lines, AckMessage, AckIdOf, QueueLacks, GoodHistory, Lacks, Popped, Decimal;
    assert IsAck(p, t);
    var id: U64 :| id <= t && p == AckMessage(id);
    AckBack(id, stale);
    QueueLacksAcked(x.queue.entries, x.history, w, Max(w, t), id);
    hide IsAck;
  }

  lemma QueueLacksAcked(es: seq<LogEntry>, h: seq<LogEntry>, w: nat, t: U64, id: U64)
    requires QueueLacks(es, h, w, t) && id <= t
    ensures QueueLacks(Popped(es, id), h, w, t)
  {
    hide Above, Popped;
    PoppedIsAbove(es, id);
    AboveKeeps(es, id);
    AmongKeeps(es, h, id);
    AboveAbove(es, id, t);
    assert forall i :: 0 <= i < |Above(es, id)| ==> Above(es, id)[i] in es;
  }

  lemma WithheldStep(x: Sys, w: U64, s: U64, t: U64, ev: Event) returns (s': U64, t': U64)
    requires Withheld(x, w, s, t) && Enabled(x, ev) && !ev.Restart?
    ensures Withheld(Next(x, ev), w, s', t')
    ensures s <= s' && Max(w, t') == Max(w, t)
  {
    hide Lines, GoodHistory, QueueLacks, Lacks, IsAck, Sent, ServerGot, ClientGot, Generated, ReadsWell, TextSafe;
    s', t' := s, t;
    match ev
    case Generate(_, _, _, _, _) => WithheldGrows(x, w, s, t, ev);
    case Send => WithheldSends(x, w, s, t);
    case DeliverBatch(p, stale, access) => s', t' := WithheldDelivers(x, w, s, t, p, stale, access);
    case DeliverAck(p, stale, ackWritten) => WithheldAcked(x, w, s, t, p, stale, ackWritten);
    case LoseBatch(p) =>
    case LoseAck(p) =>
  }

  lemma {:induction false} WithheldRun(x: Sys, w: U64, s: U64, t: U64, evs: seq<Event>) returns (s': U64, t': U64)
    requires Withheld(x, w, s, t) && Possible(x, evs) && NoRestart(evs)
    ensures Withheld(After(x, evs), w, s', t')
    ensures s <= s' && Max(w, t') == Max(w, t)
    decreases evs
  {
    hide Withheld, Next, Enabled, Max;
    s', t' := s, t;
    if evs != [] {
      s', t' := WithheldStep(x, w, s, t, evs[0]);
      s', t' := WithheldRun(Next(x, evs[0]), w, s', t', evs[1..]);
    }
  }

  /** One failed append and a crash stop everything after it: if the numbering goes
      on past an undelivered entry whose line is missing, and no batch under way
      carries that entry, then in every run without another restart the server's
      file stays short of it, and all later entries stay in the queue. */
  lemma GapWithholds(x: Sys, m: Marks, disk: Disk, stale: Stale, evs: seq<Event>) returns (s': U64)
    requires Inv(x, m) && disk.readLog && m.s < x.gap < |x.history|
    requires forall p :: p in x.toServer ==> !Carries(p, x.gap)
    requires Possible(Restarted(x, disk, stale), evs) && NoRestart(evs)
    ensures var y := After(Restarted(x, disk, stale), evs);
            && m.s <= s' < x.gap <= |y.history| && ServerHolds(y.server, y.history[..s'])
            && Above(y.queue.entries, x.gap) == y.history[x.gap..]
  {
    hide Inv, Possible, After, Restarted, Above, Lines, Among, Lacks, IsAck, Carries;
    GapIsWithheld(x, m, disk, stale);
    var t';
    s', t' := WithheldRun(Restarted(x, disk, stale), x.gap, m.s, m.s, evs);
  }

  lemma GapIsWithheld(x: Sys, m: Marks, disk: Disk, stale: Stale)
    requires Inv(x, m) && disk.readLog && m.s < x.gap < |x.history|
    requires forall p :: p in x.toServer ==> !Carries(p, x.gap)
    ensures Withheld(Restarted(x, disk, stale), x.gap, m.s, m.s)
  {
    hide Lines, Opened, Destroyed, FilesOpened, QueueHolds, QueueLacks, IsBatch, IsAck, Lacks, Carries,
         LogHolds, GoodHistory;
    QueueStillLacks(x, m, disk, stale);
    RestartNumberingIff(x, m, disk, stale);
    forall p | p in x.toServer
      ensures Lacks(p, x.history, x.gap)
    {
      GenuineLacks(p, x.history, x.gap);
    }
  }

  lemma GenuineLacks(p: seq<Byte>, h: seq<LogEntry>, w: nat)
    requires IsGenuine(p, h) && !Carries(p, w)
    ensures Lacks(p, h, w)
  {
    hide IsMessage, Among, HasNumber;
    var es :| IsMessage(p, es) && Among(es, h);
  }

  lemma QueueStillLacks(x: Sys, m: Marks, disk: Disk, stale: Stale)
    requires Inv(x, m) && disk.readLog && m.s < x.gap
    ensures |x.history| < TWO_64 && x.gap <= |x.history|
    ensures QueueLacks(Opened(x.files, disk, stale).entries, x.history, x.gap, x.gap)
  {
    hide Lines, Above, Opened, Exchange, Genuine, Among, Increasing, HasNumber, Decimal;
    var h, g := x.history, x.gap;
    var f :| LogHas(f, h, m.s, g) && x.files.log.ValueOr([]) == Lines(f);
    ExchangeInRange(x, h, m.s);
    AmongIsGood(f, h);
    ReloadedIs(x.files, f, m.a, disk, stale);
    GapNotReloaded(x.files, h, m, g, disk, stale);
    var a := Opened(x.files, disk, stale).ackId;
    AboveKeeps(f, a);
    AmongKeeps(f, h, a);
    AboveAbove(f, a, g);
  }

  ghost predicate ShortOf(x: Sys, w: nat) {
    exists k: nat :: k < w && k <= |x.history| && ServerHolds(x.server, x.history[..k])
  }

  /** The condition is exact: delivering a batch that carries the entry is what it takes. */
  lemma GapWithholdsIff(x: Sys, m: Marks, disk: Disk, stale: Stale)
    requires Inv(x, m) && disk.readLog && m.s < x.gap < |x.history|
    ensures (forall evs :: Possible(Restarted(x, disk, stale), evs) && NoRestart(evs)
                           ==> ShortOf(After(Restarted(x, disk, stale), evs), x.gap))
            <==> forall p :: p in x.toServer ==> !Carries(p, x.gap)
  {
    hide Inv, Restarted, Carries, After, Possible, ShortOf;
    var y := Restarted(x, disk, stale);
    if forall p :: p in x.toServer ==> !Carries(p, x.gap) {
      forall evs | Possible(y, evs) && NoRestart(evs)
        ensures ShortOf(After(y, evs), x.gap)
      {
        StaysShort(x, m, disk, stale, evs);
      }
    } else {
      var p :| p in x.toServer && Carries(p, x.gap);
      var ev := DeliverBatch(p, stale, FULL);
      AfterOne(y, ev);
      RestartedServer(x, disk, stale);
      CarrierDelivered(y, x, m, p, stale);
      assert !ShortOf(After(y, [ev]), x.gap);
    }
  }

  lemma StaysShort(x: Sys, m: Marks, disk: Disk, stale: Stale, evs: seq<Event>)
    requires Inv(x, m) && disk.readLog && m.s < x.gap < |x.history|
    requires forall p :: p in x.toServer ==> !Carries(p, x.gap)
    requires Possible(Restarted(x, disk, stale), evs) && NoRestart(evs)
    ensures ShortOf(After(Restarted(x, disk, stale), evs), x.gap)
  {
    hide Inv, Restarted, Carries, After, Possible, Lines;
    var s' := GapWithholds(x, m, disk, stale, evs);
  }

  lemma RestartedServer(x: Sys, disk: Disk, stale: Stale)
    ensures var y := Restarted(x, disk, stale);
            y.server == x.server && y.toServer == x.toServer && y.history == x.history
  {
  }

  /** A batch under way that carries number w takes the server to w. */
  lemma CarrierDelivered(y: Sys, x: Sys, m: Marks, p: seq<Byte>, stale: Stale)
    requires Inv(x, m) && y.server == x.server && y.toServer == x.toServer && y.history == x.history
    requires p in x.toServer && m.s < x.gap && Carries(p, x.gap)
    ensures Enabled(y, DeliverBatch(p, stale, FULL))
    ensures !ShortOf(ServerGot(y, p, stale, FULL), x.gap)
  {
    hide Lines, Handle, LogMessage, AckMessage, QueueHolds, Genuine, FilesHold, IsAck, IsMessage, HasNumber,
         GoesOn, GoodHistory;
    var h := x.history;
    InRange(x.queue, h, m.s);
    assert IsBatch(p, h, m.s);
    var es :| IsMessage(p, es) && GoesOn(es, h, m.s);
    var a :| IsMessage(p, a) && HasNumber(a, x.gap);
    MessageUnique(p, es, a, stale);
    var s', reply := CarrierAccepted(h, x.server, m.s, p, es, x.gap, stale);
    forall k: nat | k <= |h| && ServerHolds(Some(Lines(h[..s'])), h[..k])
      ensures k >= x.gap
    {
      PrefixIsUnique(Some(Lines(h[..s'])), h, k, s');
    }
  }

  lemma CarrierAccepted(h: seq<LogEntry>, file: File, s: U64, p: seq<Byte>, es: seq<LogEntry>, w: nat, stale: Stale)
    returns (s': nat, reply: U64)
    requires GoodHistory(h) && s < w && s <= |h| && ServerHolds(file, h[..s])
    requires IsMessage(p, es) && GoesOn(es, h, s) && HasNumber(es, w)
    ensures w <= s' <= |h|
    ensures Handle(file, p, stale, FULL) == Outcome(Some(Lines(h[..s'])), Some(AckMessage(reply)))
  {
    hide Lines, Handle, LogMessage, AckMessage, Above, AllSafe, AllEncodable, ServerHolds;
    s', reply := BatchDelivered(h, file, s, es, stale, FULL);
    var k :| 0 <= k < |es| && es[k].id == w;
    AboveMember(es, s, es[k]);
    assert Above(es, s) == h[s..][..s' - s] == h[s..s'];
    SliceNumbers(h, s, s', es[k]);
  }

  lemma SliceNumbers(h: seq<LogEntry>, i: nat, j: nat, e: LogEntry)
    requires Numbered(h) && i <= j <= |h| && e in h[i..j]
    ensures i < e.id <= j
  {
  }

  // ---- the last entry forgotten

  /** All of h from s on, in order, is that part of h. */
  lemma {:induction false} WholeSuffix(es: seq<LogEntry>, h: seq<LogEntry>, s: nat)
    requires Numbered(h) && s <= |h| && Increasing(es) && Among(es, h) && AllOver(es, s)
    requires forall i :: s <= i < |h| ==> h[i] in es
    ensures es == h[s..]
    decreases |es|
  {
    hide Increasing, Among, Numbered, AllOver;
    if s == |h| {
      NoneOver(es, h);
    } else {
      assert h[s] in es;
      FirstOf(es, h, s);
      RestOf(es, h, s);
      WholeSuffix(es[1..], h, s + 1);
      HeadAndTail(es, h, s);
    }
  }

  lemma RestOf(es: seq<LogEntry>, h: seq<LogEntry>, s: nat)
    requires Numbered(h) && s < |h| && es != [] && es[0] == h[s]
    requires forall i :: s <= i < |h| ==> h[i] in es
    ensures forall i :: s + 1 <= i < |h| ==> h[i] in es[1..]
  {
    hide Numbered;
    forall i | s + 1 <= i < |h|
      ensures h[i] in es[1..]
    {
      NumbersDiffer(h, s, i);
      InTail(es, h[i]);
    }
  }

  lemma HeadAndTail(es: seq<LogEntry>, h: seq<LogEntry>, s: nat)
    requires s < |h| && es != [] && es[0] == h[s] && es[1..] == h[s + 1..]
    ensures es == h[s..]
  {
    assert es == [es[0]] + es[1..] && h[s..] == [h[s]] + h[s + 1..];
  }

  lemma NoneOver(es: seq<LogEntry>, h: seq<LogEntry>)
    requires Among(es, h)
    ensures AllOver(es, |h|) ==> es == []
  {
    if es != [] {
      assert es[0].id <= |h|;
    }
  }

  lemma NumbersDiffer(h: seq<LogEntry>, i: nat, j: nat)
    requires Numbered(h) && i < j < |h|
    ensures h[i] != h[j]
  {
  }

  lemma InTail(es: seq<LogEntry>, e: LogEntry)
    requires e in es && e != es[0]
    ensures e in es[1..]
  {
    var k := PlaceOf(es, e);
    assert es[1..][k - 1] == e;
  }

  /** The first entry above s is the next one, if that one is there at all. */
  lemma FirstOf(es: seq<LogEntry>, h: seq<LogEntry>, s: nat)
    requires Numbered(h) && s < |h| && Increasing(es) && Among(es, h) && AllOver(es, s) && h[s] in es
    ensures es != [] && es[0] == h[s]
    ensures Increasing(es[1..]) && Among(es[1..], h) && AllOver(es[1..], s + 1)
  {
    var k := PlaceOf(es, h[s]);
    FirstIsLeast(es, k);
    var rest := es[1..];
    assert forall i :: 0 <= i < |rest| ==> rest[i] == es[i + 1] && es[0].id < es[i + 1].id;
  }

  lemma FirstIsLeast(es: seq<LogEntry>, k: nat)
    requires Increasing(es) && k < |es|
    ensures es[0].id <= es[k].id
  {
  }

  lemma PlaceOf(es: seq<LogEntry>, e: LogEntry) returns (k: nat)
    requires e in es
    ensures k < |es| && es[k] == e
  {
    k :| 0 <= k < |es| && es[k] == e;
  }

  lemma AmongShort(es: seq<LogEntry>, h: seq<LogEntry>)
    requires h != [] && Among(es, h) && !HasNumber(es, |h|)
    ensures Among(es, h[..|h| - 1])
  {
  }

  lemma GoodPrefix(h: seq<LogEntry>, r: nat)
    requires GoodHistory(h) && r <= |h|
    ensures GoodHistory(h[..r])
  {
  }

  /** A batch without the last entry is one of the shorter history. */
  lemma BatchShort(p: seq<Byte>, h: seq<LogEntry>, s: U64)
    requires s < |h| && Numbered(h) && IsBatch(p, h, s) && IsGenuine(p, h) && !Carries(p, |h|)
    ensures IsBatch(p, h[..|h| - 1], s) && IsGenuine(p, h[..|h| - 1])
  {
    hide IsMessage, HasNumber, Among;
    var short := h[..|h| - 1];
    var a :| IsMessage(p, a) && Among(a, h);
    AmongShort(a, h);
    var es :| IsMessage(p, es) && GoesOn(es, h, s);
    assert !HasNumber(es, |h|);
    GoesOnShort(es, h, s);
  }

  lemma GoesOnShort(es: seq<LogEntry>, h: seq<LogEntry>, s: U64)
    requires s < |h| && Numbered(h) && GoesOn(es, h, s) && !HasNumber(es, |h|)
    ensures GoesOn(es, h[..|h| - 1], s)
  {
    hide Above;
    AboveKeeps(es, s);
    var n := |Above(es, s)|;
    assert Above(es, s) == h[s..][..n] == h[s..s + n];
    if n > 0 {
      LastIn(es, h, s, s + n);
    }
    assert h[..|h| - 1][s..][..n] == h[s..s + n];
  }

  lemma LastIn(es: seq<LogEntry>, h: seq<LogEntry>, i: nat, j: nat)
    requires Numbered(h) && i < j <= |h| && !HasNumber(es, |h|)
    requires forall e :: e in h[i..j] ==> e in es
    ensures j < |h|
  {
    assert h[i..j][j - i - 1] == h[j - 1];
    assert h[j - 1] in es;
  }

  /** If only the last entry's line is missing, a crash makes the system forget that
      entry: with no batch under way carrying it, all goes on as if it had never
      been generated, and its number is used again. */
  lemma LastAppendForgotten(x: Sys, m: Marks, disk: Disk, stale: Stale) returns (m': Marks)
    requires Inv(x, m) && disk.readLog && m.s < x.gap == |x.history|
    requires forall p :: p in x.toServer ==> !Carries(p, x.gap)
    requires forall i :: 0 <= i < |x.history| - 1 && (m.s <= i || i == |x.history| - 2)
                         ==> x.history[i] in Opened(x.files, disk, stale).entries
    ensures Inv(Restarted(x, disk, stale).(history := x.history[..|x.history| - 1], gap := 0), m')
    ensures m'.s == m.s
  {
    hide Lines, Opened, Destroyed, FilesOpened, Above, Among, IsBatch, IsGenuine, IsAck, Carries, QueueHolds,
         GoodHistory, LogHolds, Increasing, AckHolds;
    var h := x.history;
    var short := h[..|h| - 1];
    var q := Opened(x.files, disk, stale);
    GoodPrefix(h, |h| - 1);
    m' := ShortFiles(x, m, disk, stale);
    forall p | p in x.toServer
      ensures IsBatch(p, short, m.s) && IsGenuine(p, short)
    {
      NumberedOf(h);
      BatchShort(p, h, m.s);
    }
    assert short[..m.s] == h[..m.s];
    ShortInRange(q, short, m.s);
  }

  lemma NumberedOf(h: seq<LogEntry>)
    requires GoodHistory(h)
    ensures Numbered(h)
  {
  }

  lemma ShortInRange(q: Queue, h: seq<LogEntry>, s: U64)
    requires QueueHolds(q, h, s) && GoodHistory(h)
    ensures s <= |h| < TWO_64
  {
  }

  /** The files, and the queue read back from them, for the shorter history. */
  lemma ShortFiles(x: Sys, m: Marks, disk: Disk, stale: Stale) returns (m': Marks)
    requires Inv(x, m) && disk.readLog && m.s < x.gap == |x.history|
    requires forall i :: 0 <= i < |x.history| - 1 && (m.s <= i || i == |x.history| - 2)
                         ==> x.history[i] in Opened(x.files, disk, stale).entries
    ensures var short, q := x.history[..|x.history| - 1], Opened(x.files, disk, stale);
            && FilesHold(Restarted(x, disk, stale).files, short, m', 0) && m'.s == m.s
            && QueueHolds(q, short, m.s) && Among(q.entries, short) && AllOver(q.entries, q.ackId)
            && q.newId == |short| + 1
  {
    hide Lines, Opened, Destroyed, FilesOpened, Exchange, Genuine, Above, Increasing, Decimal, Among, QueueHolds,
         GoodHistory, AllOver;
    var h, s := x.history, m.s;
    var short, q := h[..|h| - 1], Opened(x.files, disk, stale);
    ExchangeInRange(x, h, s);
    GoodPrefix(h, |h| - 1);
    NumberedOf(short);
    var f :| LogHas(f, h, s, x.gap) && x.files.log.ValueOr([]) == Lines(f);
    AmongIsGood(f, h);
    ReloadedIs(x.files, f, m.a, disk, stale);
    AmongShort(f, h);
    ShortLog(f, h, s, q.ackId);
    assert LogHolds(x.files.log, short, s, 0);
    m' := FilesReopened(short, x.files, m, 0, disk, stale);
    AmongIsGood(f, short);
    NewestOf(f, short, q);
    QueueReloaded(short, f, s, 0, q);
  }

  lemma ShortLog(f: seq<LogEntry>, h: seq<LogEntry>, s: U64, a: U64)
    requires GoodHistory(h) && a <= s < |h| && Among(f, h[..|h| - 1]) && Increasing(f)
    requires forall i :: s <= i < |h| - 1 ==> h[i] in Above(f, a)
    ensures LogHas(f, h[..|h| - 1], s, 0)
  {
    hide Above, AllSafe, AllEncodable;
    var short := h[..|h| - 1];
    AboveKeeps(f, s);
    AmongKeeps(f, short, s);
    forall i | s <= i < |short|
      ensures short[i] in Above(f, s)
    {
      AboveMember(f, a, h[i]);
      AboveMember(f, s, h[i]);
    }
    WholeSuffix(Above(f, s), short, s);
  }
}
