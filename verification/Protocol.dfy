/** The log-shipping protocol as a state machine: one client, one server and a
    network that loses, duplicates and reorders.  Files and messages are the
    actual bytes; each step applies the functions the methods are proved against.
    Every step is atomic; every file operation may fail. */
module Protocol {
  import opened Bytes
  import opened LogEntries
  import opened LogQueues
  import opened LogServer
  import opened ClientLoggers

  const BATCH: U32 := 100

  /** history: every entry ever generated, in order; gap: the number of the last
      one whose line could not be written to the client's log file, 0 if there is
      none (neither is part of the program).
      toServer, toClient: payloads sent and not lost; delivery leaves them there,
      so they may arrive again, in any order. */
  datatype Sys = Sys(
    history: seq<LogEntry>,
    gap: nat,
    queue: Queue,
    files: Files,
    server: File,
    toServer: set<seq<Byte>>,
    toClient: set<seq<Byte>>)

  datatype Event =
    | Generate(name: seq<Byte>, timestamp: U64, kind: U32, value: U64, written: bool)
    | Send
    | DeliverBatch(payload: seq<Byte>, stale: Stale, access: Access)
    | DeliverAck(payload: seq<Byte>, stale: Stale, ackWritten: bool)
    | LoseBatch(payload: seq<Byte>)
    | LoseAck(payload: seq<Byte>)
    | Restart(disk: Disk, stale: Stale)

  function Generated(x: Sys, name: seq<Byte>, timestamp: U64, kind: U32, value: U64, written: bool): Sys {
    var e := LogEntry(x.queue.newId, name, timestamp, kind, value);
    x.(history := x.history + [e],
       gap := if written then x.gap else e.id,
       queue := Added(x.queue.(newId := Succ(x.queue.newId)), e),
       files := FilesAdded(x.files, e, written))
  }

  function Sent(x: Sys): Sys {
    var batch := Batch(x.queue, BATCH);
    if batch == [] then x else x.(toServer := x.toServer + {LogMessage(batch)})
  }

  function ServerGot(x: Sys, payload: seq<Byte>, stale: Stale, access: Access): Sys {
    var o := Handle(x.server, payload, stale, access);
    x.(server := o.file,
       toClient := if o.reply == None then x.toClient else x.toClient + {o.reply.value})
  }

  function ClientGot(x: Sys, payload: seq<Byte>, stale: Stale, ackWritten: bool): Sys {
    var id := AckIdOf(payload, stale);
    if id == None then x
    else x.(queue := Acked(x.queue, id.value), files := FilesAcked(x.queue, x.files, id.value, ackWritten))
  }

  /** A crash (or a stop) and a new start: the queue is rebuilt from the files,
      copied into the logger, and the constructor's parameter is destroyed. */
  function Restarted(x: Sys, disk: Disk, stale: Stale): Sys {
    var q := Opened(x.files, disk, stale);
    x.(queue := q, files := Destroyed(q, FilesOpened(x.files, disk), disk))
  }

  function Next(x: Sys, ev: Event): Sys {
    match ev
    case Generate(name, timestamp, kind, value, written) => Generated(x, name, timestamp, kind, value, written)
    case Send => Sent(x)
    case DeliverBatch(p, stale, access) => ServerGot(x, p, stale, access)
    case DeliverAck(p, stale, ackWritten) => ClientGot(x, p, stale, ackWritten)
    case LoseBatch(p) => x.(toServer := x.toServer - {p})
    case LoseAck(p) => x.(toClient := x.toClient - {p})
    case Restart(disk, stale) => Restarted(x, disk, stale)
  }

  /** Whether the message holds an entry numbered 1. */
  predicate StartsOver(p: seq<Byte>, stale: Stale) {
    var batch := BatchOf(Call(p, stale, FULL));
    batch.Got? && HasNumber(batch.value, 1)
  }

  predicate HasNumber(es: seq<LogEntry>, n: nat) {
    exists i :: 0 <= i < |es| && es[i].id == n
  }

  /** A server file that can be appended to can also be read, or has no line yet,
      or the message holds no entry that would be taken for its first one. */
  predicate ReadsWell(server: File, p: seq<Byte>, stale: Stale, access: Access) {
    access.canAppend ==> access.canRead || server.ValueOr([]) == [] || !StartsOver(p, stale)
  }

  /** A restart reads back the last entry, and the last one whose line is missing has
      reached the server; or nothing was ever logged. */
  predicate RestartsWell(x: Sys, disk: Disk, stale: Stale) {
    x.history == []
    || (x.history[|x.history| - 1] in Opened(x.files, disk, stale).entries
        && x.gap <= RecoverLast(x.server, stale))
  }

  /** Names are text-safe and short enough for their length field, messages fit
      their frames, ids do not wrap, only payloads under way are delivered; and
      what is read from the files is as above. */
  predicate Enabled(x: Sys, ev: Event) {
    match ev
    case Generate(name, _, _, _, _) => TextSafe(name) && |name| < TWO_32 && x.queue.newId < TWO_64 - 1
    case Send => |LogMessage(Batch(x.queue, BATCH))| < TWO_32
    case DeliverBatch(p, stale, access) => p in x.toServer && ReadsWell(x.server, p, stale, access)
    case DeliverAck(p, _, _) => p in x.toClient
    case Restart(disk, stale) => RestartsWell(x, disk, stale)
    case _ => true
  }

  predicate Possible(x: Sys, evs: seq<Event>)
    decreases evs
  {
    evs == [] || (Enabled(x, evs[0]) && Possible(Next(x, evs[0]), evs[1..]))
  }

  predicate NoRestart(evs: seq<Event>) {
    forall i :: 0 <= i < |evs| ==> !evs[i].Restart?
  }

  /** Whenever the server's file is appended to, it could be read. */
  predicate ServerReads(evs: seq<Event>) {
    forall i :: 0 <= i < |evs| ==> ReadsFile(evs[i])
  }

  predicate ReadsFile(ev: Event) {
    ev.DeliverBatch? && ev.access.canAppend ==> ev.access.canRead
  }

  function After(x: Sys, evs: seq<Event>): Sys
    decreases evs
  {
    if evs == [] then x else After(Next(x, evs[0]), evs[1..])
  }

  /** First start ever: no file exists anywhere. */
  function Start(disk: Disk, stale: Stale): Sys {
    var none := Files(None, None);
    Restarted(Sys([], 0, Opened(none, disk, stale), none, None, {}, {}), disk, stale)
  }

  // ---- the invariant

  /** s entries are in the server's file, and the client's ack file says a. */
  datatype Marks = Marks(s: nat, a: nat)

  predicate Numbered(h: seq<LogEntry>) {
    |h| < TWO_64 - 1 && forall i :: 0 <= i < |h| ==> h[i].id == i + 1
  }

  predicate GoodHistory(h: seq<LogEntry>) {
    Numbered(h) && AllSafe(h) && AllEncodable(h)
  }

  predicate AllUpTo(es: seq<LogEntry>, n: nat) {
    forall i :: 0 <= i < |es| ==> es[i].id <= n
  }

  predicate AllOver(es: seq<LogEntry>, n: nat) {
    forall i :: 0 <= i < |es| ==> es[i].id > n
  }

  predicate Increasing(es: seq<LogEntry>) {
    forall i, j :: 0 <= i < j < |es| ==> es[i].id < es[j].id
  }

  /** The entries es are entries of h. */
  predicate Among(es: seq<LogEntry>, h: seq<LogEntry>) {
    forall i :: 0 <= i < |es| ==> 0 < es[i].id <= |h| && es[i] == h[es[i].id - 1]
  }

  /** What es holds above number s is how h goes on from there. */
  predicate GoesOn(es: seq<LogEntry>, h: seq<LogEntry>, s: U64) {
    s <= |h| && Above(es, s) <= h[s..]
  }

  /** A message with at most a batch of entries that goes on from s. */
  ghost predicate IsBatch(payload: seq<Byte>, h: seq<LogEntry>, s: U64) {
    exists es :: IsMessage(payload, es) && GoesOn(es, h, s)
  }

  ghost predicate IsMessage(payload: seq<Byte>, es: seq<LogEntry>) {
    AllEncodable(es) && |es| <= BATCH && payload == LogMessage(es)
  }

  ghost predicate IsAck(payload: seq<Byte>, s: nat) {
    exists id: U64 :: id <= s && payload == AckMessage(id)
  }

  predicate ServerHolds(file: File, es: seq<LogEntry>) {
    (file == None && es == []) || file == Some(Lines(es))
  }

  predicate AckHolds(ack: Option<seq<Byte>>, a: nat) {
    (ack == None && a == 0) || ack == Some(Decimal(a))
  }

  /** In order, and above number s exactly the rest of h; lower ones may be left
      from a restart whose ack file was behind. */
  predicate QueueHolds(queue: Queue, h: seq<LogEntry>, s: U64) {
    && s <= |h|
    && Increasing(queue.entries) && AllEncodable(queue.entries)
    && queue.ackId <= s
    && queue.newId > 0 && AllUpTo(queue.entries, queue.newId - 1)
    && Above(queue.entries, s) == h[s..]
  }

  /** What the exchange of batches and acks needs: the server holds the first s
      entries of h, and all that is pending or under way continues it. */
  ghost predicate Exchange(x: Sys, h: seq<LogEntry>, s: U64) {
    && GoodHistory(h)
    && QueueHolds(x.queue, h, s)
    && ServerHolds(x.server, h[..s])
    && (forall p :: p in x.toServer ==> IsBatch(p, h, s))
    && (forall p :: p in x.toClient ==> IsAck(p, s))
  }

  ghost predicate IsGenuine(payload: seq<Byte>, h: seq<LogEntry>) {
    exists es :: IsMessage(payload, es) && Among(es, h)
  }

  /** Everything in the queue and under way was generated, what is in the queue is
      not acknowledged, and numbering goes on. */
  ghost predicate Genuine(x: Sys) {
    && x.queue.newId == |x.history| + 1
    && Among(x.queue.entries, x.history) && AllOver(x.queue.entries, x.queue.ackId)
    && forall p :: p in x.toServer ==> IsGenuine(p, x.history)
  }

  /** f, the entries in the client's log file: generated ones in order, all those
      after both the server's last one and number g, and not number g itself. */
  predicate LogHas(f: seq<LogEntry>, h: seq<LogEntry>, s: nat, g: nat) {
    && s <= |h| && g <= |h| < TWO_64
    && Among(f, h) && Increasing(f)
    && Above(f, Max(s, g)) == h[Max(s, g)..]
    && !HasNumber(f, g)
  }

  ghost predicate LogHolds(log: Option<seq<Byte>>, h: seq<LogEntry>, s: nat, g: nat) {
    exists f :: LogHas(f, h, s, g) && log.ValueOr([]) == Lines(f)
  }

  ghost predicate FilesHold(files: Files, h: seq<LogEntry>, m: Marks, g: nat) {
    m.a <= m.s && LogHolds(files.log, h, m.s, g) && AckHolds(files.ack, m.a)
  }

  ghost predicate Inv(x: Sys, m: Marks) {
    && m.s <= |x.history| < TWO_64
    && Exchange(x, x.history, m.s)
    && Genuine(x)
    && FilesHold(x.files, x.history, m, x.gap)
  }

  // ---- entries above a number

  lemma {:induction false} AboveSlice(h: seq<LogEntry>, d: nat, a: U64)
    requires Numbered(h) && d <= |h|
    ensures Above(h[d..], a) == h[Min(|h|, Max(d, a))..]
    decreases |h| - d
  {
    if d < |h| {
      assert h[d..][1..] == h[d + 1..];
      AboveSlice(h, d + 1, a);
    }
  }

  lemma {:induction false} NoneAbove(es: seq<LogEntry>, k: U64)
    requires AllUpTo(es, k)
    ensures Above(es, k) == []
  {
    if es != [] {
      NoneAbove(es[1..], k);
    }
  }

  lemma {:induction false} AllAbove(es: seq<LogEntry>, k: U64)
    requires AllOver(es, k)
    ensures Above(es, k) == es
  {
    if es != [] {
      AllAbove(es[1..], k);
      assert es == [es[0]] + es[1..];
    }
  }

  /** What is above a number keeps its order. */
  lemma AboveKeeps(es: seq<LogEntry>, k: U64)
    ensures AllOver(Above(es, k), k)
    ensures forall e :: e in Above(es, k) ==> e in es
    ensures Increasing(es) ==> Increasing(Above(es, k))
  {
    forall e
      ensures e in Above(es, k) <==> e in es && e.id > k
    {
      AboveMember(es, k, e);
    }
    if Increasing(es) {
      AboveInOrder(es, k);
    }
  }

  lemma {:induction false} AboveInOrder(es: seq<LogEntry>, k: U64)
    requires Increasing(es)
    ensures Increasing(Above(es, k))
  {
    if es != [] {
      var more := Above(es[1..], k);
      AboveInOrder(es[1..], k);
      forall i | 0 <= i < |more|
        ensures es[0].id < more[i].id
      {
        AboveMember(es[1..], k, more[i]);
      }
    }
  }

  lemma AmongKeeps(es: seq<LogEntry>, h: seq<LogEntry>, k: U64)
    requires Among(es, h)
    ensures Among(Above(es, k), h)
  {
    AboveKeeps(es, k);
  }

  /** Popping from an ordered queue leaves what is above the ack. */
  lemma {:induction false} PoppedIsAbove(es: seq<LogEntry>, k: U64)
    requires Increasing(es)
    ensures Popped(es, k) == Above(es, k)
  {
    if es != [] {
      if es[0].id > k {
        AllAbove(es, k);
      } else {
        PoppedIsAbove(es[1..], k);
      }
    }
  }

  lemma AmongIsGood(es: seq<LogEntry>, h: seq<LogEntry>)
    requires Among(es, h) && GoodHistory(h)
    ensures AllSafe(es) && AllEncodable(es) && AllUpTo(es, |h|) && AllOver(es, 0)
  {
    hide TextSafe, Encodable;
  }

  lemma AmongNone(es: seq<LogEntry>, h: seq<LogEntry>)
    requires Among(es, h)
    ensures h == [] ==> es == []
  {
    assert es != [] ==> es[0].id <= |h|;
  }

  lemma AmongMore(es: seq<LogEntry>, h: seq<LogEntry>, e: LogEntry)
    requires Among(es, h)
    ensures Among(es, h + [e])
  {
  }

  /** The entries kept from a part of h that starts after s, by number. */
  lemma PartAbove(h: seq<LogEntry>, s: nat, n: nat, k: U64)
    requires Numbered(h) && s + n <= |h|
    ensures Above(h[s..s + n], k) == h[Min(s + n, Max(s, k))..s + n]
  {
    var top := h[..s + n];
    assert top[s..] == h[s..s + n];
    AboveSlice(top, s, k);
    assert top[Min(s + n, Max(s, k))..] == h[Min(s + n, Max(s, k))..s + n];
  }

  /** What goes on from s also goes on from any later number. */
  lemma GoesOnLater(es: seq<LogEntry>, h: seq<LogEntry>, s: U64, s': U64)
    requires Numbered(h) && GoesOn(es, h, s) && s <= s' <= |h|
    ensures GoesOn(es, h, s')
  {
    var n := |Above(es, s)|;
    assert Above(es, s) == h[s..][..n] == h[s..s + n];
    AboveAbove(es, s, s');
    PartAbove(h, s, n, s');
    assert s' <= s + n ==> h[s'..s + n] == h[s'..][..s + n - s'];
  }

  // ---- what the server accepts

  lemma {:induction false} AcceptedSlice(h: seq<LogEntry>, s: nat, i: nat, j: nat)
    requires Numbered(h) && s <= |h| && i <= j <= |h|
    ensures Accepted(s, h[i..j]) == if i <= s <= j then h[s..j] else []
    decreases j - i
  {
    if i < j {
      SliceHead(h, i, j);
      assert Succ(s) == s + 1;
      if i == s {
        AcceptedSlice(h, s + 1, i + 1, j);
        assert h[s..j] == [h[s]] + h[s + 1..j];
      } else {
        AcceptedSlice(h, s, i + 1, j);
      }
    }
  }

  lemma SliceHead(h: seq<LogEntry>, i: nat, j: nat)
    requires i < j <= |h|
    ensures h[i..j][0] == h[i] && h[i..j][1..] == h[i + 1..j]
  {
  }

  /** Numbers the server is past make no difference. */
  lemma {:induction false} AcceptedAbove(last: U64, es: seq<LogEntry>, s: U64, n: nat)
    requires s <= last <= n < TWO_64 - 1 && AllUpTo(Above(es, s), n)
    ensures Accepted(last, es) == Accepted(last, Above(es, s))
    decreases es
  {
    if es != [] {
      var more := Above(es[1..], s);
      if es[0].id > s {
        assert AllUpTo(more, n) && ([es[0]] + more)[1..] == more by {
          assert forall k :: 0 <= k < |more| ==> more[k] == Above(es, s)[k + 1];
        }
        assert Above(es, s)[0] == es[0];
      }
      AcceptedAbove(last, es[1..], s, n);
      if es[0].id == last + 1 {
        AcceptedAbove(last + 1, es[1..], s, n);
      }
    }
  }

  lemma {:induction false} AcceptedFromOne(es: seq<LogEntry>)
    requires !HasNumber(es, 1)
    ensures Accepted(0, es) == []
    decreases es
  {
    if es != [] {
      assert forall i :: 0 <= i < |es[1..]| ==> es[1..][i] == es[i + 1];
      AcceptedFromOne(es[1..]);
    }
  }

  /** A server holding s entries of h takes all that a batch goes on with. */
  lemma BatchAccepted(h: seq<LogEntry>, s: nat, es: seq<LogEntry>) returns (s': nat)
    requires Numbered(h) && s <= |h| && GoesOn(es, h, s)
    ensures s' == s + |Above(es, s)| <= |h| && Accepted(s, es) == h[s..s']
    ensures LastAfter(s, Accepted(s, es)) == s' && h[..s] + Accepted(s, es) == h[..s']
  {
    hide Accepted, Above;
    s' := s + |Above(es, s)|;
    assert Above(es, s) == h[s..][..s' - s] == h[s..s'];
    SliceInRange(h, s, s');
    AcceptedAbove(s, es, s, |h|);
    AcceptedSlice(h, s, s, s');
    LastOfSlice(h, s, s');
  }

  lemma SliceInRange(h: seq<LogEntry>, i: nat, j: nat)
    requires Numbered(h) && i <= j <= |h|
    ensures AllUpTo(h[i..j], |h|)
  {
  }

  lemma LastOfSlice(h: seq<LogEntry>, s: nat, s': nat)
    requires Numbered(h) && s <= s' <= |h|
    ensures LastAfter(s, h[s..s']) == s' && h[..s] + h[s..s'] == h[..s'] && (s == s' ==> h[s..s'] == [])
  {
    assert s < s' ==> h[s..s'][s' - s - 1] == h[s' - 1];
  }

  /** The server recovers the number of entries it holds. */
  lemma ServerIsCounter(file: File, es: seq<LogEntry>, stale: Stale)
    requires GoodHistory(es) && ServerHolds(file, es)
    ensures RecoverLast(file, stale) == |es|
  {
    RecoverLastIs(file, CounterServer(es, |es|), stale);
  }

  /** Delivering a batch to a server holding the first s entries. */
  lemma BatchDelivered(h: seq<LogEntry>, file: File, s: nat, es: seq<LogEntry>, stale: Stale, access: Access)
    returns (s': nat, reply: U64)
    requires GoodHistory(h) && s <= |h| && ServerHolds(file, h[..s]) && access.canAppend
    requires AllEncodable(es) && |es| <= BATCH && GoesOn(es, h, s)
    requires access.canRead || s == 0 || !HasNumber(es, 1)
    ensures s <= s' <= |h| && reply <= s'
    ensures Handle(file, LogMessage(es), stale, access) == Outcome(Some(Lines(h[..s'])), Some(AckMessage(reply)))
    ensures access.canRead ==> s' == s + |Above(es, s)| && reply == s'
  {
    hide Handle, Lines, AckMessage, LogMessage, RecoverLast, Accepted, LastAfter, HasNumber, Above;
    HandleMessage(file, es, stale, access);
    NoLines();
    if access.canRead || s == 0 {
      ServerIsCounter(file, h[..s], stale);
      NothingRead(stale);
      s' := BatchAccepted(h, s, es);
      reply := s';
      LinesConcat(h[..s], Accepted(s, es));
    } else {
      NothingRead(stale);
      AcceptedFromOne(es);
      NothingAccepted(0);
      s', reply := s, 0;
      assert file.value + [] == file.value;
    }
  }

  lemma NothingAccepted(last: U64)
    ensures LastAfter(last, []) == last
  {
  }

  lemma NothingRead(stale: Stale)
    ensures RecoverLast(None, stale) == 0
  {
  }

  lemma NoLines()
    ensures Lines([]) == []
  {
  }

  lemma NoLinesNoEntries(es: seq<LogEntry>)
    requires Lines(es) == []
    ensures es == []
  {
    hide TextBody;
  }

  // ---- the exchange: every step but a restart

  lemma RefusedWhenClosed(x: Sys, p: seq<Byte>, stale: Stale, access: Access)
    requires !access.canAppend
    ensures ServerGot(x, p, stale, access) == x
  {
  }

  /** A new entry that continues h. */
  lemma QueueGrows(q: Queue, h: seq<LogEntry>, s: U64, e: LogEntry)
    requires QueueHolds(q, h, s) && e.id == q.newId < TWO_64 - 1 && Encodable(e)
    requires e.id == |h| + 1 || e.id <= s
    ensures QueueHolds(Added(q.(newId := Succ(q.newId)), e), if e.id <= s then h else h + [e], s)
  {
    hide Encodable, Above;
    AboveSnoc(q.entries, e, s);
    assert e.id > s ==> (h + [e])[s..] == h[s..] + [e];
  }

  lemma BatchGrows(p: seq<Byte>, h: seq<LogEntry>, s: U64, e: LogEntry)
    requires IsBatch(p, h, s)
    ensures IsBatch(p, h + [e], s)
  {
    hide IsMessage, Above;
    var es :| IsMessage(p, es) && GoesOn(es, h, s);
    assert (h + [e])[s..] == h[s..] + [e];
  }

  lemma ExchangeGrows(x: Sys, h: seq<LogEntry>, s: U64, ev: Event) returns (h': seq<LogEntry>)
    requires Exchange(x, h, s) && ev.Generate? && Enabled(x, ev)
    requires x.queue.newId == |h| + 1 || x.queue.newId <= s
    ensures Exchange(Next(x, ev), h', s)
    ensures var e := LogEntry(x.queue.newId, ev.name, ev.timestamp, ev.kind, ev.value);
            h' == if e.id <= s then h else h + [e]
  {
    hide Lines, QueueHolds, IsBatch, IsAck, FilesAdded, TextSafe, RecoverLast, Opened, LogMessage;
    var e := LogEntry(x.queue.newId, ev.name, ev.timestamp, ev.kind, ev.value);
    QueueGrows(x.queue, h, s, e);
    InRange(x.queue, h, s);
    h' := if e.id <= s then h else h + [e];
    assert h'[..s] == h[..s];
    forall p | p in x.toServer
      ensures IsBatch(p, h', s)
    {
      BatchGrows(p, h, s, e);
    }
  }

  lemma InRange(q: Queue, h: seq<LogEntry>, s: U64)
    requires QueueHolds(q, h, s)
    ensures s <= |h|
  {
  }

  lemma MessageUnique(p: seq<Byte>, a: seq<LogEntry>, b: seq<LogEntry>, stale: Stale)
    requires IsMessage(p, a) && IsMessage(p, b)
    ensures a == b
  {
    hide LogMessage;
    assert p + [] == p;
    LogMessageBack(a, [], stale.bytes);
    LogMessageBack(b, [], stale.bytes);
  }

  /** The batch at the head of the queue. */
  lemma HeadIsBatch(q: Queue, h: seq<LogEntry>, s: U64)
    requires QueueHolds(q, h, s)
    ensures IsMessage(LogMessage(Batch(q, BATCH)), Batch(q, BATCH))
    ensures GoesOn(Batch(q, BATCH), h, s)
  {
    hide LogMessage, Encodable, Increasing;
    var b := BatchSize(q, BATCH);
    var batch := q.entries[..b];
    assert q.entries == batch + q.entries[b..];
    AboveConcat(batch, q.entries[b..], s);
  }

  lemma ExchangeSends(x: Sys, h: seq<LogEntry>, s: U64)
    requires Exchange(x, h, s)
    ensures Exchange(Sent(x), h, s)
  {
    hide Lines, LogMessage, IsAck, IsMessage, GoesOn, QueueHolds, Batch;
    HeadIsBatch(x.queue, h, s);
    assert IsBatch(LogMessage(Batch(x.queue, BATCH)), h, s);
    hide IsBatch;
  }

  /** With more entries at the server, less is above them. */
  lemma ServerAdvances(x: Sys, h: seq<LogEntry>, s: U64, s': U64, server: File, reply: U64)
    requires Exchange(x, h, s) && s <= s' <= |h| && reply <= s' && ServerHolds(server, h[..s'])
    ensures Exchange(x.(server := server, toClient := x.toClient + {AckMessage(reply)}), h, s')
  {
    hide Lines, LogMessage, AckMessage, GoesOn, IsMessage, ServerHolds, AllEncodable, Increasing;
    AboveAbove(x.queue.entries, s, s');
    AboveSlice(h, s, s');
    forall p | p in x.toServer
      ensures IsBatch(p, h, s')
    {
      var es :| IsMessage(p, es) && GoesOn(es, h, s);
      GoesOnLater(es, h, s, s');
    }
    assert IsAck(AckMessage(reply), s');
  }

  lemma ExchangeDelivers(x: Sys, h: seq<LogEntry>, s: U64, p: seq<Byte>, stale: Stale, access: Access)
    returns (s': U64)
    requires Exchange(x, h, s) && p in x.toServer && ReadsWell(x.server, p, stale, access)
    ensures Exchange(ServerGot(x, p, stale, access), h, s')
    ensures s <= s'
  {
    hide Lines, LogMessage, AckMessage, Handle, QueueHolds, GoodHistory, GoesOn, IsAck, StartsOver;
    s' := s;
    if !access.canAppend {
      RefusedWhenClosed(x, p, stale, access);
    } else {
      assert IsBatch(p, h, s);
      var es :| IsMessage(p, es) && GoesOn(es, h, s);
      InRange(x.queue, h, s);
      WellRead(x.server, h, s, es, stale, access);
      var k, reply := BatchDelivered(h, x.server, s, es, stale, access);
      NumbersFit(h, k);
      s' := k;
      ServerAdvances(x, h, s, s', Some(Lines(h[..s'])), reply);
    }
  }

  lemma NumbersFit(h: seq<LogEntry>, k: nat)
    requires GoodHistory(h) && k <= |h|
    ensures k < TWO_64 - 1
  {
  }

  /** What the condition on reading says about a batch. */
  lemma WellRead(server: File, h: seq<LogEntry>, s: nat, es: seq<LogEntry>, stale: Stale, access: Access)
    requires s <= |h| && ServerHolds(server, h[..s]) && AllEncodable(es) && |es| <= BATCH && access.canAppend
    ensures ReadsWell(server, LogMessage(es), stale, access) <==> access.canRead || s == 0 || !HasNumber(es, 1)
  {
    hide Lines, LogMessage;
    assert LogMessage(es) + [] == LogMessage(es);
    LogMessageBack(es, [], stale.bytes);
    NoLines();
    if server.ValueOr([]) == [] && s > 0 {
      NoLinesNoEntries(h[..s]);
    }
  }

  lemma QueueAcked(q: Queue, h: seq<LogEntry>, s: U64, id: U64)
    requires QueueHolds(q, h, s) && id <= s
    ensures QueueHolds(Acked(q, id), h, s)
    ensures Acked(q, id).entries == if id == q.ackId then q.entries else Above(q.entries, id)
  {
    hide Above, Popped, Encodable;
    PoppedIsAbove(q.entries, id);
    AboveKeeps(q.entries, id);
    AboveAbove(q.entries, id, s);
    var es := Above(q.entries, id);
    assert forall i :: 0 <= i < |es| ==> es[i] in q.entries;
  }

  lemma ExchangeAcked(x: Sys, h: seq<LogEntry>, s: U64, p: seq<Byte>, stale: Stale, ackWritten: bool)
    returns (id: U64)
    requires Exchange(x, h, s) && p in x.toClient
    ensures id <= s && p == AckMessage(id)
    ensures Exchange(ClientGot(x, p, stale, ackWritten), h, s)
    ensures ClientGot(x, p, stale, ackWritten)
            == x.(queue := Acked(x.queue, id), files := FilesAcked(x.queue, x.files, id, ackWritten))
  {
    hide Lines, LogMessage, AckMessage, AckIdOf, QueueHolds, IsBatch, GoodHistory, FilesAcked, Acked;
    assert IsAck(p, s);
    id :| id <= s && p == AckMessage(id);
    AckBack(id, stale);
    QueueAcked(x.queue, h, s, id);
    hide IsAck;
  }

  // ---- what the client's files hold

  lemma StoredAckIs(files: Files, a: U64, disk: Disk, stale: Stale)
    requires AckHolds(files.ack, a)
    ensures StoredAck(files, disk, stale) == if disk.readAck then a else 0
  {
    if files.ack != None {
      ExtractOfDecimal(a, stale.entry.id);
    }
  }

  /** The queue a restart builds. */
  lemma ReloadedIs(files: Files, f: seq<LogEntry>, a: U64, disk: Disk, stale: Stale)
    requires files.log.ValueOr([]) == Lines(f) && AllSafe(f) && AckHolds(files.ack, a)
    ensures var ackId: U64 := if disk.readAck then a else 0;
            var es := if disk.readLog then Above(f, ackId) else [];
            Opened(files, disk, stale) == Queue(ackId, es, NextId(es))
  {
    hide Lines, Above, Loaded, ExtractU64, Decimal;
    StoredAckIs(files, a, disk, stale);
    var ackId := StoredAck(files, disk, stale);
    if files.log == None {
      NoLinesNoEntries(f);
      NoneAbove(f, ackId);
    } else {
      LoadLines(f, ackId, stale);
    }
  }

  /** Appending a line, or failing to. */
  lemma FilesGrow(files: Files, h: seq<LogEntry>, m: Marks, g: nat, e: LogEntry, written: bool)
    requires FilesHold(files, h, m, g)
    requires e.id == |h| + 1 < TWO_64 - 1
    ensures FilesHold(FilesAdded(files, e, written), h + [e], m, if written then g else e.id)
  {
    hide TextLine, Lines, Above, AckHolds;
    var f :| LogHas(f, h, m.s, g) && files.log.ValueOr([]) == Lines(f);
    var h1, k := h + [e], Max(m.s, g);
    AmongMore(f, h, e);
    if written {
      LinesSnoc(f, e);
      AboveSnoc(f, e, k);
      assert h1[k..] == h[k..] + [e];
      assert LogHas(f + [e], h1, m.s, g);
    } else {
      NoneAbove(f, e.id);
      assert h1[|h1|..] == [];
      assert LogHas(f, h1, m.s, e.id);
    }
  }

  /** The server's progress asks less of the log file. */
  lemma LogAdvances(log: Option<seq<Byte>>, h: seq<LogEntry>, s: nat, s': U64, g: nat)
    requires LogHolds(log, h, s, g) && Numbered(h) && s <= s' <= |h|
    ensures LogHolds(log, h, s', g)
  {
    hide Lines, Above, Among;
    var f :| LogHas(f, h, s, g) && log.ValueOr([]) == Lines(f);
    AboveAbove(f, Max(s, g), Max(s', g));
    AboveSlice(h, Max(s, g), Max(s', g));
    assert LogHas(f, h, s', g);
  }

  lemma LogCompacted(f: seq<LogEntry>, h: seq<LogEntry>, s: nat, g: nat, a: U64)
    requires LogHas(f, h, s, g) && a <= s
    ensures LogHas(Above(f, a), h, s, g)
  {
    hide Above;
    AboveKeeps(f, a);
    AmongKeeps(f, h, a);
    AboveAbove(f, a, Max(s, g));
    assert forall i :: 0 <= i < |Above(f, a)| ==> Above(f, a)[i] in f;
  }

  /** Opening the files and destroying the constructor's parameter, compaction
      included, loses nothing that a later reload needs, if the log file was read. */
  lemma FilesReopened(h: seq<LogEntry>, files: Files, m: Marks, g: nat, disk: Disk, stale: Stale)
    returns (m': Marks)
    requires GoodHistory(h) && FilesHold(files, h, m, g) && (disk.readLog || h == [])
    ensures FilesHold(Destroyed(Opened(files, disk, stale), FilesOpened(files, disk), disk), h, m', g)
    ensures m'.s == m.s
  {
    hide Lines, Above, Opened, Decimal;
    var f :| LogHas(f, h, m.s, g) && files.log.ValueOr([]) == Lines(f);
    AmongIsGood(f, h);
    ReloadedIs(files, f, m.a, disk, stale);
    var q, files1 := Opened(files, disk, stale), FilesOpened(files, disk);
    LogCompacted(f, h, m.s, g, q.ackId);
    AboveKeeps(f, q.ackId);
    AllAbove(Above(f, q.ackId), q.ackId);
    NoLines();
    AmongNone(f, h);
    NoneAbove([], q.ackId);
    assert LogHolds(Cleaned(q, files1, disk).log, h, m.s, g);
    m' := Marks(m.s, if disk.writeAck then q.ackId
                     else if !disk.readAck && disk.createAck then 0 else m.a);
  }

  // ---- every step keeps the invariant

  lemma GenuineMore(p: seq<Byte>, h: seq<LogEntry>, e: LogEntry)
    requires IsGenuine(p, h)
    ensures IsGenuine(p, h + [e])
  {
    hide IsMessage;
    var es :| IsMessage(p, es) && Among(es, h);
    AmongMore(es, h, e);
  }

  lemma GenerateKeeps(x: Sys, m: Marks, ev: Event)
    requires Inv(x, m) && ev.Generate? && Enabled(x, ev)
    ensures Inv(Next(x, ev), m)
  {
    hide Exchange, FilesHold, FilesAdded, IsGenuine, Among, RecoverLast, Opened, TextSafe, LogMessage;
    var h, e := x.history, LogEntry(x.queue.newId, ev.name, ev.timestamp, ev.kind, ev.value);
    var h' := ExchangeGrows(x, h, m.s, ev);
    FilesGrow(x.files, h, m, x.gap, e, ev.written);
    AmongSnoc(x.queue.entries, h, e);
    QueueOf(x, h, m.s);
    forall p | p in x.toServer
      ensures IsGenuine(p, h + [e])
    {
      GenuineMore(p, h, e);
    }
    ExchangeIsLocal(Next(x, ev), h', m.s);
  }

  lemma ExchangeIsLocal(x: Sys, h: seq<LogEntry>, s: U64)
    requires Exchange(x, h, s)
    ensures |h| < TWO_64
  {
  }

  lemma AmongSnoc(es: seq<LogEntry>, h: seq<LogEntry>, e: LogEntry)
    requires Among(es, h) && e.id == |h| + 1
    ensures Among(es + [e], h + [e])
  {
  }

  lemma SendKeeps(x: Sys, m: Marks)
    requires Inv(x, m)
    ensures Inv(Sent(x), m)
  {
    hide Lines, FilesHold, LogMessage, IsBatch, IsAck, IsMessage;
    ExchangeSends(x, x.history, m.s);
    HeadIsBatch(x.queue, x.history, m.s);
    assert Among(Batch(x.queue, BATCH), x.history);
    assert IsGenuine(LogMessage(Batch(x.queue, BATCH)), x.history);
    hide Exchange, IsGenuine, Among;
  }

  lemma DeliverBatchKeeps(x: Sys, m: Marks, p: seq<Byte>, stale: Stale, access: Access) returns (m': Marks)
    requires Inv(x, m) && Enabled(x, DeliverBatch(p, stale, access))
    ensures Inv(ServerGot(x, p, stale, access), m')
    ensures m'.s >= m.s
  {
    hide Exchange, LogHolds, IsGenuine, Among, Handle, ReadsWell, RecoverLast, Opened;
    var s' := ExchangeDelivers(x, x.history, m.s, p, stale, access);
    m' := m.(s := s');
    ExchangeInRange(x, x.history, m.s);
    ExchangeInRange(ServerGot(x, p, stale, access), x.history, s');
    LogAdvances(x.files.log, x.history, m.s, s', x.gap);
  }

  lemma ExchangeInRange(x: Sys, h: seq<LogEntry>, s: U64)
    requires Exchange(x, h, s)
    ensures s <= |h| && GoodHistory(h) && Numbered(h)
  {
  }

  /** An ack drops the entries up to its number, if it is not the one already known. */
  lemma DeliverAckKeeps(x: Sys, m: Marks, p: seq<Byte>, stale: Stale, ackWritten: bool) returns (m': Marks)
    requires Inv(x, m) && p in x.toClient
    ensures Inv(ClientGot(x, p, stale, ackWritten), m')
    ensures m'.s == m.s && AckIdOf(p, stale).Some?
    ensures var id := AckIdOf(p, stale).value;
            m'.a == if id == x.queue.ackId || !ackWritten then m.a else id
  {
    hide LogHolds, IsGenuine, Above, Popped, Decimal, ClientGot, AckMessage, Exchange, AckIdOf;
    var id := ExchangeAcked(x, x.history, m.s, p, stale, ackWritten);
    AckBack(id, stale);
    QueueOf(x, x.history, m.s);
    QueueAcked(x.queue, x.history, m.s, id);
    AmongKeeps(x.queue.entries, x.history, id);
    AboveKeeps(x.queue.entries, id);
    hide Among, Increasing;
    m' := if id == x.queue.ackId || !ackWritten then m else m.(a := id);
  }

  lemma QueueOf(x: Sys, h: seq<LogEntry>, s: U64)
    requires Exchange(x, h, s)
    ensures QueueHolds(x.queue, h, s)
  {
  }

  lemma RestartKeeps(x: Sys, m: Marks, disk: Disk, stale: Stale) returns (m': Marks)
    requires Inv(x, m) && Enabled(x, Restart(disk, stale))
    ensures Inv(Restarted(x, disk, stale), m')
    ensures m'.s == m.s
  {
    hide Inv, Opened, Exchange, Genuine, RecoverLast;
    var q, y := Opened(x.files, disk, stale), Restarted(x, disk, stale);
    InvParts(x, m);
    ServerOf(x, x.history, m.s, stale);
    m' := FilesRestarted(x, m, disk, stale);
    QueueRestarted(x, m, disk, stale);
    ExchangeRequeued(x, x.history, m.s, q, y.files);
    GenuineRequeued(x, q, y.files);
    InvIs(y, m');
  }

  lemma InvParts(x: Sys, m: Marks)
    requires Inv(x, m)
    ensures m.s <= |x.history| < TWO_64 && x.queue.ackId <= m.s
    ensures Exchange(x, x.history, m.s) && QueueHolds(x.queue, x.history, m.s)
    ensures FilesHold(x.files, x.history, m, x.gap) && Genuine(x) && GoodHistory(x.history)
  {
    hide Genuine, FilesHold, IsBatch, IsAck, GoodHistory;
  }

  lemma InvIs(y: Sys, m: Marks)
    requires m.s <= |y.history| < TWO_64 && Exchange(y, y.history, m.s) && Genuine(y)
    requires FilesHold(y.files, y.history, m, y.gap)
    ensures Inv(y, m)
  {
  }

  lemma FilesRestarted(x: Sys, m: Marks, disk: Disk, stale: Stale) returns (m': Marks)
    requires GoodHistory(x.history) && FilesHold(x.files, x.history, m, x.gap) && RestartsWell(x, disk, stale)
    ensures FilesHold(Restarted(x, disk, stale).files, x.history, m', x.gap) && m'.s == m.s
  {
    hide FilesHold, Opened, Destroyed, FilesOpened, GoodHistory, RecoverLast;
    OnlyIfRead(x.files, disk, stale);
    m' := FilesReopened(x.history, x.files, m, x.gap, disk, stale);
  }

  lemma OnlyIfRead(files: Files, disk: Disk, stale: Stale)
    ensures !disk.readLog ==> Opened(files, disk, stale).entries == []
  {
  }

  lemma QueueRestarted(x: Sys, m: Marks, disk: Disk, stale: Stale)
    requires Inv(x, m) && RestartsWell(x, disk, stale) && (x.history == [] || x.gap <= m.s)
    ensures var q := Opened(x.files, disk, stale);
            && QueueHolds(q, x.history, m.s) && q.newId == |x.history| + 1
            && Among(q.entries, x.history) && AllOver(q.entries, q.ackId)
  {
    hide Lines, Above, Opened, RecoverLast, Exchange, Genuine, Among, Increasing, Decimal, QueueHolds;
    var h := x.history;
    ExchangeInRange(x, h, m.s);
    var f :| LogHas(f, h, m.s, x.gap) && x.files.log.ValueOr([]) == Lines(f);
    AmongIsGood(f, h);
    ReloadedIs(x.files, f, m.a, disk, stale);
    LastIsNewest(x, m, disk, stale);
    QueueReloaded(h, f, m.s, x.gap, Opened(x.files, disk, stale));
  }

  lemma GenuineRequeued(x: Sys, q: Queue, files: Files)
    requires Genuine(x) && q.newId == |x.history| + 1 && Among(q.entries, x.history) && AllOver(q.entries, q.ackId)
    ensures Genuine(x.(queue := q, files := files))
  {
    hide IsGenuine;
  }

  lemma ServerOf(x: Sys, h: seq<LogEntry>, s: U64, stale: Stale)
    requires Exchange(x, h, s)
    ensures s <= |h| && ServerHolds(x.server, h[..s]) && GoodHistory(h)
    ensures RecoverLast(x.server, stale) == s
  {
    ServerIsCounter(x.server, h[..s], stale);
  }

  lemma ExchangeRequeued(x: Sys, h: seq<LogEntry>, s: U64, q: Queue, files: Files)
    requires Exchange(x, h, s) && QueueHolds(q, h, s)
    ensures Exchange(x.(queue := q, files := files), h, s)
  {
    hide QueueHolds, IsBatch, IsAck;
  }

  /** The reloaded queue, once the numbering goes on and no line is missing past s. */
  lemma QueueReloaded(h: seq<LogEntry>, f: seq<LogEntry>, s: U64, g: nat, q: Queue)
    requires GoodHistory(h) && LogHas(f, h, s, g) && (g <= s || h == [])
    requires q.ackId <= s && q.newId == |h| + 1 && (q.entries == Above(f, q.ackId) || h == [] == q.entries)
    ensures QueueHolds(q, h, s) && Among(q.entries, h) && AllOver(q.entries, q.ackId)
  {
    hide Above, TextSafe, Encodable;
    AboveKeeps(f, q.ackId);
    AmongKeeps(f, h, q.ackId);
    AmongIsGood(q.entries, h);
    AboveAbove(f, q.ackId, s);
    NoneAbove([], s);
  }

  /** Only the last entry of the history can raise the numbering past it. */
  lemma LastIsNewest(x: Sys, m: Marks, disk: Disk, stale: Stale)
    requires Inv(x, m)
    ensures var h, q := x.history, Opened(x.files, disk, stale);
            q.newId == |h| + 1 <==> h == [] || h[|h| - 1] in q.entries
  {
    hide Opened, Lines, Decimal, Exchange, Genuine, Above, AllSafe, Among;
    var h := x.history;
    var f :| LogHas(f, h, m.s, x.gap) && x.files.log.ValueOr([]) == Lines(f);
    ExchangeInRange(x, h, m.s);
    AmongIsGood(f, h);
    ReloadedIs(x.files, f, m.a, disk, stale);
    NewestOf(f, h, Opened(x.files, disk, stale));
  }

  lemma NewestOf(f: seq<LogEntry>, h: seq<LogEntry>, q: Queue)
    requires Numbered(h) && Among(f, h) && Increasing(f) && AllUpTo(f, |h|)
    requires (q.entries == Above(f, q.ackId) || q.entries == []) && q.newId == NextId(q.entries)
    ensures q.newId == |h| + 1 <==> h == [] || h[|h| - 1] in q.entries
  {
    hide Above;
    AmongKeeps(f, h, q.ackId);
    AmongNone(q.entries, h);
    if q.entries != [] && h[|h| - 1] in q.entries {
      LastOfAbove(f, q.ackId, h[|h| - 1]);
    }
  }

  lemma LastOfAbove(f: seq<LogEntry>, a: U64, e: LogEntry)
    requires Increasing(f) && AllUpTo(f, e.id) && e in Above(f, a)
    ensures Above(f, a)[|Above(f, a)| - 1] == e
  {
    hide Above;
    AboveMember(f, a, e);
    var k :| 0 <= k < |f| && f[k] == e;
    var init, last := f[..|f| - 1], f[|f| - 1];
    assert k < |f| - 1 ==> e.id < last.id;
    assert f == init + [last];
    AboveSnoc(init, last, a);
  }

  lemma StepKeeps(x: Sys, m: Marks, ev: Event) returns (m': Marks)
    requires Inv(x, m) && Enabled(x, ev)
    ensures Inv(Next(x, ev), m')
    ensures m'.s >= m.s
  {
    hide Inv, Generated, Sent, ServerGot, ClientGot, Restarted, TextSafe, ReadsWell, RestartsWell;
    m' := m;
    match ev
    case Generate(_, _, _, _, _) => GenerateKeeps(x, m, ev);
    case Send => SendKeeps(x, m);
    case DeliverBatch(p, stale, access) => m' := DeliverBatchKeeps(x, m, p, stale, access);
    case DeliverAck(p, stale, ackWritten) => m' := DeliverAckKeeps(x, m, p, stale, ackWritten);
    case LoseBatch(p) => LossKeeps(x, m, {p}, {});
    case LoseAck(p) => LossKeeps(x, m, {}, {p});
    case Restart(disk, stale) => m' := RestartKeeps(x, m, disk, stale);
  }

  lemma LossKeeps(x: Sys, m: Marks, ps: set<seq<Byte>>, acks: set<seq<Byte>>)
    requires Inv(x, m)
    ensures Inv(x.(toServer := x.toServer - ps, toClient := x.toClient - acks), m)
    ensures x.(toServer := x.toServer - ps) == x.(toServer := x.toServer - ps, toClient := x.toClient - {})
    ensures x.(toClient := x.toClient - acks) == x.(toServer := x.toServer - {}, toClient := x.toClient - acks)
  {
    hide FilesHold, IsBatch, IsAck, IsGenuine, Lines, QueueHolds, Among;
    assert x.toClient - {} == x.toClient && x.toServer - {} == x.toServer;
  }

  lemma StartIsGood(disk: Disk, stale: Stale)
    ensures Inv(Start(disk, stale), Marks(0, 0))
  {
    assert Decimal(0) == [48];
    assert LogHas([], [], 0, 0) && Lines([]) == [];
  }

  lemma {:induction false} RunKeeps(x: Sys, m: Marks, evs: seq<Event>) returns (m': Marks)
    requires Inv(x, m) && Possible(x, evs)
    ensures Inv(After(x, evs), m')
    ensures m'.s >= m.s
    decreases evs
  {
    hide Inv, Next, Enabled;
    m' := m;
    if evs != [] {
      m' := StepKeeps(x, m, evs[0]);
      m' := RunKeeps(Next(x, evs[0]), m', evs[1..]);
    }
  }

  // ---- the main results

  lemma LinesOfSome(es: seq<LogEntry>)
    requires es != []
    ensures Lines(es) != []
  {
    hide TextBody;
  }

  lemma LongerPrefix(h: seq<LogEntry>, a: nat, b: nat)
    requires a < b <= |h|
    ensures Lines(h[..a]) != Lines(h[..b])
  {
    hide Lines;
    assert h[..b] == h[..a] + h[a..b];
    LinesConcat(h[..a], h[a..b]);
    LinesOfSome(h[a..b]);
  }

  /** A file holds the lines of only one prefix. */
  lemma PrefixIsUnique(file: File, h: seq<LogEntry>, a: nat, b: nat)
    requires a <= |h| && b <= |h| && ServerHolds(file, h[..a]) && ServerHolds(file, h[..b])
    ensures a == b
  {
    hide Lines;
    NoLines();
    if a < b {
      LongerPrefix(h, a, b);
    } else if b < a {
      LongerPrefix(h, b, a);
    }
  }

  /** The server's file is, byte for byte, the log lines of the first s entries
      ever generated; ids are 1, 2, 3, ... */
  ghost predicate DeliveredPrefix(x: Sys, s: nat) {
    && s <= |x.history|
    && ServerHolds(x.server, x.history[..s])
    && forall i :: 0 <= i < |x.history| ==> x.history[i].id == i + 1
  }

  /** Exactly once and in order: in every run, whatever is lost, duplicated,
      reordered or restarted, the server's file is a prefix of the history. */
  lemma ExactlyOnceInOrder(disk: Disk, stale: Stale, evs: seq<Event>)
    requires Possible(Start(disk, stale), evs)
    ensures exists s: nat :: DeliveredPrefix(After(Start(disk, stale), evs), s)
  {
    hide Possible, After, Lines, IsBatch, IsAck, QueueHolds, FilesHold, Genuine;
    StartIsGood(disk, stale);
    var m := RunKeeps(Start(disk, stale), Marks(0, 0), evs);
    assert DeliveredPrefix(After(Start(disk, stale), evs), m.s);
  }

  /** Every entry from place s on is in the queue, and would be reloaded if the log
      file can be read and it comes after the last entry whose line is missing. */
  predicate RestPending(x: Sys, s: nat, disk: Disk, reload: Stale) {
    forall i :: s <= i < |x.history| ==>
      && x.history[i] in x.queue.entries
      && (disk.readLog && i >= x.gap ==> x.history[i] in Opened(x.files, disk, reload).entries)
  }

  /** The history splits into what the server's file holds and what is pending. */
  ghost predicate SplitSomewhere(x: Sys, disk: Disk, reload: Stale) {
    exists s: nat :: DeliveredPrefix(x, s) && RestPending(x, s, disk, reload)
  }

  lemma InSuffix(h: seq<LogEntry>, q: nat, i: nat)
    requires q <= i < |h|
    ensures h[i] in h[q..]
  {
    assert h[i] == h[q..][i - q];
  }

  /** Entries past both marks are in the log file, and reloaded whatever the ack file says. */
  lemma WrittenIsReloaded(files: Files, h: seq<LogEntry>, m: Marks, g: nat, disk: Disk, stale: Stale, i: nat)
    requires GoodHistory(h) && FilesHold(files, h, m, g) && disk.readLog
    requires m.s <= i < |h| && g <= i
    ensures h[i] in Opened(files, disk, stale).entries
  {
    hide Opened, Lines, Above, Decimal, AllSafe, Among, Increasing;
    var f :| LogHas(f, h, m.s, g) && files.log.ValueOr([]) == Lines(f);
    AmongIsGood(f, h);
    ReloadedIs(files, f, m.a, disk, stale);
    InSuffix(h, Max(m.s, g), i);
    AboveMember(f, Max(m.s, g), h[i]);
    AboveMember(f, Opened(files, disk, stale).ackId, h[i]);
  }

  /** The entry whose line is missing is not reloaded, and nothing is if the log
      file cannot be read. */
  lemma GapNotReloaded(files: Files, h: seq<LogEntry>, m: Marks, g: nat, disk: Disk, stale: Stale)
    requires GoodHistory(h) && FilesHold(files, h, m, g)
    ensures !HasNumber(Opened(files, disk, stale).entries, g)
    ensures !disk.readLog ==> Opened(files, disk, stale).entries == []
    ensures g <= |h|
  {
    hide Opened, Lines, Above, Decimal, AllSafe, Among, Increasing;
    var f :| LogHas(f, h, m.s, g) && files.log.ValueOr([]) == Lines(f);
    AmongIsGood(f, h);
    ReloadedIs(files, f, m.a, disk, stale);
    var q := Opened(files, disk, stale);
    AboveKeeps(f, q.ackId);
    assert forall i :: 0 <= i < |q.entries| ==> q.entries[i] in f;
  }

  lemma QueuedIsAbove(q: Queue, h: seq<LogEntry>, s: U64, i: nat)
    requires QueueHolds(q, h, s) && s <= i < |h|
    ensures h[i] in q.entries
  {
    hide Above, AllEncodable, Increasing;
    InSuffix(h, s, i);
    AboveMember(q.entries, s, h[i]);
  }

  lemma InvRestPending(x: Sys, m: Marks, disk: Disk, reload: Stale)
    requires Inv(x, m)
    ensures DeliveredPrefix(x, m.s) && RestPending(x, m.s, disk, reload)
    ensures SplitSomewhere(x, disk, reload)
  {
    hide Lines, Opened, FilesHold, Genuine, QueueHolds, IsBatch, IsAck;
    forall i | m.s <= i < |x.history|
      ensures x.history[i] in x.queue.entries
      ensures disk.readLog && i >= x.gap ==> x.history[i] in Opened(x.files, disk, reload).entries
    {
      QueuedIsAbove(x.queue, x.history, m.s, i);
      if disk.readLog && i >= x.gap {
        WrittenIsReloaded(x.files, x.history, m, x.gap, disk, reload, i);
      }
    }
  }

  /** Nothing is lost: in the same runs every entry the server's file does not
      hold is still in the client's queue, and would be again after a crash at
      this very point, whatever the ack file says, if the log file can be read and
      the entry was logged after the last append that failed. */
  lemma NothingLost(disk: Disk, stale: Stale, evs: seq<Event>, reloadDisk: Disk, reload: Stale)
    requires Possible(Start(disk, stale), evs)
    ensures SplitSomewhere(After(Start(disk, stale), evs), reloadDisk, reload)
  {
    hide Inv, Possible, After, SplitSomewhere;
    StartIsGood(disk, stale);
    var m := RunKeeps(Start(disk, stale), Marks(0, 0), evs);
    InvRestPending(After(Start(disk, stale), evs), m, reloadDisk, reload);
  }

  lemma {:induction false} HistoryGrows(x: Sys, evs: seq<Event>)
    ensures x.history <= After(x, evs).history
    decreases evs
  {
    if evs != [] {
      StepGrows(x, evs[0]);
      hide Next;
      HistoryGrows(Next(x, evs[0]), evs[1..]);
    }
  }

  lemma StepGrows(x: Sys, ev: Event)
    ensures x.history <= Next(x, ev).history
  {
  }

  /** What the server has written it keeps: along any run its file only grows. */
  lemma ServerFileGrows(x: Sys, m: Marks, evs: seq<Event>)
    requires Inv(x, m) && Possible(x, evs)
    ensures x.server.ValueOr([]) <= After(x, evs).server.ValueOr([])
  {
    hide Lines, Possible, After, Genuine, FilesHold, QueueHolds, IsBatch, IsAck, GoodHistory;
    var m' := RunKeeps(x, m, evs);
    var y := After(x, evs);
    HistoryGrows(x, evs);
    NoLines();
    assert y.history[..m'.s] == x.history[..m.s] + y.history[m.s..m'.s];
    LinesConcat(x.history[..m.s], y.history[m.s..m'.s]);
  }
}
