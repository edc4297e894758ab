/** How fast the protocol drains, and when it does not move at all. */
module Progress {
  import opened Bytes
  import opened LogEntries
  import opened LogQueues
  import opened LogServer
  import opened ClientLoggers
  import opened Protocol

  /** One lossless round trip: the client sends its batch (nothing if it is
      empty), the server reads its file and handles it, the client handles the reply. */
  function RoundTrip(x: Sys, atServer: Stale, atClient: Stale): Sys {
    var batch := Batch(x.queue, BATCH);
    if batch == [] then x
    else
      var x1 := Sent(x);
      var o := Handle(x1.server, LogMessage(batch), atServer, FULL);
      var x2 := ServerGot(x1, LogMessage(batch), atServer, FULL);
      if o.reply == None then x2 else ClientGot(x2, o.reply.value, atClient, true)
  }

  /** A round trip is three steps of the protocol, if the message fits its frame. */
  lemma RoundTripIsARun(x: Sys, atServer: Stale, atClient: Stale) returns (evs: seq<Event>)
    requires Enabled(x, Send)
    ensures Possible(x, evs) && After(x, evs) == RoundTrip(x, atServer, atClient)
    ensures NoRestart(evs) && ServerReads(evs)
  {
    hide Lines, LogMessage, AckMessage, Handle, ClientGot, StartsOver;
    var batch := Batch(x.queue, BATCH);
    if batch == [] {
      evs := [];
    } else {
      var p := LogMessage(batch);
      var o := Handle(x.server, p, atServer, FULL);
      if o.reply == None {
        evs := [Send, DeliverBatch(p, atServer, FULL)];
        TwoSteps(x, Send, DeliverBatch(p, atServer, FULL));
      } else {
        evs := [Send, DeliverBatch(p, atServer, FULL), DeliverAck(o.reply.value, atClient, true)];
        ThreeSteps(x, Send, DeliverBatch(p, atServer, FULL), DeliverAck(o.reply.value, atClient, true));
      }
    }
  }

  lemma {:induction false} AfterConcat(x: Sys, a: seq<Event>, b: seq<Event>)
    ensures After(x, a + b) == After(After(x, a), b)
    ensures Possible(x, a + b) <==> Possible(x, a) && Possible(After(x, a), b)
    decreases a
  {
    hide Next, Enabled;
    if a == [] {
      assert a + b == b;
    } else {
      assert (a + b)[1..] == a[1..] + b;
      AfterConcat(Next(x, a[0]), a[1..], b);
    }
  }

  lemma AfterOne(x: Sys, ev: Event)
    ensures After(x, [ev]) == Next(x, ev)
    ensures Possible(x, [ev]) <==> Enabled(x, ev)
  {
    hide Next, Enabled;
    assert [ev][1..] == [];
    assert After(Next(x, ev), []) == Next(x, ev) && Possible(Next(x, ev), []);
  }

  lemma TwoSteps(x: Sys, a: Event, b: Event)
    ensures Possible(x, [a, b]) <==> Enabled(x, a) && Enabled(Next(x, a), b)
    ensures After(x, [a, b]) == Next(Next(x, a), b)
  {
    hide Enabled, Next;
    assert [a, b][1..] == [b] && [b][1..] == [];
    assert Possible(Next(Next(x, a), b), []) && After(Next(Next(x, a), b), []) == Next(Next(x, a), b);
    assert After(Next(x, a), [b]) == Next(Next(x, a), b);
  }

  lemma ThreeSteps(x: Sys, a: Event, b: Event, c: Event)
    ensures Possible(x, [a, b, c]) <==> Enabled(x, a) && Enabled(Next(x, a), b) && Enabled(Next(Next(x, a), b), c)
    ensures After(x, [a, b, c]) == Next(Next(Next(x, a), b), c)
  {
    hide Enabled, Next;
    assert [a, b, c][1..] == [b, c];
    TwoSteps(Next(x, a), b, c);
  }

  /** The effect of a round trip once the server's answer is known. */
  lemma TripOf(x: Sys, batch: seq<LogEntry>, server: File, k: U64, atServer: Stale, atClient: Stale)
    requires batch == Batch(x.queue, BATCH) && batch != []
    requires Handle(x.server, LogMessage(batch), atServer, FULL) == Outcome(server, Some(AckMessage(k)))
    ensures RoundTrip(x, atServer, atClient)
            == x.(server := server, toServer := x.toServer + {LogMessage(batch)},
                  toClient := x.toClient + {AckMessage(k)},
                  queue := Acked(x.queue, k), files := FilesAcked(x.queue, x.files, k, true))
  {
    hide Handle, LogMessage, AckMessage, AckIdOf, Popped, Decimal;
    AckBack(k, atClient);
  }

  /** A round trip keeps the exchange going. */
  lemma TripExchanges(x: Sys, h: seq<LogEntry>, s: U64, atServer: Stale, atClient: Stale) returns (s': U64)
    requires Exchange(x, h, s) && Batch(x.queue, BATCH) != []
    ensures s' == Max(s, |h| - |x.queue.entries| + BatchSize(x.queue, BATCH)) <= |h|
    ensures RoundTrip(x, atServer, atClient)
            == x.(server := Some(Lines(h[..s'])), toServer := x.toServer + {LogMessage(Batch(x.queue, BATCH))},
                  toClient := x.toClient + {AckMessage(s')},
                  queue := Acked(x.queue, s'), files := FilesAcked(x.queue, x.files, s', true))
    ensures Exchange(RoundTrip(x, atServer, atClient), h, s')
  {
    hide Lines, LogMessage, AckMessage, Handle, Exchange, Acked, FilesAcked, AckIdOf;
    s' := HeadDelivered(x, h, s, atServer);
    var batch, server := Batch(x.queue, BATCH), Some(Lines(h[..s']));
    TripOf(x, batch, server, s', atServer, atClient);
    ExchangeSends(x, h, s);
    var x1 := Sent(x);
    assert ServerHolds(server, h[..s']);
    ServerAdvances(x1, h, s, s', server, s');
    var x2 := x1.(server := server, toClient := x1.toClient + {AckMessage(s')});
    var id := ExchangeAcked(x2, h, s', AckMessage(s'), atClient, true);
    AckBack(s', atClient);
    AckBack(id, atClient);
  }

  /** How many of an ordered queue's first b entries are above s. */
  lemma HeadAbove(es: seq<LogEntry>, h: seq<LogEntry>, s: U64, b: nat)
    requires s <= |h| && b <= |es| && Increasing(es) && Above(es, s) == h[s..]
    ensures |es| >= |h| - s
    ensures s + |Above(es[..b], s)| == Max(s, |h| - |es| + b)
  {
    var low := |es| - |Above(es, s)|;
    LowFirst(es, s);
    if b <= low {
      NoneAbove(es[..b], s);
    } else {
      assert es[..b] == es[..low] + es[low..b];
      AboveConcat(es[..low], es[low..b], s);
      NoneAbove(es[..low], s);
      AllAbove(es[low..b], s);
    }
  }

  /** The entries up to s come first. */
  lemma {:induction false} LowFirst(es: seq<LogEntry>, s: U64)
    requires Increasing(es)
    ensures |Above(es, s)| <= |es|
    ensures var low := |es| - |Above(es, s)|;
            AllUpTo(es[..low], s) && AllOver(es[low..], s)
  {
    if es != [] {
      if es[0].id > s {
        AllAbove(es, s);
      } else {
        var rest := es[1..];
        LowFirst(rest, s);
        var low := |rest| - |Above(rest, s)|;
        hide Above, Increasing;
        assert es[..low + 1] == [es[0]] + rest[..low];
        assert es[low + 1..] == rest[low..];
      }
    }
  }

  /** What the server makes of the batch at the head of the queue. */
  lemma HeadDelivered(x: Sys, h: seq<LogEntry>, s: U64, stale: Stale) returns (s': U64)
    requires Exchange(x, h, s)
    ensures s' == Max(s, |h| - |x.queue.entries| + BatchSize(x.queue, BATCH)) <= |h|
    ensures Handle(x.server, LogMessage(Batch(x.queue, BATCH)), stale, FULL)
         == Outcome(Some(Lines(h[..s'])), Some(AckMessage(s')))
  {
    hide Handle, Lines, LogMessage, AckMessage, Accepted, Exchange, Increasing, Above, GoesOn, Batch;
    var batch := Batch(x.queue, BATCH);
    QueueOf(x, h, s);
    ServerOf(x, h, s, stale);
    HeadIsBatch(x.queue, h, s);
    var k, reply := BatchDelivered(h, x.server, s, batch, stale, FULL);
    NumbersFit(h, k);
    s' := k;
    HeadCount(x.queue, h, s);
  }

  lemma HeadCount(q: Queue, h: seq<LogEntry>, s: U64)
    requires QueueHolds(q, h, s)
    ensures s + |Above(Batch(q, BATCH), s)| == Max(s, |h| - |q.entries| + BatchSize(q, BATCH))
  {
    hide Above, AllEncodable;
    HeadAbove(q.entries, h, s, BatchSize(q, BATCH));
  }

  /** The effect of a round trip, from any state of any run: with b the batch size
      and n the queue's, the server ends with max(s, |history| - n + b) entries, and
      the queue with exactly the rest. */
  lemma RoundTripMoves(x: Sys, m: Marks, atServer: Stale, atClient: Stale) returns (m': Marks)
    requires Inv(x, m)
    ensures var b := BatchSize(x.queue, BATCH);
            var y := RoundTrip(x, atServer, atClient);
            && y.history == x.history
            && Inv(y, m')
            && if b == 0 then y == x && m' == m
               else && m'.s == Max(m.s, |x.history| - |x.queue.entries| + b)
                    && y.queue.entries == x.history[m'.s..]
                    && (m'.s > m.s ==> m'.a == m'.s)
  {
    hide Lines, LogMessage, AckMessage, Handle, FilesHold, Exchange, Inv, ServerGot, ClientGot, Acked, Above;
    m' := m;
    if BatchSize(x.queue, BATCH) > 0 {
      var batch := Batch(x.queue, BATCH);
      InvParts(x, m);
      var s' := HeadDelivered(x, x.history, m.s, atServer);
      TripOf(x, batch, Some(Lines(x.history[..s'])), s', atServer, atClient);
      var m2 := TripKeeps(x, m, batch, s', atServer, atClient);
      m' := m2;
    }
  }

  lemma TripKeeps(x: Sys, m: Marks, batch: seq<LogEntry>, s': U64, atServer: Stale, atClient: Stale)
    returns (m': Marks)
    requires Inv(x, m) && batch == Batch(x.queue, BATCH) && batch != [] && m.s <= s' <= |x.history|
    requires Handle(x.server, LogMessage(batch), atServer, FULL)
             == Outcome(Some(Lines(x.history[..s'])), Some(AckMessage(s')))
    ensures Inv(RoundTrip(x, atServer, atClient), m') && m'.s == s'
    ensures RoundTrip(x, atServer, atClient).queue.entries == x.history[s'..]
    ensures s' > m.s ==> m'.a == s'
  {
    hide Lines, LogMessage, AckMessage, Handle, Inv, AckIdOf, Acked, FilesAcked, ReadsWell;
    var p := LogMessage(batch);
    var x1 := Sent(x);
    InvParts(x, m);
    SendKeeps(x, m);
    var x2 := ServerGot(x1, p, atServer, FULL);
    ReadsFull(x1.server, p, atServer);
    var m2 := DeliverBatchKeeps(x1, m, p, atServer, FULL);
    SameServer(x2, m2, s');
    var y := ClientGot(x2, AckMessage(s'), atClient, true);
    m' := DeliverAckKeeps(x2, m2, AckMessage(s'), atClient, true);
    AckBack(s', atClient);
    AckIsKnown(x2, s', atClient);
    KnownLeavesRest(y, m');
  }

  lemma ReadsFull(server: File, p: seq<Byte>, stale: Stale)
    ensures ReadsWell(server, p, stale, FULL)
  {
  }

  lemma SameServer(x: Sys, m: Marks, s': U64)
    requires Inv(x, m) && s' <= |x.history| && x.server == Some(Lines(x.history[..s']))
    ensures m.s == s'
  {
    hide QueueHolds, Genuine, FilesHold, IsBatch, IsAck, Lines;
    PrefixIsUnique(x.server, x.history, m.s, s');
  }

  lemma AckIsKnown(x: Sys, id: U64, stale: Stale)
    ensures var y := ClientGot(x, AckMessage(id), stale, true);
            y.queue.ackId == id && y.history == x.history
  {
    hide AckIdOf, AckMessage, Decimal, Popped;
    AckBack(id, stale);
  }

  /** When the newest ack is known, the queue is exactly the rest. */
  lemma KnownLeavesRest(x: Sys, m: Marks)
    requires Inv(x, m) && x.queue.ackId == m.s
    ensures x.queue.entries == x.history[m.s..]
  {
    hide Lines, FilesHold, IsBatch, IsAck, IsGenuine, Above;
    AllAbove(x.queue.entries, m.s);
  }

  function Trips(x: Sys, k: nat, atServer: Stale, atClient: Stale): Sys {
    if k == 0 then x else RoundTrip(Trips(x, k - 1, atServer, atClient), atServer, atClient)
  }

  /** How many entries are delivered after k round trips without new logs, when s of
      the n entries are delivered and the queue holds `pending`. */
  function DeliveredAfter(s: nat, n: nat, pending: nat, k: nat): int {
    if k == 0 then s else Min(n, Max(s, n - pending + Min(BATCH, pending)) + BATCH * (k - 1))
  }

  lemma {:induction false} TripsMove(x: Sys, m: Marks, k: nat, atServer: Stale, atClient: Stale) returns (m': Marks)
    requires Inv(x, m) && |x.queue.entries| < TWO_32
    ensures var y := Trips(x, k, atServer, atClient);
            && Inv(y, m') && y.history == x.history
            && m'.s == DeliveredAfter(m.s, |x.history|, |x.queue.entries|, k)
            && (if k == 0 || x.queue.entries == [] then y == x else y.queue.entries == y.history[m'.s..])
            && |y.queue.entries| <= |x.queue.entries|
  {
    hide Inv, RoundTrip, DeliveredAfter;
    m' := m;
    PendingCovers(x, m);
    NoneDelivered(m.s, |x.history|, |x.queue.entries|);
    if k > 0 {
      var m1 := TripsMove(x, m, k - 1, atServer, atClient);
      var y := Trips(x, k - 1, atServer, atClient);
      PendingCovers(y, m1);
      m' := RoundTripMoves(y, m1, atServer, atClient);
      DeliveredNext(m.s, |x.history|, |x.queue.entries|, k, m1.s, |y.queue.entries|);
      PendingCovers(RoundTrip(y, atServer, atClient), m');
    }
  }

  lemma NoneDelivered(s: nat, n: nat, pending: nat)
    ensures DeliveredAfter(s, n, pending, 0) == s
  {
  }

  /** One more trip, from s1 delivered and `left` pending. */
  lemma DeliveredNext(s: nat, n: nat, pending: nat, k: nat, s1: nat, left: nat)
    requires s <= n && n - s <= pending && k > 0
    requires s1 == DeliveredAfter(s, n, pending, k - 1)
    requires left == if k == 1 || pending == 0 then pending else n - s1
    ensures DeliveredAfter(s, n, pending, k)
            == if left == 0 then s1 else Max(s1, n - left + Min(BATCH, left))
  {
  }

  /** The queue holds at least what the server lacks. */
  lemma PendingCovers(x: Sys, m: Marks)
    requires Inv(x, m)
    ensures |x.history| - m.s <= |x.queue.entries| && m.s <= |x.history|
  {
    hide Lines, FilesHold, IsBatch, IsAck, Genuine, Above;
    HeadAbove(x.queue.entries, x.history, m.s, 0);
  }

  /** The queue is exactly what the server's file lacks. */
  predicate QueueIsRest(x: Sys, m: Marks) {
    m.s <= |x.history| && x.queue.entries == x.history[m.s..]
  }

  /** Exact drain: with fewer than 2^32 entries pending, all of them undelivered, k
      round trips empty the queue exactly when 100 k reaches the number pending, and
      then the server's file holds the whole history. */
  lemma DrainsExactly(x: Sys, m: Marks, k: nat, atServer: Stale, atClient: Stale)
    requires Inv(x, m) && QueueIsRest(x, m) && |x.queue.entries| < TWO_32
    ensures var y := Trips(x, k, atServer, atClient);
            && (y.queue.entries == [] <==> 100 * k >= |x.queue.entries|)
            && (y.queue.entries == [] ==> ServerHolds(y.server, x.history))
  {
    hide Inv, Trips, Lines;
    var m' := TripsMove(x, m, k, atServer, atClient);
    PendingCovers(Trips(x, k, atServer, atClient), m');
    WholeServer(Trips(x, k, atServer, atClient), m');
  }

  lemma WholeServer(x: Sys, m: Marks)
    requires Inv(x, m)
    ensures m.s == |x.history| ==> ServerHolds(x.server, x.history)
  {
    hide QueueHolds, Genuine, FilesHold, IsBatch, IsAck, Lines;
    assert x.history[..|x.history|] == x.history;
  }

  /** With 2^32 entries or more pending, all undelivered, the queue never gets below 2^32. */
  lemma {:induction false} TripsFloor(x: Sys, m: Marks, k: nat, atServer: Stale, atClient: Stale) returns (m': Marks)
    requires Inv(x, m) && QueueIsRest(x, m) && |x.queue.entries| >= TWO_32
    ensures var y := Trips(x, k, atServer, atClient);
            Inv(y, m') && QueueIsRest(y, m') && |y.queue.entries| >= TWO_32
  {
    hide Inv, RoundTrip;
    m' := m;
    if k > 0 {
      var m1 := TripsFloor(x, m, k - 1, atServer, atClient);
      m' := RoundTripMoves(Trips(x, k - 1, atServer, atClient), m1, atServer, atClient);
    }
  }

  lemma {:induction false} TripsShift(x: Sys, k: nat, atServer: Stale, atClient: Stale)
    ensures Trips(x, k + 1, atServer, atClient) == Trips(RoundTrip(x, atServer, atClient), k, atServer, atClient)
  {
    hide RoundTrip;
    if k > 0 {
      TripsShift(x, k - 1, atServer, atClient);
    }
  }

  /** When any number of lossless round trips drains the queue at all, from any state
      of any run: with fewer than 2^32 entries pending, or if the first trip moves
      and leaves fewer. */
  lemma DrainsEverIff(x: Sys, m: Marks, atServer: Stale, atClient: Stale)
    requires Inv(x, m)
    ensures var n, b := |x.queue.entries|, BatchSize(x.queue, BATCH);
            (exists k: nat :: Trips(x, k, atServer, atClient).queue.entries == [])
            <==> n < TWO_32 || (b > 0 && |x.history| - Max(m.s, |x.history| - n + b) < TWO_32)
  {
    hide Inv, RoundTrip, Trips;
    var n, b := |x.queue.entries|, BatchSize(x.queue, BATCH);
    var y := RoundTrip(x, atServer, atClient);
    var m' := RoundTripMoves(x, m, atServer, atClient);
    NoTrips(x, atServer, atClient);
    if n < TWO_32 {
      DrainsFromAnywhere(x, m, n + 1, atServer, atClient);
    } else if b == 0 {
      forall k: nat ensures Trips(x, k, atServer, atClient).queue.entries != [] {
        SilentTrips(x, k, atServer, atClient);
      }
    } else {
      PendingCovers(y, m');
      if |x.history| - m'.s < TWO_32 {
        DrainsFromAnywhere(y, m', n + 1, atServer, atClient);
        TripsShift(x, n + 1, atServer, atClient);
      } else {
        forall k: nat ensures Trips(x, k, atServer, atClient).queue.entries != [] {
          if k > 0 {
            TripsShift(x, k - 1, atServer, atClient);
            var m2 := TripsFloor(y, m', k - 1, atServer, atClient);
          }
        }
      }
    }
  }

  lemma NoTrips(x: Sys, atServer: Stale, atClient: Stale)
    ensures Trips(x, 0, atServer, atClient) == x
  {
  }

  lemma {:induction false} SilentTrips(x: Sys, k: nat, atServer: Stale, atClient: Stale)
    requires RoundTrip(x, atServer, atClient) == x
    ensures Trips(x, k, atServer, atClient) == x
  {
    hide RoundTrip;
    if k > 0 {
      SilentTrips(x, k - 1, atServer, atClient);
    }
  }

  /** From any state of any run, wherever stale acks and restarts left the marks,
      1 + ceil(pending / 100) round trips are enough. */
  lemma DrainsFromAnywhere(x: Sys, m: Marks, k: nat, atServer: Stale, atClient: Stale)
    requires Inv(x, m) && |x.queue.entries| < TWO_32
    requires k >= 1 && 100 * (k - 1) >= |x.queue.entries|
    ensures var y := Trips(x, k, atServer, atClient);
            y.queue.entries == [] && ServerHolds(y.server, x.history)
  {
    hide Inv, Trips, Lines;
    PendingCovers(x, m);
    var m' := TripsMove(x, m, k, atServer, atClient);
    PendingCovers(Trips(x, k, atServer, atClient), m');
    WholeServer(Trips(x, k, atServer, atClient), m');
  }

  /** A round trip does nothing at all exactly when the queue's size is a multiple
      of 2^32, be it empty or not: the size is narrowed to 32 bits before it is
      compared with the batch size. */
  lemma SilentIff(x: Sys, m: Marks, atServer: Stale, atClient: Stale)
    requires Inv(x, m)
    ensures RoundTrip(x, atServer, atClient) == x <==> |x.queue.entries| % TWO_32 == 0
  {
    hide Inv, RoundTrip;
    PendingCovers(x, m);
    var m' := RoundTripMoves(x, m, atServer, atClient);
    if RoundTrip(x, atServer, atClient) == x && BatchSize(x.queue, BATCH) > 0 {
      SameMark(x, m, m');
    }
  }

  lemma SameMark(x: Sys, m: Marks, m': Marks)
    requires Inv(x, m) && Inv(x, m')
    ensures m.s == m'.s
  {
    hide QueueHolds, Genuine, FilesHold, IsBatch, IsAck, Lines;
    PrefixIsUnique(x.server, x.history, m.s, m'.s);
  }
}
