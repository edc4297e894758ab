/** The running programs refine the protocol: the methods of the client's logger and
    of the server's handler, put together, take exactly the protocol's steps. */
module Deployments {
  import opened Bytes
  import Framing
  import opened Streams
  import opened Serializable
  import opened LogEntries
  import opened LogQueues
  import opened LogServer
  import opened ClientLoggers
  import opened Protocol
  import opened Progress

  /** Logging the reports from number `first` on; canWrite says which appends succeed. */
  function LogEvents(rs: seq<Report>, first: U64, canWrite: U64 -> bool, now: U64): seq<Event> {
    if rs == [] then []
    else
      var r := rs[|rs| - 1];
      LogEvents(rs[..|rs| - 1], first, canWrite, now)
      + [Generate(r.name, now, r.kind, r.value, canWrite((first + |rs| - 1) % TWO_64))]
  }

  /** What logging changes, and what it does not. */
  ghost predicate LoggedFrom(x: Sys, y: Sys, rs: seq<Report>, canWrite: U64 -> bool, now: U64) {
    && y.queue == Logged(x.queue, rs, now)
    && y.files == FilesLogged(x.files, Numbered64(rs, x.queue.newId, now), canWrite)
    && y == x.(history := y.history, gap := y.gap, queue := y.queue, files := y.files)
  }

  /** Logging one report is one Generate step. */
  lemma LoggedOne(x: Sys, r: Report, canWrite: U64 -> bool, now: U64)
    ensures LoggedFrom(x, Next(x, Generate(r.name, now, r.kind, r.value, canWrite(x.queue.newId))), [r], canWrite, now)
  {
    hide TextLine, FilesAdded;
    var e := LogEntry(x.queue.newId, r.name, now, r.kind, r.value);
    assert Numbered64([r], x.queue.newId, now) == [e] && [e][..0] == [];
    assert FilesLogged(x.files, [e], canWrite) == FilesAdded(x.files, e, canWrite(e.id));
    assert (x.queue.newId + 1) % TWO_64 == Succ(x.queue.newId);
  }

  /** Logging any reports is that many Generate steps. */
  lemma {:induction false} LoggingIsARun(x: Sys, rs: seq<Report>, canWrite: U64 -> bool, now: U64)
    ensures LoggedFrom(x, After(x, LogEvents(rs, x.queue.newId, canWrite, now)), rs, canWrite, now)
  {
    hide FilesLogged, Next, Numbered64;
    if rs == [] {
      NothingLogged(x.queue, now);
      FilesUntouched(x, canWrite, now);
    } else {
      var init, r := rs[..|rs| - 1], rs[|rs| - 1];
      var y := After(x, LogEvents(init, x.queue.newId, canWrite, now));
      LoggingIsARun(x, init, canWrite, now);
      var ev := Generate(r.name, now, r.kind, r.value, canWrite(y.queue.newId));
      AfterConcat(x, LogEvents(init, x.queue.newId, canWrite, now), [ev]);
      AfterOne(y, ev);
      LoggedOne(y, r, canWrite, now);
      LoggedMore(x.queue, x.files, init, r, canWrite, now);
      assert rs == init + [r];
    }
  }

  lemma FilesUntouched(x: Sys, canWrite: U64 -> bool, now: U64)
    ensures FilesLogged(x.files, Numbered64([], x.queue.newId, now), canWrite) == x.files
  {
  }

  /** Names that fit the text form and the length field. */
  predicate Nameable(name: seq<Byte>) {
    TextSafe(name) && |name| < TWO_32
  }

  /** From a good state, with good names and ids to spare, logging keeps the
      protocol's invariant: the queue stays contiguous and continues the numbering. */
  lemma {:induction false} LoggingKeeps(x: Sys, m: Marks, rs: seq<Report>, canWrite: U64 -> bool, now: U64)
    requires Inv(x, m) && x.queue.newId + |rs| < TWO_64
    requires forall i :: 0 <= i < |rs| ==> Nameable(rs[i].name)
    ensures var evs := LogEvents(rs, x.queue.newId, canWrite, now);
            && Possible(x, evs) && Inv(After(x, evs), m)
            && After(x, evs).queue.newId == x.queue.newId + |rs|
  {
    hide Inv, Generated, FilesLogged, Numbered64;
    if rs != [] {
      var init, r := rs[..|rs| - 1], rs[|rs| - 1];
      LoggingKeeps(x, m, init, canWrite, now);
      var y := After(x, LogEvents(init, x.queue.newId, canWrite, now));
      var ev := Generate(r.name, now, r.kind, r.value, canWrite(y.queue.newId));
      AfterConcat(x, LogEvents(init, x.queue.newId, canWrite, now), [ev]);
      AfterOne(y, ev);
      GenerateKeeps(y, m, ev);
      LoggedOne(y, r, canWrite, now);
    }
  }

  /** One client, its directory, one server and the messages under way. */
  class Deployment {
    const dir: Directory
    const handler: ClientHandler
    var client: ClientLogger
    ghost var history: seq<LogEntry>
    ghost var gap: nat
    ghost var toServer: set<seq<Byte>>
    ghost var toClient: set<seq<Byte>>

    ghost predicate Valid()
      reads this, client
    {
      client.logQueue.dir == dir
    }

    ghost function View(): Sys
      reads this, client, client.logQueue, dir, handler
    {
      Sys(history, gap, client.logQueue.View(), dir.files, handler.logFile, toServer, toClient)
    }

    /** The protocol's invariant, of the running programs. */
    ghost predicate Good()
      reads this, client, client.logQueue, dir, handler
    {
      Valid() && InvSomewhere(View())
    }

    /** What that means at any moment. */
    lemma GoodDelivers(disk: Disk, reload: Stale)
      requires Good()
      ensures SplitSomewhere(View(), disk, reload)
    {
      hide Inv;
      var m :| Inv(View(), m);
      InvRestPending(View(), m, disk, reload);
    }

    /** The first start of the client, with no file anywhere. */
    constructor (config: seq<ConfigEntry>, disk: Disk, stale: Stale)
      ensures Valid() && View() == Start(disk, stale)
      ensures Good()
    {
      var files := new Directory(Files(None, None));
      dir := files;
      handler := new ClientHandler(None);
      history, gap, toServer, toClient := [], 0, {}, {};
      client := new ClientLogger(config, files, disk, stale);
      new;
      hide Inv;
      StartIsGood(disk, stale);
    }

    /** The first half of a turn of the client's main loop: logging. */
    method ClientLogs(totals: Totals, canWrite: U64 -> bool, now: U64)
      requires Valid()
      modifies this`history, this`gap, client.logQueue, dir
      ensures Valid() && client == old(client)
      ensures var rs := Reports(client.config, totals, 4 * |client.config|);
              var evs := LogEvents(rs, old(client.logQueue.newId), canWrite, now);
              && View() == After(old(View()), evs)
              && (old(Good()) && Possible(old(View()), evs) ==> Good())
    {
      hide Logged, FilesLogged, Numbered64, Next, Reports, LogEvents, Inv, After, Possible;
      ghost var x := View();
      ghost var rs := Reports(client.config, totals, 4 * |client.config|);
      ghost var evs := LogEvents(rs, x.queue.newId, canWrite, now);
      client.GenerateLog(totals, canWrite, now);
      LoggingIsARun(x, rs, canWrite, now);
      ghost var y := After(x, evs);
      history, gap := y.history, y.gap;
      assert View() == y;
      if InvSomewhere(x) && Possible(x, evs) {
        RunStaysGood(x, evs);
      }
    }

    /** The second half: sending a batch, if there is one.  A name too long for its
        length field throws, and the client ends. */
    method ClientSends() returns (alive: bool)
      requires Valid()
      modifies this`toServer
      ensures Valid() && alive == AllEncodable(Batch(old(View()).queue, 100))
      ensures View() == if alive then Next(old(View()), Send) else old(View())
      ensures old(Good()) ==> alive && (Enabled(old(View()), Send) ==> Good())
    {
      hide LogMessage, Inv, AllEncodable, BatchSize, Next;
      ghost var x := View();
      SendIs(x);
      SendsGood(x);
      var batch := client.logQueue.GetBatchLog(100);
      alive := true;
      if batch != [] {
        var payload := BuildLogMessage(batch);
        alive := payload != None;
        if alive {
          toServer := toServer + {payload.value};
        }
      } else {
        NoneEncodable();
      }
    }

    /** A whole turn. */
    method ClientTick(totals: Totals, canWrite: U64 -> bool, now: U64) returns (alive: bool)
      requires Valid()
      modifies this`history, this`gap, this`toServer, client.logQueue, dir
      ensures Valid() && client == old(client)
      ensures var rs := Reports(client.config, totals, 4 * |client.config|);
              var evs := LogEvents(rs, old(client.logQueue.newId), canWrite, now);
              && View() == After(old(View()), if alive then evs + [Send] else evs)
              && (old(Good()) && Possible(old(View()), evs + [Send]) ==> alive && Good())
    {
      hide After, Possible, Next, LogEvents, Reports, InvSomewhere, AllEncodable, Batch;
      ghost var x := View();
      ghost var evs := LogEvents(Reports(client.config, totals, 4 * |client.config|), x.queue.newId, canWrite, now);
      ClientLogs(totals, canWrite, now);
      alive := ClientSends();
      AfterConcat(x, evs, [Send]);
      AfterOne(After(x, evs), Send);
    }

    method ServerReceives(payload: seq<Byte>, stale: Stale, access: Access)
      requires Valid() && payload in toServer
      modifies this`toClient, handler
      ensures Valid() && View() == Next(old(View()), DeliverBatch(payload, stale, access))
      ensures old(Good()) && Enabled(old(View()), DeliverBatch(payload, stale, access)) ==> Good()
    {
      hide Handle, Inv, ReadsWell;
      StepStaysGood(View(), DeliverBatch(payload, stale, access));
      var reply := handler.OnMessage(payload, stale, access);
      if reply != None {
        toClient := toClient + {reply.value};
      }
    }

    /** No message of the server makes the client end. */
    method ClientReceives(payload: seq<Byte>, stale: Stale, ackWritten: bool) returns (alive: bool)
      requires Valid() && payload in toClient
      modifies client.logQueue, dir
      ensures Valid() && View() == Next(old(View()), DeliverAck(payload, stale, ackWritten))
      ensures old(Good()) ==> alive && Good()
    {
      hide AckIdOf, Inv, LogMessage;
      StepStaysGood(View(), DeliverAck(payload, stale, ackWritten));
      AcksRead(View(), payload, stale);
      alive := client.OnMessage(payload, stale, ackWritten);
    }

    /** The client stops or crashes, and is started again. */
    method ClientRestarts(disk: Disk, stale: Stale)
      requires Valid()
      modifies this`client, dir
      ensures Valid() && View() == Next(old(View()), Restart(disk, stale))
      ensures old(Good()) && Enabled(old(View()), Restart(disk, stale)) ==> Good()
    {
      hide Opened, Destroyed, FilesOpened, Inv, RestartsWell;
      StepStaysGood(View(), Restart(disk, stale));
      client := new ClientLogger(client.config, dir, disk, stale);
    }

    /** The network drops a message. */
    ghost method NetworkLoses(ev: Event)
      requires Valid() && (ev.LoseBatch? || ev.LoseAck?)
      modifies this`toServer, this`toClient
      ensures Valid() && View() == Next(old(View()), ev)
      ensures old(Good()) ==> Good()
    {
      hide Inv;
      StepStaysGood(View(), ev);
      toServer, toClient := Next(View(), ev).toServer, Next(View(), ev).toClient;
    }
  }

  ghost predicate InvSomewhere(x: Sys) {
    exists m :: Inv(x, m)
  }

  lemma StepStaysGood(x: Sys, ev: Event)
    ensures InvSomewhere(x) && Enabled(x, ev) ==> InvSomewhere(Next(x, ev))
  {
    hide Inv, Enabled, Next;
    if InvSomewhere(x) && Enabled(x, ev) {
      var m :| Inv(x, m);
      var m' := StepKeeps(x, m, ev);
    }
  }

  lemma RunStaysGood(x: Sys, evs: seq<Event>)
    requires InvSomewhere(x) && Possible(x, evs)
    ensures InvSomewhere(After(x, evs))
  {
    hide Inv, Possible, After;
    var m :| Inv(x, m);
    var m' := RunKeeps(x, m, evs);
  }

  lemma SendsGood(x: Sys)
    ensures InvSomewhere(x) ==> AllEncodable(Batch(x.queue, 100)) && InvSomewhere(Next(x, Send))
  {
    hide Inv, IsBatch, LogMessage, Sent, GoesOn;
    if InvSomewhere(x) {
      var m :| Inv(x, m);
      SendKeeps(x, m);
      InvParts(x, m);
      HeadIsBatch(x.queue, x.history, m.s);
    }
  }

  /** The message handed to the network arrives whole, with nothing after it
      touched, exactly when the step is one of the protocol's. */
  lemma SendArrivesIff(x: Sys, rest: seq<Byte>, sender: Framing.Kernel, receiver: Framing.Kernel, calls: nat)
    requires Framing.NeverFails(sender) && Framing.NeverFails(receiver)
    ensures var p := LogMessage(Batch(x.queue, BATCH));
            var r := Framing.FrameReceived(Framing.FrameSent(p, sender, calls).wire + rest, receiver, calls);
            (r.message == Some(p) && r.rest == rest) <==> Enabled(x, Send)
  {
    hide LogMessage, Batch;
    var p := LogMessage(Batch(x.queue, BATCH));
    Framing.FrameSentWhole(p, sender, calls);
    Framing.FrameReceivedIff(p, rest, receiver, calls);
  }

  lemma NoneEncodable()
    ensures AllEncodable([])
  {
  }

  lemma AcksRead(x: Sys, p: seq<Byte>, stale: Stale)
    ensures InvSomewhere(x) && p in x.toClient ==> ReadString(Fresh(p)).Got?
  {
    hide AckMessage, Inv, Exchange;
    if InvSomewhere(x) && p in x.toClient {
      var m :| Inv(x, m);
      InvParts(x, m);
      var id := ExchangeAcked(x, x.history, m.s, p, stale, false);
      AckBack(id, stale);
    }
  }

  lemma SendIs(x: Sys)
    ensures Next(x, Send) == Sent(x)
  {
  }
}
