/** The process table's bookkeeping on Linux (src/client/process_table.cpp,
    update_table): three maps kept in step while any read may fail. */
module ProcessTables {
  import opened Bytes

  datatype DiskStat = DiskStat(read: Option<U64>, write: Option<U64>)
  datatype NetworkStat = NetworkStat(recv: Option<U64>, send: Option<U64>)
  datatype ProcessStat = ProcessStat(cpu: U32, mem: U64, disk: DiskStat, network: NetworkStat)
  datatype Listing = Listing(name: seq<Byte>, args: seq<seq<Byte>>)
  datatype LastStat = LastStat(cpu: U64, disk: DiskStat)

  const NO_DISK := DiskStat(None, None)
  const NO_NETWORK := NetworkStat(None, None)
  const NO_STAT := ProcessStat(0, 0, NO_DISK, NO_NETWORK)
  const NO_LAST := LastStat(0, NO_DISK)
  const NO_LISTING := Listing([], [])

  datatype CpuMem = CpuMem(totalCpu: U64, mem: U64)

  /** What /proc yields for one pid during a tick: None where the read throws.
      The percentage is the integer the floating-point formula ends in. */
  datatype Reading = Reading(pid: U32, metadata: Option<Listing>, cpuMem: Option<CpuMem>,
                             io: DiskStat, cpuPercent: U32)

  datatype Table = Table(list: map<U32, Listing>, stat: map<U32, ProcessStat>, last: map<U32, LastStat>)

  function At<V>(m: map<U32, V>, pid: U32, default: V): V {
    if pid in m then m[pid] else default
  }

  lemma UpdateSame<V>(m: map<U32, V>, pid: U32)
    ensures pid in m ==> m[pid := m[pid]] == m
  {
  }

  /** Subtraction on 64 bits. */
  function Minus(a: U64, b: U64): U64 {
    (a - b) % TWO_64
  }

  /** The sum of two counters on 64 bits, absent ones counting as 0. */
  function Sum64(a: Option<U64>, b: Option<U64>): U64 {
    (a.ValueOr(0) + b.ValueOr(0)) % TWO_64
  }

  function Delta(now: Option<U64>, before: Option<U64>): Option<U64> {
    if now == None then None else Some(Minus(now.value, before.ValueOr(0)))
  }

  function DiskDelta(now: DiskStat, before: DiskStat): DiskStat {
    DiskStat(Delta(now.read, before.read), Delta(now.write, before.write))
  }

  /** The listing kept for r's pid, and whether its measurements are read: not
      when the metadata read throws, nor for a process without arguments. */
  function Listed(list: map<U32, Listing>, r: Reading): (map<U32, Listing>, bool) {
    var known := At(list, r.pid, NO_LISTING);
    if known.args != [] then (list[r.pid := known], true)
    else if r.metadata == None then (list[r.pid := known], false)
    else (list[r.pid := r.metadata.value], r.metadata.value.args != [])
  }

  /** One pass of the loop over pids; the flag says that the pid was seen. */
  function Visit(t: Table, r: Reading, net: map<U32, NetworkStat>): (Table, bool) {
    var (list, ready) := Listed(t.list, r);
    if !ready then (t.(list := list), false)
    else
      var last := At(t.last, r.pid, NO_LAST);
      if r.cpuMem == None then
        (Table(list, t.stat[r.pid := At(t.stat, r.pid, NO_STAT)], t.last[r.pid := last]), false)
      else
        (Table(list,
               t.stat[r.pid := ProcessStat(r.cpuPercent, r.cpuMem.value.mem, DiskDelta(r.io, last.disk),
                                           At(net, r.pid, NO_NETWORK))],
               t.last[r.pid := LastStat(r.cpuMem.value.totalCpu, r.io)]), true)
  }

  /** The loop over the pids read this tick: the maps, and the pids seen. */
  function Visited(t: Table, rs: seq<Reading>, net: map<U32, NetworkStat>): (Table, set<U32>) {
    if rs == [] then (t, {})
    else
      var (t1, seen) := Visited(t, rs[..|rs| - 1], net);
      var r := rs[|rs| - 1];
      var (t2, ok) := Visit(t1, r, net);
      (t2, if ok then seen + {r.pid} else seen)
  }

  /** Erasing what was not seen. */
  function Swept(t: Table, seen: set<U32>): Table {
    var gone := t.list.Keys - seen;
    Table(t.list - gone, t.stat - gone, t.last - gone)
  }

  function Updated(t: Table, rs: seq<Reading>, net: map<U32, NetworkStat>): Table {
    var (t1, seen) := Visited(t, rs, net);
    Swept(t1, seen)
  }

  class ProcessTable {
    var listTable: map<U32, Listing>
    var statTable: map<U32, ProcessStat>
    var lastStatTable: map<U32, LastStat>

    function View(): Table
      reads this
    {
      Table(listTable, statTable, lastStatTable)
    }

    constructor ()
      ensures View() == Table(map[], map[], map[])
    {
      listTable, statTable, lastStatTable := map[], map[], map[];
    }

    method ListPid(r: Reading) returns (ready: bool)
      modifies this`listTable
      ensures (listTable, ready) == Listed(old(listTable), r)
    {
      var pid := r.pid;
      UpdateSame(listTable, pid);
      if pid !in listTable {
        listTable := listTable[pid := NO_LISTING];
      }
      if listTable[pid].args == [] {
        if r.metadata == None {
          return false;
        }
        listTable := listTable[pid := r.metadata.value];
      }
      assert listTable == old(listTable)[pid := listTable[pid]];
      ready := listTable[pid].args != [];
    }

    /** One pid.  ok is false when the pid is skipped or a read throws. */
    method VisitPid(r: Reading, net: map<U32, NetworkStat>) returns (ok: bool)
      modifies this
      ensures (View(), ok) == Visit(old(View()), r, net)
    {
      hide Listed, DiskDelta;
      var pid := r.pid;
      ok := ListPid(r);
      if !ok {
        return;
      }
      UpdateSame(statTable, pid);
      UpdateSame(lastStatTable, pid);
      if pid !in statTable {
        statTable := statTable[pid := NO_STAT];
      }
      if pid !in lastStatTable {
        lastStatTable := lastStatTable[pid := NO_LAST];
      }
      if r.cpuMem == None {
        return false;
      }
      var diskDelta := DiskDelta(r.io, lastStatTable[pid].disk);
      lastStatTable := lastStatTable[pid := LastStat(r.cpuMem.value.totalCpu, r.io)];
      statTable := statTable[pid := ProcessStat(r.cpuPercent, r.cpuMem.value.mem, diskDelta, At(net, pid, NO_NETWORK))];
      assert statTable == old(statTable)[pid := statTable[pid]];
      assert lastStatTable == old(lastStatTable)[pid := lastStatTable[pid]];
    }

    /** Erasing the unseen pids, in whatever order the map is walked. */
    method Sweep(seen: set<U32>)
      modifies this
      ensures View() == Swept(old(View()), seen)
    {
      ghost var t := View();
      var todo := listTable.Keys;
      while todo != {}
        invariant todo <= t.list.Keys
        invariant var gone := t.list.Keys - todo - seen;
                  View() == Table(t.list - gone, t.stat - gone, t.last - gone)
        decreases todo
      {
        var pid :| pid in todo;
        ghost var gone := t.list.Keys - todo - seen;
        if pid !in seen {
          statTable := statTable - {pid};
          lastStatTable := lastStatTable - {pid};
          listTable := listTable - {pid};
          assert t.list.Keys - (todo - {pid}) - seen == gone + {pid};
        } else {
          assert t.list.Keys - (todo - {pid}) - seen == gone;
        }
        todo := todo - {pid};
      }
      assert t.list.Keys - {} - seen == t.list.Keys - seen;
    }

    /** When /proc/stat cannot be read the whole update throws and nothing changes. */
    method UpdateTable(cpuRead: bool, rs: seq<Reading>, net: map<U32, NetworkStat>) returns (ok: bool)
      modifies this
      ensures ok == cpuRead
      ensures View() == if cpuRead then Updated(old(View()), rs, net) else old(View())
    {
      if !cpuRead {
        return false;
      }
      var seen := {};
      assert rs[..0] == [];
      for i := 0 to |rs|
        invariant (View(), seen) == Visited(old(View()), rs[..i], net)
      {
        assert rs[..i + 1][..i] == rs[..i];
        var visited := VisitPid(rs[i], net);
        if visited {
          seen := seen + {rs[i].pid};
        }
      }
      assert rs[..|rs|] == rs;
      Sweep(seen);
      ok := true;
    }
  }

  // ---- the three maps agree

  predicate Agree(t: Table) {
    t.list.Keys == t.stat.Keys == t.last.Keys
  }

  lemma {:induction false} VisitedKeys(t: Table, rs: seq<Reading>, net: map<U32, NetworkStat>)
    requires Agree(t)
    ensures var (t1, seen) := Visited(t, rs, net);
            && seen <= t1.stat.Keys == t1.last.Keys <= t1.list.Keys
            && forall pid :: pid in seen ==> t1.stat[pid].network == At(net, pid, NO_NETWORK)
  {
    if rs != [] {
      VisitedKeys(t, rs[..|rs| - 1], net);
    }
  }

  /** Whichever reads fail, an update leaves the three maps with the same keys,
      so that looking up the statistics of a listed pid never fails; and every
      kept pid carries this tick's network usage. */
  lemma UpdateAgrees(t: Table, rs: seq<Reading>, net: map<U32, NetworkStat>)
    requires Agree(t)
    ensures Agree(Updated(t, rs, net))
    ensures Updated(t, rs, net).list.Keys == Visited(t, rs, net).1
    ensures forall pid :: pid in Updated(t, rs, net).list ==>
              Updated(t, rs, net).stat[pid].network == At(net, pid, NO_NETWORK)
  {
    VisitedKeys(t, rs, net);
  }

  datatype Tick = Tick(readings: seq<Reading>, net: map<U32, NetworkStat>, cpuRead: bool)

  function Ticked(t: Table, k: Tick): Table {
    if k.cpuRead then Updated(t, k.readings, k.net) else t
  }

  function TableAfter(t: Table, ticks: seq<Tick>): Table {
    if ticks == [] then t else Ticked(TableAfter(t, ticks[..|ticks| - 1]), ticks[|ticks| - 1])
  }

  lemma {:induction false} AlwaysAgrees(t: Table, ticks: seq<Tick>)
    requires Agree(t)
    ensures Agree(TableAfter(t, ticks))
  {
    if ticks != [] {
      AlwaysAgrees(t, ticks[..|ticks| - 1]);
      var k := ticks[|ticks| - 1];
      UpdateAgrees(TableAfter(t, ticks[..|ticks| - 1]), k.readings, k.net);
    }
  }

  // ---- which pids are kept

  predicate DistinctPids(rs: seq<Reading>) {
    forall i, j :: 0 <= i < j < |rs| ==> rs[i].pid != rs[j].pid
  }

  /** The reads that matter for r all succeed, from the table t. */
  predicate Readable(t: Table, r: Reading) {
    && (At(t.list, r.pid, NO_LISTING).args != [] || (r.metadata != None && r.metadata.value.args != []))
    && r.cpuMem != None
  }

  /** pid is in the same state in both tables. */
  predicate Untouched(t: Table, t1: Table, pid: U32) {
    && (pid in t1.list <==> pid in t.list) && (pid in t.list ==> t1.list[pid] == t.list[pid])
    && (pid in t1.last <==> pid in t.last) && (pid in t.last ==> t1.last[pid] == t.last[pid])
    && (pid in t1.stat <==> pid in t.stat) && (pid in t.stat ==> t1.stat[pid] == t.stat[pid])
  }

  lemma VisitElsewhere(t: Table, r: Reading, net: map<U32, NetworkStat>, pid: U32)
    requires r.pid != pid
    ensures Untouched(t, Visit(t, r, net).0, pid)
  {
  }

  lemma {:induction false} VisitedElsewhere(t: Table, rs: seq<Reading>, net: map<U32, NetworkStat>, pid: U32)
    requires forall i :: 0 <= i < |rs| ==> rs[i].pid != pid
    ensures Untouched(t, Visited(t, rs, net).0, pid) && pid !in Visited(t, rs, net).1
  {
    if rs != [] {
      var init := rs[..|rs| - 1];
      VisitedElsewhere(t, init, net, pid);
      hide Visit;
      VisitElsewhere(Visited(t, init, net).0, rs[|rs| - 1], net, pid);
    }
  }

  /** A successful reading from t has left its listing and its numbers in t1. */
  predicate Recorded(t: Table, t1: Table, r: Reading, net: map<U32, NetworkStat>) {
    && r.pid in t1.list && r.pid in t1.stat && r.pid in t1.last && r.cpuMem != None
    && (if r.pid in t.list && t.list[r.pid].args != [] then t1.list[r.pid] == t.list[r.pid]
        else Some(t1.list[r.pid]) == r.metadata)
    && t1.stat[r.pid] == ProcessStat(r.cpuPercent, r.cpuMem.value.mem,
                                     DiskDelta(r.io, At(t.last, r.pid, NO_LAST).disk), At(net, r.pid, NO_NETWORK))
    && t1.last[r.pid] == LastStat(r.cpuMem.value.totalCpu, r.io)
  }

  lemma VisitRecords(t: Table, t0: Table, r: Reading, net: map<U32, NetworkStat>)
    requires Untouched(t, t0, r.pid)
    ensures Visit(t0, r, net).1 <==> Readable(t, r)
    ensures Readable(t, r) ==> Recorded(t, Visit(t0, r, net).0, r, net)
  {
  }

  /** What a tick leaves for the pid of its i-th reading. */
  lemma {:induction false} VisitedAt(t: Table, rs: seq<Reading>, net: map<U32, NetworkStat>, i: nat)
    requires i < |rs| && DistinctPids(rs)
    ensures rs[i].pid in Visited(t, rs, net).1 <==> Readable(t, rs[i])
    ensures Readable(t, rs[i]) ==> Recorded(t, Visited(t, rs, net).0, rs[i], net)
  {
    hide Visit, Readable;
    var init, last := rs[..|rs| - 1], rs[|rs| - 1];
    var t0 := Visited(t, init, net).0;
    if i == |rs| - 1 {
      VisitedElsewhere(t, init, net, last.pid);
      VisitRecords(t, t0, last, net);
    } else {
      VisitedAt(t, init, net, i);
      assert init[i] == rs[i];
      VisitElsewhere(t0, last, net, rs[i].pid);
    }
  }

  /** Subtraction of optional counters, written out. */
  lemma DeltaIs(now: Option<U64>, before: Option<U64>)
    ensures Delta(now, before) ==
            match now
            case None => None
            case Some(v) => Some((v - if before.Some? then before.value else 0) % 0x1_0000_0000_0000_0000)
  {
  }

  /** What a tick leaves of its i-th reading, written out.  The process is kept if
      and only if its arguments are known or read now, and its CPU and memory are
      read.  Then the known listing stays, or else is exactly the one read; the
      statistics are this tick's percentage, memory, disk deltas on 64 bits and
      network usage; and the raw CPU ticks and disk counters are remembered. */
  lemma UpdateRecords(t: Table, rs: seq<Reading>, net: map<U32, NetworkStat>, i: nat)
    requires Agree(t) && DistinctPids(rs) && i < |rs|
    ensures var r, t1 := rs[i], Updated(t, rs, net);
            var known := r.pid in t.list && t.list[r.pid].args != [];
            && (r.pid in t1.list <==>
                (known || (r.metadata.Some? && r.metadata.value.args != [])) && r.cpuMem.Some?)
            && (r.pid in t1.list ==>
                  && r.pid in t1.stat && r.pid in t1.last
                  && t1.list[r.pid] == (if known then t.list[r.pid] else r.metadata.value)
                  && t1.stat[r.pid].cpu == r.cpuPercent
                  && t1.stat[r.pid].mem == r.cpuMem.value.mem
                  && t1.stat[r.pid].network == (if r.pid in net then net[r.pid] else NetworkStat(None, None))
                  && t1.last[r.pid].cpu == r.cpuMem.value.totalCpu
                  && t1.last[r.pid].disk == r.io
                  && var before := if r.pid in t.last then t.last[r.pid].disk else DiskStat(None, None);
                     var read, write := r.io.read, r.io.write;
                     t1.stat[r.pid].disk == DiskStat(
                       if read == None then None
                       else Some((read.value - before.read.ValueOr(0)) % 0x1_0000_0000_0000_0000),
                       if write == None then None
                       else Some((write.value - before.write.ValueOr(0)) % 0x1_0000_0000_0000_0000)))
  {
    hide Visited;
    var r := rs[i];
    UpdateAgrees(t, rs, net);
    VisitedAt(t, rs, net, i);
    var before := At(t.last, r.pid, NO_LAST).disk;
    DeltaIs(r.io.read, before.read);
    DeltaIs(r.io.write, before.write);
  }

  /** A pid stays in the table exactly when this tick read it successfully. */
  lemma KeptIff(t: Table, rs: seq<Reading>, net: map<U32, NetworkStat>, pid: U32)
    requires Agree(t) && DistinctPids(rs)
    ensures pid in Updated(t, rs, net).list
            <==> exists i :: 0 <= i < |rs| && rs[i].pid == pid && Readable(t, rs[i])
  {
    UpdateAgrees(t, rs, net);
    if i :| 0 <= i < |rs| && rs[i].pid == pid {
      VisitedAt(t, rs, net, i);
    } else {
      VisitedElsewhere(t, rs, net, pid);
    }
  }

  // ---- deltas telescope

  datatype Side = ReadSide | WriteSide

  function Counter(d: DiskStat, side: Side): Option<U64> {
    if side == ReadSide then d.read else d.write
  }

  /** The reading of pid that succeeds from t, if there is one. */
  ghost predicate Seen(t: Table, k: Tick, pid: U32) {
    exists i :: SeenAt(t, k, pid, i)
  }

  predicate SeenAt(t: Table, k: Tick, pid: U32, i: int) {
    0 <= i < |k.readings| && k.readings[i].pid == pid && Readable(t, k.readings[i])
  }

  /** The counter of pid that a tick shows: none if the process is not read
      successfully, or only its counter is unreadable. */
  ghost function Shown(t: Table, k: Tick, pid: U32, side: Side): Option<U64> {
    if i :| SeenAt(t, k, pid, i) then Counter(k.readings[i].io, side) else None
  }

  ghost function ShownAll(t: Table, ticks: seq<Tick>, pid: U32, side: Side): (shown: seq<Option<U64>>)
    ensures |shown| == |ticks|
  {
    if ticks == [] then []
    else
      var init, n := ticks[..|ticks| - 1], |ticks| - 1;
      ShownAll(t, init, pid, side) + [Shown(TableAfter(t, init), ticks[n], pid, side)]
  }

  function Reported(t: Table, pid: U32, side: Side): U64 {
    Counter(At(t.stat, pid, NO_STAT).disk, side).ValueOr(0)
  }

  /** The sum of the disk deltas reported for pid after each tick. */
  function ReportedSum(t: Table, ticks: seq<Tick>, pid: U32, side: Side): nat {
    if ticks == [] then 0
    else ReportedSum(t, ticks[..|ticks| - 1], pid, side) + Reported(TableAfter(t, ticks), pid, side)
  }

  function OnRecord(t: Table, pid: U32, side: Side): Option<U64> {
    Counter(At(t.last, pid, NO_LAST).disk, side)
  }

  /** Every tick's update goes through, with one reading for each pid. */
  predicate AllRead(ticks: seq<Tick>) {
    forall j :: 0 <= j < |ticks| ==> ticks[j].cpuRead && DistinctPids(ticks[j].readings)
  }

  lemma ShownIsReported(t: Table, k: Tick, pid: U32, side: Side)
    requires Agree(t) && k.cpuRead && DistinctPids(k.readings)
    ensures OnRecord(Ticked(t, k), pid, side) == Shown(t, k, pid, side)
    ensures Reported(Ticked(t, k), pid, side)
            == Delta(Shown(t, k, pid, side), OnRecord(t, pid, side)).ValueOr(0)
  {
    hide Readable, Visited;
    UpdateAgrees(t, k.readings, k.net);
    if i :| 0 <= i < |k.readings| && k.readings[i].pid == pid {
      VisitedAt(t, k.readings, k.net, i);
      assert forall n :: SeenAt(t, k, pid, n) ==> n == i;
      assert SeenAt(t, k, pid, i) <==> Readable(t, k.readings[i]);
    } else {
      VisitedElsewhere(t, k.readings, k.net, pid);
    }
  }

  /** The counters at the ends of the readable stretches, added up. */
  function StretchEnds(shown: seq<Option<U64>>): nat {
    if shown == [] then 0
    else
      var ends := shown[0].Some? && (|shown| == 1 || shown[1].None?);
      (if ends then shown[0].value else 0) + StretchEnds(shown[1..])
  }

  function LastShown(shown: seq<Option<U64>>): Option<U64> {
    if shown == [] then None else shown[|shown| - 1]
  }

  /** A readable counter moves the end of the last stretch. */
  lemma {:induction false} StretchGoesOn(shown: seq<Option<U64>>, c: Option<U64>)
    ensures StretchEnds(shown + [c])
            == StretchEnds(shown) - (if c.Some? then LastShown(shown).ValueOr(0) else 0) + c.ValueOr(0)
  {
    if shown == [] {
      assert (shown + [c])[1..] == [];
    } else {
      assert (shown + [c])[1..] == shown[1..] + [c];
      StretchGoesOn(shown[1..], c);
    }
  }

  /** What is on record before the first tick, if that tick goes on from it. */
  function CarriedOver(before: Option<U64>, shown: seq<Option<U64>>): nat {
    if shown != [] && shown[0].Some? then before.ValueOr(0) else 0
  }

  /** Whatever reads fail, the reported deltas add up, modulo 2^64, to the counters
      at the ends of the stretches in which they could be read: after a tick that
      misses one, it counts from zero again.  In particular, for a counter read on
      every tick, with none on record before, to its latest value. */
  lemma {:induction false} DeltasTelescope(t: Table, ticks: seq<Tick>, pid: U32, side: Side)
    requires Agree(t) && AllRead(ticks)
    ensures var shown, before := ShownAll(t, ticks, pid, side), OnRecord(t, pid, side);
            && (ReportedSum(t, ticks, pid, side) + CarriedOver(before, shown)) % TWO_64 == StretchEnds(shown) % TWO_64
            && OnRecord(TableAfter(t, ticks), pid, side) == (if ticks == [] then before else LastShown(shown))
  {
    hide Ticked, OnRecord, Reported, Shown, Minus, CarriedOver, StretchEnds;
    var before := OnRecord(t, pid, side);
    if ticks == [] {
      NothingCarried(before);
    } else {
      var n := |ticks| - 1;
      var init := ticks[..n];
      AlwaysAgrees(t, init);
      DeltasTelescope(t, init, pid, side);
      var t1, shown := TableAfter(t, init), ShownAll(t, init, pid, side);
      var c := Shown(t1, ticks[n], pid, side);
      ShownIsReported(t1, ticks[n], pid, side);
      StretchGoesOn(shown, c);
      CarriedOn(before, shown, c);
      AddDelta(ReportedSum(t, init, pid, side) + CarriedOver(before, shown), StretchEnds(shown),
               LastShown(shown), OnRecord(t1, pid, side), c,
               CarriedOver(before, shown + [c]) - CarriedOver(before, shown));
    }
  }

  lemma NothingCarried(before: Option<U64>)
    ensures CarriedOver(before, []) == 0 == StretchEnds([])
  {
  }

  lemma CarriedOn(before: Option<U64>, shown: seq<Option<U64>>, c: Option<U64>)
    ensures CarriedOver(before, shown + [c]) - CarriedOver(before, shown)
            == if shown == [] && c.Some? then before.ValueOr(0) else 0
  {
    assert shown != [] ==> (shown + [c])[0] == shown[0];
  }

  /** One tick more: `last` ends the shown part, `record` is what the delta is taken
      from, and they differ only when there is no shown part yet. */
  lemma AddDelta(sum: nat, ends: nat, last: Option<U64>, record: Option<U64>, c: Option<U64>, carried: int)
    requires sum % TWO_64 == ends % TWO_64
    requires (record == last && carried == 0) || (last == None && carried == if c.Some? then record.ValueOr(0) else 0)
    ensures (sum + carried + Delta(c, record).ValueOr(0)) % TWO_64
            == (ends - (if c.Some? then last.ValueOr(0) else 0) + c.ValueOr(0)) % TWO_64
  {
    var z := sum / TWO_64 - ends / TWO_64;
    assert sum == ends + z * TWO_64;
    if c.Some? {
      var r := record.ValueOr(0);
      var q := (c.value - r) / TWO_64;
      assert Minus(c.value, r) == c.value - r - q * TWO_64;
      ModShift(ends - last.ValueOr(0) + c.value, z - q);
    } else {
      ModShift(ends, z);
    }
  }

  lemma ModShift(a: int, k: int)
    ensures (a + k * TWO_64) % TWO_64 == a % TWO_64
  {
    var q, r := a / TWO_64, a % TWO_64;
    assert a + k * TWO_64 == (q + k) * TWO_64 + r;
  }
}
