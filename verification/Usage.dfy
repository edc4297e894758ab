/** From captured packets to per-process and per-program totals
    (process_packets in src/client/network_processing.cpp and
    get_map_program_name_resource in src/client/process_table.cpp). */
module Usage {
  import opened Bytes
  import opened ProcessTables

  // ---- sums over finite sets

  ghost function Sum<K(!new)>(s: set<K>, f: K -> nat): nat {
    if s == {} then 0
    else
      var x :| x in s;
      f(x) + Sum(s - {x}, f)
  }

  /** The order in which the elements are added does not matter. */
  lemma {:induction false} SumTake<K(!new)>(s: set<K>, f: K -> nat, x: K)
    requires x in s
    ensures Sum(s, f) == f(x) + Sum(s - {x}, f)
    decreases |s|
  {
    var y :| y in s && Sum(s, f) == f(y) + Sum(s - {y}, f);
    if x != y {
      SumTake(s - {y}, f, x);
      SumTake(s - {x}, f, y);
      assert s - {y} - {x} == s - {x} - {y};
    }
  }

  lemma SumAdd<K(!new)>(s: set<K>, f: K -> nat, x: K)
    requires x !in s
    ensures Sum(s + {x}, f) == Sum(s, f) + f(x)
  {
    SumTake(s + {x}, f, x);
    assert s + {x} - {x} == s;
  }

  lemma {:induction false} SumSame<K(!new)>(s: set<K>, f: K -> nat, g: K -> nat)
    requires forall x :: x in s ==> f(x) == g(x)
    ensures Sum(s, f) == Sum(s, g)
    decreases |s|
  {
    if s != {} {
      var x :| x in s;
      SumTake(s, f, x);
      SumTake(s, g, x);
      SumSame(s - {x}, f, g);
    }
  }

  lemma {:induction false} SumPlus<K(!new)>(s: set<K>, f: K -> nat, g: K -> nat, h: K -> nat)
    requires forall x :: x in s ==> h(x) == f(x) + g(x)
    ensures Sum(s, h) == Sum(s, f) + Sum(s, g)
    decreases |s|
  {
    if s != {} {
      var x :| x in s;
      SumTake(s, f, x);
      SumTake(s, g, x);
      SumTake(s, h, x);
      SumPlus(s - {x}, f, g, h);
    }
  }

  lemma {:induction false} SumUnion<K(!new)>(a: set<K>, b: set<K>, f: K -> nat)
    requires a !! b
    ensures Sum(a + b, f) == Sum(a, f) + Sum(b, f)
    decreases |b|
  {
    if b == {} {
      assert a + b == a;
    } else {
      var x :| x in b;
      SumUnion(a, b - {x}, f);
      SumAdd(a + (b - {x}), f, x);
      SumTake(b, f, x);
      assert a + (b - {x}) + {x} == a + b;
    }
  }

  /** Reducing the summands first does not change the sum's remainder. */
  lemma {:induction false} SumMod<K(!new)>(s: set<K>, f: K -> nat, g: K -> nat)
    requires forall x :: x in s ==> g(x) == f(x) % TWO_64
    ensures Sum(s, f) % TWO_64 == Sum(s, g) % TWO_64
    decreases |s|
  {
    if s != {} {
      var x :| x in s;
      SumTake(s, f, x);
      SumTake(s, g, x);
      SumMod(s - {x}, f, g);
      SameRemainder(Sum(s - {x}, f), Sum(s - {x}, g), f(x));
    }
  }

  lemma SameRemainder(a: nat, b: nat, v: nat)
    requires a % TWO_64 == b % TWO_64
    ensures (v + a) % TWO_64 == (v % TWO_64 + b) % TWO_64
  {
    ModAdd(a, v, TWO_64);
    ModAdd(b, v, TWO_64);
    ModAdd(v, b, TWO_64);
  }

  // ---- packets

  /** What process_packets looks at: protocol, source address, ports, length. */
  datatype Packet = Packet(isTcp: bool, source: U32, sourcePort: U16, destPort: U16, length: U32)

  datatype Direction = Sending | Receiving

  /** The process and direction a packet is charged to. */
  function ChargedTo(p: Packet, localIp: U32, ports: map<U16, U32>): Option<(U32, Direction)> {
    if !p.isTcp then None
    else if p.source == localIp then
      (if p.sourcePort in ports then Some((ports[p.sourcePort], Sending)) else None)
    else
      (if p.destPort in ports then Some((ports[p.destPort], Receiving)) else None)
  }

  /** The bytes of the packets charged to a process in one direction. */
  function BytesOf(ps: seq<Packet>, localIp: U32, ports: map<U16, U32>, pid: U32, way: Direction): nat {
    if ps == [] then 0
    else
      var last := ps[|ps| - 1];
      BytesOf(ps[..|ps| - 1], localIp, ports, pid, way)
      + if ChargedTo(last, localIp, ports) == Some((pid, way)) then last.length else 0
  }

  predicate AnyFor(ps: seq<Packet>, localIp: U32, ports: map<U16, U32>, pid: U32, way: Direction) {
    exists i :: 0 <= i < |ps| && ChargedTo(ps[i], localIp, ports) == Some((pid, way))
  }

  /** One counter of the result: absent when no packet was charged to it. */
  function CounterOf(ps: seq<Packet>, localIp: U32, ports: map<U16, U32>, pid: U32, way: Direction): Option<U64> {
    if AnyFor(ps, localIp, ports, pid, way) then Some(BytesOf(ps, localIp, ports, pid, way) % TWO_64) else None
  }

  /** The map says, for each pid, exactly what its packets add up to. */
  ghost predicate Accounts(net: map<U32, NetworkStat>, ps: seq<Packet>, localIp: U32, ports: map<U16, U32>) {
    forall pid: U32 :: At(net, pid, NO_NETWORK) ==
      NetworkStat(CounterOf(ps, localIp, ports, pid, Receiving), CounterOf(ps, localIp, ports, pid, Sending))
  }

  lemma AnyForStep(ps: seq<Packet>, p: Packet, localIp: U32, ports: map<U16, U32>, pid: U32, way: Direction)
    ensures AnyFor(ps + [p], localIp, ports, pid, way) <==>
            AnyFor(ps, localIp, ports, pid, way) || ChargedTo(p, localIp, ports) == Some((pid, way))
  {
    hide ChargedTo;
    var qs := ps + [p];
    assert forall i :: 0 <= i < |ps| ==> qs[i] == ps[i];
    assert qs[|ps|] == p;
  }

  lemma BytesOfStep(ps: seq<Packet>, p: Packet, localIp: U32, ports: map<U16, U32>, pid: U32, way: Direction)
    ensures BytesOf(ps + [p], localIp, ports, pid, way) ==
            BytesOf(ps, localIp, ports, pid, way)
            + if ChargedTo(p, localIp, ports) == Some((pid, way)) then p.length else 0
  {
    hide ChargedTo;
    assert (ps + [p])[..|ps|] == ps;
  }

  lemma CounterStep(ps: seq<Packet>, p: Packet, localIp: U32, ports: map<U16, U32>, pid: U32, way: Direction)
    ensures CounterOf(ps + [p], localIp, ports, pid, way) ==
            if ChargedTo(p, localIp, ports) == Some((pid, way))
            then Some((CounterOf(ps, localIp, ports, pid, way).ValueOr(0) + p.length) % TWO_64)
            else CounterOf(ps, localIp, ports, pid, way)
  {
    hide ChargedTo, AnyFor, BytesOf;
    AnyForStep(ps, p, localIp, ports, pid, way);
    BytesOfStep(ps, p, localIp, ports, pid, way);
    ModAdd(BytesOf(ps, localIp, ports, pid, way), p.length, TWO_64);
    if !AnyFor(ps, localIp, ports, pid, way) {
      NoneForNothing(ps, localIp, ports, pid, way);
    }
  }

  lemma {:induction false} NoneForNothing(ps: seq<Packet>, localIp: U32, ports: map<U16, U32>, pid: U32, way: Direction)
    requires !AnyFor(ps, localIp, ports, pid, way)
    ensures BytesOf(ps, localIp, ports, pid, way) == 0
  {
    if ps != [] {
      assert forall i :: 0 <= i < |ps| - 1 ==> ps[..|ps| - 1][i] == ps[i];
      NoneForNothing(ps[..|ps| - 1], localIp, ports, pid, way);
    }
  }

  // ---- the counters, written out

  /** The sum of the lengths of the chosen packets. */
  function LengthOf(ps: seq<Packet>, chosen: Packet -> bool): nat {
    if ps == [] then 0
    else LengthOf(ps[..|ps| - 1], chosen) + if chosen(ps[|ps| - 1]) then ps[|ps| - 1].length else 0
  }

  /** The TCP packets from the local address whose source port belongs to one of the pids. */
  function SentBy(localIp: U32, ports: map<U16, U32>, pids: set<U32>): Packet -> bool {
    (p: Packet) => p.isTcp && p.source == localIp && p.sourcePort in ports && ports[p.sourcePort] in pids
  }

  /** The TCP packets from elsewhere whose destination port belongs to one of the pids. */
  function ReceivedBy(localIp: U32, ports: map<U16, U32>, pids: set<U32>): Packet -> bool {
    (p: Packet) => p.isTcp && p.source != localIp && p.destPort in ports && ports[p.destPort] in pids
  }

  lemma ChargedIff(p: Packet, localIp: U32, ports: map<U16, U32>, pid: U32)
    ensures ChargedTo(p, localIp, ports) == Some((pid, Sending)) <==>
            p.isTcp && p.source == localIp && p.sourcePort in ports && ports[p.sourcePort] == pid
    ensures ChargedTo(p, localIp, ports) == Some((pid, Receiving)) <==>
            p.isTcp && p.source != localIp && p.destPort in ports && ports[p.destPort] == pid
  {
  }

  lemma {:induction false} BytesAreLengths(ps: seq<Packet>, localIp: U32, ports: map<U16, U32>, pid: U32)
    ensures BytesOf(ps, localIp, ports, pid, Sending) == LengthOf(ps, SentBy(localIp, ports, {pid}))
    ensures BytesOf(ps, localIp, ports, pid, Receiving) == LengthOf(ps, ReceivedBy(localIp, ports, {pid}))
  {
    if ps != [] {
      ChargedIff(ps[|ps| - 1], localIp, ports, pid);
      BytesAreLengths(ps[..|ps| - 1], localIp, ports, pid);
    }
  }

  /** What the accounts of a pid mean: its `send` is the sum modulo 2^64 of the
      lengths of the TCP packets from the local address whose source port is its
      own, its `recv` that of those from elsewhere to its ports, and each is absent
      exactly when there is no such packet. */
  lemma AccountsMean(net: map<U32, NetworkStat>, ps: seq<Packet>, localIp: U32, ports: map<U16, U32>, pid: U32)
    requires Accounts(net, ps, localIp, ports)
    ensures var usage := if pid in net then net[pid] else NetworkStat(None, None);
            && (usage.send == None <==>
                forall i :: 0 <= i < |ps| && ps[i].isTcp && ps[i].source == localIp && ps[i].sourcePort in ports
                  ==> ports[ps[i].sourcePort] != pid)
            && (usage.recv == None <==>
                forall i :: 0 <= i < |ps| && ps[i].isTcp && ps[i].source != localIp && ps[i].destPort in ports
                  ==> ports[ps[i].destPort] != pid)
            && usage.send.ValueOr(0) ==
               LengthOf(ps, (p: Packet) => p.isTcp && p.source == localIp && p.sourcePort in ports
                                           && ports[p.sourcePort] == pid) % 0x1_0000_0000_0000_0000
            && usage.recv.ValueOr(0) ==
               LengthOf(ps, (p: Packet) => p.isTcp && p.source != localIp && p.destPort in ports
                                           && ports[p.destPort] == pid) % 0x1_0000_0000_0000_0000
  {
    hide ChargedTo, BytesOf;
    assert At(net, pid, NO_NETWORK) == if pid in net then net[pid] else NetworkStat(None, None);
    CounterValue(ps, localIp, ports, pid, Sending);
    CounterValue(ps, localIp, ports, pid, Receiving);
    BytesAreLengths(ps, localIp, ports, pid);
    LengthSame(ps, SentBy(localIp, ports, {pid}), (p: Packet) =>
      p.isTcp && p.source == localIp && p.sourcePort in ports && ports[p.sourcePort] == pid);
    LengthSame(ps, ReceivedBy(localIp, ports, {pid}), (p: Packet) =>
      p.isTcp && p.source != localIp && p.destPort in ports && ports[p.destPort] == pid);
    forall i | 0 <= i < |ps|
      ensures ChargedTo(ps[i], localIp, ports) == Some((pid, Sending)) <==>
              ps[i].isTcp && ps[i].source == localIp && ps[i].sourcePort in ports && ports[ps[i].sourcePort] == pid
      ensures ChargedTo(ps[i], localIp, ports) == Some((pid, Receiving)) <==>
              ps[i].isTcp && ps[i].source != localIp && ps[i].destPort in ports && ports[ps[i].destPort] == pid
    {
      ChargedIff(ps[i], localIp, ports, pid);
    }
  }

  lemma CounterValue(ps: seq<Packet>, localIp: U32, ports: map<U16, U32>, pid: U32, way: Direction)
    ensures CounterOf(ps, localIp, ports, pid, way).ValueOr(0) == BytesOf(ps, localIp, ports, pid, way) % TWO_64
    ensures CounterOf(ps, localIp, ports, pid, way) == None <==> !AnyFor(ps, localIp, ports, pid, way)
  {
    if !AnyFor(ps, localIp, ports, pid, way) {
      NoneForNothing(ps, localIp, ports, pid, way);
    }
  }

  lemma {:induction false} LengthSame(ps: seq<Packet>, f: Packet -> bool, g: Packet -> bool)
    requires forall p :: f(p) == g(p)
    ensures LengthOf(ps, f) == LengthOf(ps, g)
  {
    if ps != [] {
      LengthSame(ps[..|ps| - 1], f, g);
    }
  }

  method ProcessPackets(localIp: U32, ports: map<U16, U32>, packets: seq<Packet>) returns (net: map<U32, NetworkStat>)
    ensures Accounts(net, packets, localIp, ports)
  {
    net := map[];
    for i := 0 to |packets|
      invariant Accounts(net, packets[..i], localIp, ports)
    {
      var p := packets[i];
      assert packets[..i + 1] == packets[..i] + [p];
      ghost var before := net;
      if p.isTcp {
        if p.source == localIp {
          if p.sourcePort in ports {
            var usage := At(net, ports[p.sourcePort], NO_NETWORK);
            net := net[ports[p.sourcePort] := usage.(send := Some((usage.send.ValueOr(0) + p.length) % TWO_64))];
          }
        } else {
          if p.destPort in ports {
            var usage := At(net, ports[p.destPort], NO_NETWORK);
            net := net[ports[p.destPort] := usage.(recv := Some((usage.recv.ValueOr(0) + p.length) % TWO_64))];
          }
        }
      }
      forall pid: U32
        ensures At(net, pid, NO_NETWORK) ==
          NetworkStat(CounterOf(packets[..i + 1], localIp, ports, pid, Receiving),
                      CounterOf(packets[..i + 1], localIp, ports, pid, Sending))
      {
        hide CounterOf;
        CounterStep(packets[..i], p, localIp, ports, pid, Receiving);
        CounterStep(packets[..i], p, localIp, ports, pid, Sending);
      }
    }
    assert packets[..|packets|] == packets;
  }

  // ---- totals per program

  /** A nat-valued view of each counter the totals add up. */
  datatype Metric = CpuMetric | MemMetric | DiskReadMetric | DiskWriteMetric | RecvMetric | SendMetric

  function Value(s: ProcessStat, m: Metric): nat {
    match m
    case CpuMetric => s.cpu
    case MemMetric => s.mem
    case DiskReadMetric => s.disk.read.ValueOr(0)
    case DiskWriteMetric => s.disk.write.ValueOr(0)
    case RecvMetric => s.network.recv.ValueOr(0)
    case SendMetric => s.network.send.ValueOr(0)
  }

  /** Percentages wrap at 32 bits, everything else at 64. */
  function Modulus(m: Metric): int {
    if m == CpuMetric then TWO_32 else TWO_64
  }

  function PidsNamed(t: Table, pids: set<U32>, name: seq<Byte>): set<U32> {
    set pid | pid in pids && pid in t.list && t.list[pid].name == name
  }

  function StatValue(t: Table, m: Metric): U32 -> nat {
    pid => Value(At(t.stat, pid, NO_STAT), m)
  }

  /** totals holds, for each program among the pids, the wrapped sums of its
      processes' counters, all of them present; and nothing for other names. */
  ghost predicate TotalsOf(t: Table, pids: set<U32>, totals: map<seq<Byte>, ProcessStat>) {
    && (forall name :: name in totals <==> PidsNamed(t, pids, name) != {})
    && (forall name, m :: name in totals ==>
          Value(totals[name], m) == Sum(PidsNamed(t, pids, name), StatValue(t, m)) % Modulus(m))
    && (forall name :: name in totals ==>
          && totals[name].disk.read.Some? && totals[name].disk.write.Some?
          && totals[name].network.recv.Some? && totals[name].network.send.Some?)
  }

  /** Adding one process to its program's running total. */
  function PlusStat(total: ProcessStat, s: ProcessStat): ProcessStat {
    ProcessStat((total.cpu + s.cpu) % TWO_32, (total.mem + s.mem) % TWO_64,
                DiskStat(Some(Sum64(total.disk.read, s.disk.read)), Some(Sum64(total.disk.write, s.disk.write))),
                NetworkStat(Some(Sum64(total.network.recv, s.network.recv)),
                            Some(Sum64(total.network.send, s.network.send))))
  }

  lemma PlusStatValue(total: ProcessStat, s: ProcessStat, m: Metric, sum: nat)
    requires Value(total, m) == sum % Modulus(m)
    ensures Value(PlusStat(total, s), m) == (sum + Value(s, m)) % Modulus(m)
  {
    ModAdd(sum, Value(s, m), Modulus(m));
  }

  lemma TotalsStep(t: Table, done: set<U32>, pid: U32, totals: map<seq<Byte>, ProcessStat>)
    requires pid in t.list && pid in t.stat && pid !in done
    requires TotalsOf(t, done, totals)
    ensures var name := t.list[pid].name;
            var total := if name in totals then totals[name] else NO_STAT;
            TotalsOf(t, done + {pid}, totals[name := PlusStat(total, t.stat[pid])])
  {
    hide Value, PlusStat, PidsNamed;
    var name := t.list[pid].name;
    var total := if name in totals then totals[name] else NO_STAT;
    var after := totals[name := PlusStat(total, t.stat[pid])];
    PidsNamedStep(t, done, pid);
    forall m
      ensures Value(after[name], m) == Sum(PidsNamed(t, done + {pid}, name), StatValue(t, m)) % Modulus(m)
    {
      var group := PidsNamed(t, done, name);
      SumAdd(group, StatValue(t, m), pid);
      NoStatValue(m);
      PlusStatValue(total, t.stat[pid], m, Sum(group, StatValue(t, m)));
    }
    PlusStatPresent(total, t.stat[pid]);
  }

  lemma PidsNamedStep(t: Table, done: set<U32>, pid: U32)
    requires pid in t.list && pid !in done
    ensures forall n :: PidsNamed(t, done + {pid}, n) ==
              if n == t.list[pid].name then PidsNamed(t, done, n) + {pid} else PidsNamed(t, done, n)
    ensures pid !in PidsNamed(t, done, t.list[pid].name)
  {
    forall n
      ensures PidsNamed(t, done + {pid}, n) ==
              if n == t.list[pid].name then PidsNamed(t, done, n) + {pid} else PidsNamed(t, done, n)
    {
    }
  }

  lemma NoStatValue(m: Metric)
    ensures Value(NO_STAT, m) == 0 == 0 % Modulus(m)
  {
  }

  lemma PlusStatPresent(total: ProcessStat, s: ProcessStat)
    ensures var r := PlusStat(total, s);
            r.disk.read.Some? && r.disk.write.Some? && r.network.recv.Some? && r.network.send.Some?
  {
  }

  /** get_map_program_name_resource: whatever order the table is walked in, the
      result is the same set of sums. */
  method GetMapProgramNameResource(table: ProcessTable) returns (totals: map<seq<Byte>, ProcessStat>)
    requires table.listTable.Keys <= table.statTable.Keys
    ensures TotalsOf(table.View(), table.listTable.Keys, totals)
  {
    var t := table.View();
    totals := map[];
    var todo := t.list.Keys;
    while todo != {}
      invariant todo <= t.list.Keys
      invariant TotalsOf(t, t.list.Keys - todo, totals)
      decreases todo
    {
      hide TotalsOf, PlusStat;
      var pid :| pid in todo;
      TotalsStep(t, t.list.Keys - todo, pid, totals);
      assert t.list.Keys - (todo - {pid}) == t.list.Keys - todo + {pid};
      var name := t.list[pid].name;
      var total := if name in totals then totals[name] else NO_STAT;
      totals := totals[name := PlusStat(total, t.stat[pid])];
      todo := todo - {pid};
    }
    assert t.list.Keys - {} == t.list.Keys;
  }

  /** A counter summed over the statistics of the pids with a name. */
  ghost function SumNamed(t: Table, pids: set<U32>, name: seq<Byte>, m: Metric): nat {
    var own := set pid: U32 | pid in pids && pid in t.list && t.list[pid].name == name;
    Sum(own, StatValue(t, m))
  }

  lemma SumOfMetric(t: Table, pids: set<U32>, totals: map<seq<Byte>, ProcessStat>, name: seq<Byte>, m: Metric)
    requires TotalsOf(t, pids, totals) && name in totals
    ensures Value(totals[name], m) == SumNamed(t, pids, name, m) % Modulus(m)
  {
    var own := set pid: U32 | pid in pids && pid in t.list && t.list[pid].name == name;
    assert own == PidsNamed(t, pids, name);
  }

  /** The totals of a program, written out: there are some if and only if one of the
      pids has its name, and each is the sum over those pids, the percentages on 32
      bits, the rest on 64, and none of them absent. */
  lemma TotalsMean(t: Table, pids: set<U32>, totals: map<seq<Byte>, ProcessStat>, name: seq<Byte>)
    requires TotalsOf(t, pids, totals) && pids <= t.list.Keys
    ensures name in totals <==> exists pid :: pid in pids && t.list[pid].name == name
    ensures name in totals ==>
              var wrap := 0x1_0000_0000_0000_0000;
              && totals[name].cpu == SumNamed(t, pids, name, CpuMetric) % 0x1_0000_0000
              && totals[name].mem == SumNamed(t, pids, name, MemMetric) % wrap
              && totals[name].disk.read == Some(SumNamed(t, pids, name, DiskReadMetric) % wrap)
              && totals[name].disk.write == Some(SumNamed(t, pids, name, DiskWriteMetric) % wrap)
              && totals[name].network.recv == Some(SumNamed(t, pids, name, RecvMetric) % wrap)
              && totals[name].network.send == Some(SumNamed(t, pids, name, SendMetric) % wrap)
  {
    SomeNamed(t, pids, name);
    if name in totals {
      hide SumNamed, PidsNamed;
      forall m: Metric
        ensures Value(totals[name], m) == SumNamed(t, pids, name, m) % Modulus(m)
      {
        SumOfMetric(t, pids, totals, name, m);
      }
      AllPresent(t, pids, totals, name);
      hide TotalsOf, Value;
      ValuesOf(totals[name]);
    }
  }

  lemma SomeNamed(t: Table, pids: set<U32>, name: seq<Byte>)
    requires pids <= t.list.Keys
    ensures PidsNamed(t, pids, name) != {} <==> exists pid :: pid in pids && t.list[pid].name == name
  {
    if pid :| pid in pids && t.list[pid].name == name {
      assert pid in PidsNamed(t, pids, name);
    }
  }

  lemma AllPresent(t: Table, pids: set<U32>, totals: map<seq<Byte>, ProcessStat>, name: seq<Byte>)
    requires TotalsOf(t, pids, totals) && name in totals
    ensures totals[name].disk.read.Some? && totals[name].disk.write.Some?
    ensures totals[name].network.recv.Some? && totals[name].network.send.Some?
  {
  }

  /** What each process adds to the sums; an absent counter adds 0. */
  lemma Summands(t: Table, pid: U32)
    requires pid in t.stat
    ensures var s := t.stat[pid];
            && StatValue(t, CpuMetric)(pid) == s.cpu && StatValue(t, MemMetric)(pid) == s.mem
            && StatValue(t, DiskReadMetric)(pid) == (if s.disk.read.Some? then s.disk.read.value else 0)
            && StatValue(t, DiskWriteMetric)(pid) == (if s.disk.write.Some? then s.disk.write.value else 0)
            && StatValue(t, RecvMetric)(pid) == (if s.network.recv.Some? then s.network.recv.value else 0)
            && StatValue(t, SendMetric)(pid) == (if s.network.send.Some? then s.network.send.value else 0)
  {
  }

  lemma ValuesOf(s: ProcessStat)
    ensures Value(s, CpuMetric) == s.cpu && Value(s, MemMetric) == s.mem
    ensures Value(s, DiskReadMetric) == s.disk.read.ValueOr(0) && Value(s, DiskWriteMetric) == s.disk.write.ValueOr(0)
    ensures Value(s, RecvMetric) == s.network.recv.ValueOr(0) && Value(s, SendMetric) == s.network.send.ValueOr(0)
  {
  }

  /** The totals are determined by the table alone. */
  lemma TotalsUnique(t: Table, pids: set<U32>, a: map<seq<Byte>, ProcessStat>, b: map<seq<Byte>, ProcessStat>)
    requires TotalsOf(t, pids, a) && TotalsOf(t, pids, b)
    ensures a == b
  {
    assert forall name :: name in a <==> name in b;
    forall name | name in a
      ensures a[name] == b[name]
    {
      SameValues(a[name], b[name], t, PidsNamed(t, pids, name));
    }
  }

  lemma SameValues(a: ProcessStat, b: ProcessStat, t: Table, pids: set<U32>)
    requires forall m :: Value(a, m) == Sum(pids, StatValue(t, m)) % Modulus(m)
    requires forall m :: Value(b, m) == Sum(pids, StatValue(t, m)) % Modulus(m)
    requires a.disk.read.Some? && a.disk.write.Some? && a.network.recv.Some? && a.network.send.Some?
    requires b.disk.read.Some? && b.disk.write.Some? && b.network.recv.Some? && b.network.send.Some?
    ensures a == b
  {
    assert Value(a, CpuMetric) == Value(b, CpuMetric);
    assert Value(a, MemMetric) == Value(b, MemMetric);
    assert Value(a, DiskReadMetric) == Value(b, DiskReadMetric);
    assert Value(a, DiskWriteMetric) == Value(b, DiskWriteMetric);
    assert Value(a, RecvMetric) == Value(b, RecvMetric);
    assert Value(a, SendMetric) == Value(b, SendMetric);
  }

  // ---- conservation, from packets to names

  /** The bytes of all packets charged, in one direction, to one of the pids. */
  function BytesTo(ps: seq<Packet>, localIp: U32, ports: map<U16, U32>, pids: set<U32>, way: Direction): nat {
    if ps == [] then 0
    else
      var last := ps[|ps| - 1];
      var to := ChargedTo(last, localIp, ports);
      BytesTo(ps[..|ps| - 1], localIp, ports, pids, way)
      + if to.Some? && to.value.0 in pids && to.value.1 == way then last.length else 0
  }

  /** Written out: what the packets sent by, or to, the pids' ports hold. */
  lemma {:induction false} BytesToMean(ps: seq<Packet>, localIp: U32, ports: map<U16, U32>, pids: set<U32>)
    ensures BytesTo(ps, localIp, ports, pids, Sending) == LengthOf(ps, SentBy(localIp, ports, pids))
    ensures BytesTo(ps, localIp, ports, pids, Receiving) == LengthOf(ps, ReceivedBy(localIp, ports, pids))
  {
    if ps != [] {
      BytesToMean(ps[..|ps| - 1], localIp, ports, pids);
    }
  }

  function BytesOfEach(ps: seq<Packet>, localIp: U32, ports: map<U16, U32>, way: Direction): U32 -> nat {
    pid => BytesOf(ps, localIp, ports, pid, way)
  }

  /** Every charged byte belongs to exactly one process. */
  lemma {:induction false} PacketsToPids(ps: seq<Packet>, localIp: U32, ports: map<U16, U32>,
                                         pids: set<U32>, way: Direction)
    ensures Sum(pids, BytesOfEach(ps, localIp, ports, way)) == BytesTo(ps, localIp, ports, pids, way)
  {
    var f := BytesOfEach(ps, localIp, ports, way);
    if ps == [] {
      SumZero(pids, f);
    } else {
      var last := ps[|ps| - 1];
      var to := ChargedTo(last, localIp, ports);
      var g := BytesOfEach(ps[..|ps| - 1], localIp, ports, way);
      var h: U32 -> nat := pid => if to == Some((pid, way)) then last.length else 0;
      PacketsToPids(ps[..|ps| - 1], localIp, ports, pids, way);
      SumPlus(pids, g, h, f);
      if to.Some? && to.value.0 in pids && to.value.1 == way {
        SumTake(pids, h, to.value.0);
        SumZero(pids - {to.value.0}, h);
      } else {
        SumZero(pids, h);
      }
    }
  }

  lemma {:induction false} SumZero<K(!new)>(s: set<K>, f: K -> nat)
    requires forall x :: x in s ==> f(x) == 0
    ensures Sum(s, f) == 0
    decreases |s|
  {
    if s != {} {
      var x :| x in s;
      SumTake(s, f, x);
      SumZero(s - {x}, f);
    }
  }

  ghost function SumOfNamed(t: Table, pids: set<U32>, f: U32 -> nat): seq<Byte> -> nat {
    name => Sum(PidsNamed(t, pids, name), f)
  }

  /** Grouping pids by name and adding up the groups adds up everything. */
  lemma {:induction false} NamesToPids(t: Table, pids: set<U32>, names: set<seq<Byte>>, f: U32 -> nat)
    requires pids <= t.list.Keys
    requires forall pid :: pid in pids ==> t.list[pid].name in names
    ensures Sum(names, SumOfNamed(t, pids, f)) == Sum(pids, f)
    decreases |names|
  {
    if names == {} {
      assert pids == {};
    } else {
      var name :| name in names;
      var here := PidsNamed(t, pids, name);
      var rest := pids - here;
      NamedSplit(t, pids, names, name);
      hide PidsNamed;
      SumTake(names, SumOfNamed(t, pids, f), name);
      OtherNames(t, pids, name, f);
      SumSame(names - {name}, SumOfNamed(t, rest, f), SumOfNamed(t, pids, f));
      NamesToPids(t, rest, names - {name}, f);
      SumUnion(here, rest, f);
    }
  }

  lemma NamedSplit(t: Table, pids: set<U32>, names: set<seq<Byte>>, name: seq<Byte>)
    requires pids <= t.list.Keys
    requires forall pid :: pid in pids ==> t.list[pid].name in names
    ensures var here := PidsNamed(t, pids, name);
            && here !! pids - here && here + (pids - here) == pids
            && forall pid :: pid in pids - here ==> t.list[pid].name in names - {name}
  {
  }

  /** Removing one name's pids leaves the other names' groups alone. */
  lemma OtherNames(t: Table, pids: set<U32>, name: seq<Byte>, f: U32 -> nat)
    ensures forall n :: n != name ==>
              SumOfNamed(t, pids - PidsNamed(t, pids, name), f)(n) == SumOfNamed(t, pids, f)(n)
  {
    forall n | n != name
      ensures SumOfNamed(t, pids - PidsNamed(t, pids, name), f)(n) == SumOfNamed(t, pids, f)(n)
    {
      assert PidsNamed(t, pids - PidsNamed(t, pids, name), n) == PidsNamed(t, pids, n);
    }
  }

  ghost function TotalValue(totals: map<seq<Byte>, ProcessStat>, m: Metric): seq<Byte> -> nat {
    name => if name in totals then Value(totals[name], m) else 0
  }

  function WayMetric(way: Direction): Metric {
    if way == Receiving then RecvMetric else SendMetric
  }

  /** Bytes are conserved: after an update fed with the packets of this tick, the
      network totals of all programs add up, modulo 2^64, to the bytes of the TCP
      packets whose port belongs to a process kept in the table. */
  lemma BytesConserved(t0: Table, rs: seq<Reading>, ps: seq<Packet>, localIp: U32, ports: map<U16, U32>,
                       net: map<U32, NetworkStat>, totals: map<seq<Byte>, ProcessStat>, way: Direction)
    requires Agree(t0) && Accounts(net, ps, localIp, ports)
    requires TotalsOf(Updated(t0, rs, net), Updated(t0, rs, net).list.Keys, totals)
    ensures Sum(totals.Keys, TotalValue(totals, WayMetric(way))) % TWO_64
         == BytesTo(ps, localIp, ports, Updated(t0, rs, net).list.Keys, way) % TWO_64
  {
    UpdateAgrees(t0, rs, net);
    TotalsAddUp(Updated(t0, rs, net), ps, localIp, ports, net, totals, way);
  }

  lemma TotalsAddUp(t: Table, ps: seq<Packet>, localIp: U32, ports: map<U16, U32>,
                    net: map<U32, NetworkStat>, totals: map<seq<Byte>, ProcessStat>, way: Direction)
    requires Agree(t) && Accounts(net, ps, localIp, ports) && TotalsOf(t, t.list.Keys, totals)
    requires forall pid :: pid in t.list ==> t.stat[pid].network == At(net, pid, NO_NETWORK)
    ensures Sum(totals.Keys, TotalValue(totals, WayMetric(way))) % TWO_64
         == BytesTo(ps, localIp, ports, t.list.Keys, way) % TWO_64
  {
    hide TotalsOf, Accounts, BytesOf, BytesTo, Value;
    var pids, m := t.list.Keys, WayMetric(way);
    var each, named := StatValue(t, m), SumOfNamed(t, pids, StatValue(t, m));
    NamesAreCovered(t, totals, m);
    SumMod(totals.Keys, named, TotalValue(totals, m));
    NamesToPids(t, pids, totals.Keys, each);
    var bytes := BytesOfEach(ps, localIp, ports, way);
    forall pid | pid in pids
      ensures each(pid) == bytes(pid) % TWO_64
    {
      NetworkOfPid(t, ps, localIp, ports, net, pid, way);
    }
    SumMod(pids, bytes, each);
    PacketsToPids(ps, localIp, ports, pids, way);
  }

  lemma NamesAreCovered(t: Table, totals: map<seq<Byte>, ProcessStat>, m: Metric)
    requires TotalsOf(t, t.list.Keys, totals)
    ensures forall pid :: pid in t.list ==> t.list[pid].name in totals.Keys
    ensures forall name :: name in totals.Keys ==>
              TotalValue(totals, m)(name) == SumOfNamed(t, t.list.Keys, StatValue(t, m))(name) % Modulus(m)
  {
    forall pid | pid in t.list
      ensures t.list[pid].name in totals.Keys
    {
      assert pid in PidsNamed(t, t.list.Keys, t.list[pid].name);
    }
  }

  lemma NetworkOfPid(t: Table, ps: seq<Packet>, localIp: U32, ports: map<U16, U32>,
                     net: map<U32, NetworkStat>, pid: U32, way: Direction)
    requires pid in t.stat && t.stat[pid].network == At(net, pid, NO_NETWORK)
    requires Accounts(net, ps, localIp, ports)
    ensures Value(t.stat[pid], WayMetric(way)) == BytesOf(ps, localIp, ports, pid, way) % TWO_64
  {
    hide ChargedTo;
    if !AnyFor(ps, localIp, ports, pid, way) {
      NoneForNothing(ps, localIp, ports, pid, way);
    }
  }
}
