/** Selecting the k leading processes (get_comparator and get_sorted in
    src/client/process_table.cpp). */
module TopK {
  import opened Bytes
  import opened ProcessTables

  datatype SortType = CPU | MEM | DISK_READ | DISK_WRITE | DISK_TOTAL
                    | NETWORK_RECV | NETWORK_SEND | NETWORK_TOTAL

  datatype Row = Row(pid: U32, listing: Listing, stat: ProcessStat)

  /** The comparison on one optional counter: readable ones first, larger ones
      first, ties by pid. */
  predicate OptionalPrecedes(l: Option<U64>, r: Option<U64>, lpid: U32, rpid: U32) {
    if l.Some? && r.None? then true
    else if l.None? && r.Some? then false
    else if l.Some? && r.Some? && l.value != r.value then l.value > r.value
    else lpid < rpid
  }

  /** The comparison on the total of two optional counters.  With neither readable
      on both sides the larger pid comes first; equal totals are left unordered. */
  predicate TotalPrecedes(l1: Option<U64>, l2: Option<U64>, r1: Option<U64>, r2: Option<U64>,
                          lpid: U32, rpid: U32) {
    var leftOk := l1.Some? || l2.Some?;
    var rightOk := r1.Some? || r2.Some?;
    if !leftOk && !rightOk then lpid > rpid
    else if leftOk != rightOk then leftOk
    else Sum64(l1, l2) > Sum64(r1, r2)
  }

  /** The comparator: l goes before r. */
  predicate Precedes(sort: SortType, l: Row, r: Row) {
    var a, b := l.stat, r.stat;
    match sort
    case CPU => if a.cpu != b.cpu then a.cpu > b.cpu else l.pid < r.pid
    case MEM => if a.mem != b.mem then a.mem > b.mem else l.pid < r.pid
    case DISK_READ => OptionalPrecedes(a.disk.read, b.disk.read, l.pid, r.pid)
    case DISK_WRITE => OptionalPrecedes(a.disk.write, b.disk.write, l.pid, r.pid)
    case DISK_TOTAL => TotalPrecedes(a.disk.read, a.disk.write, b.disk.read, b.disk.write, l.pid, r.pid)
    case NETWORK_RECV => OptionalPrecedes(a.network.recv, b.network.recv, l.pid, r.pid)
    case NETWORK_SEND => OptionalPrecedes(a.network.send, b.network.send, l.pid, r.pid)
    case NETWORK_TOTAL => TotalPrecedes(a.network.recv, a.network.send, b.network.recv, b.network.send, l.pid, r.pid)
  }

  // ---- the comparator as an order on keys

  /** Readable before unreadable, then the larger value, then the tie rule. */
  datatype Key = Key(missing: int, value: int, tie: int)

  predicate KeyLess(a: Key, b: Key) {
    a.missing < b.missing
    || (a.missing == b.missing && a.value > b.value)
    || (a.missing == b.missing && a.value == b.value && a.tie < b.tie)
  }

  function OptionalKey(v: Option<U64>, pid: U32): Key {
    if v.Some? then Key(0, v.value, pid) else Key(1, 0, pid)
  }

  function TotalKey(v1: Option<U64>, v2: Option<U64>, pid: U32): Key {
    if v1.Some? || v2.Some? then Key(0, Sum64(v1, v2), 0) else Key(1, 0, -(pid as int))
  }

  function KeyOf(sort: SortType, r: Row): Key {
    match sort
    case CPU => Key(0, r.stat.cpu, r.pid)
    case MEM => Key(0, r.stat.mem, r.pid)
    case DISK_READ => OptionalKey(r.stat.disk.read, r.pid)
    case DISK_WRITE => OptionalKey(r.stat.disk.write, r.pid)
    case DISK_TOTAL => TotalKey(r.stat.disk.read, r.stat.disk.write, r.pid)
    case NETWORK_RECV => OptionalKey(r.stat.network.recv, r.pid)
    case NETWORK_SEND => OptionalKey(r.stat.network.send, r.pid)
    case NETWORK_TOTAL => TotalKey(r.stat.network.recv, r.stat.network.send, r.pid)
  }

  /** The eight-way comparator is the lexicographic order of one key. */
  lemma PrecedesIsKeyOrder(sort: SortType, l: Row, r: Row)
    ensures Precedes(sort, l, r) <==> KeyLess(KeyOf(sort, l), KeyOf(sort, r))
  {
    match sort
    case CPU =>
    case MEM =>
    case DISK_READ =>
    case DISK_WRITE =>
    case DISK_TOTAL =>
    case NETWORK_RECV =>
    case NETWORK_SEND =>
    case NETWORK_TOTAL =>
  }

  predicate Tied(sort: SortType, l: Row, r: Row) {
    !Precedes(sort, l, r) && !Precedes(sort, r, l)
  }

  /** For all eight types the comparator is a strict weak order, which is what
      std::partial_sort demands of it. */
  lemma StrictWeakOrder(sort: SortType, x: Row, y: Row, z: Row)
    ensures !Precedes(sort, x, x)
    ensures Precedes(sort, x, y) && Precedes(sort, y, z) ==> Precedes(sort, x, z)
    ensures Tied(sort, x, y) && Tied(sort, y, z) ==> Tied(sort, x, z)
  {
    hide Precedes, KeyOf;
    PrecedesIsKeyOrder(sort, x, x);
    PrecedesIsKeyOrder(sort, x, y); PrecedesIsKeyOrder(sort, y, x);
    PrecedesIsKeyOrder(sort, y, z); PrecedesIsKeyOrder(sort, z, y);
    PrecedesIsKeyOrder(sort, x, z); PrecedesIsKeyOrder(sort, z, x);
  }

  /** The six types that compare a single metric leave no two processes unordered. */
  lemma SingleMetricIsTotal(sort: SortType, l: Row, r: Row)
    requires sort != DISK_TOTAL && sort != NETWORK_TOTAL && l.pid != r.pid
    ensures Precedes(sort, l, r) || Precedes(sort, r, l)
  {
    PrecedesIsKeyOrder(sort, l, r);
    PrecedesIsKeyOrder(sort, r, l);
  }

  // ---- the comparator, written out for two processes

  lemma NumberOrder(sort: SortType, l: Row, r: Row, a: nat, b: nat)
    requires l.pid != r.pid
    requires (sort == CPU && a == l.stat.cpu && b == r.stat.cpu) || (sort == MEM && a == l.stat.mem && b == r.stat.mem)
    ensures Precedes(sort, l, r) <==> a > b || (a == b && l.pid < r.pid)
  {
  }

  /** A readable counter goes before an unreadable one, a larger one before a
      smaller one, and otherwise the smaller pid goes first. */
  lemma CounterOrder(sort: SortType, l: Row, r: Row, a: Option<U64>, b: Option<U64>)
    requires l.pid != r.pid
    requires || (sort == DISK_READ && a == l.stat.disk.read && b == r.stat.disk.read)
             || (sort == DISK_WRITE && a == l.stat.disk.write && b == r.stat.disk.write)
             || (sort == NETWORK_RECV && a == l.stat.network.recv && b == r.stat.network.recv)
             || (sort == NETWORK_SEND && a == l.stat.network.send && b == r.stat.network.send)
    ensures Precedes(sort, l, r) <==>
            || (a != None && b == None)
            || (a != None && b != None && a.value > b.value)
            || (a == b && l.pid < r.pid)
  {
  }

  /** The sums modulo 2^64 decide, with an absent counter as 0, once either side has
      a readable one; on equal sums nothing goes first; with nothing readable on
      both sides the larger pid does. */
  lemma SumOrder(sort: SortType, l: Row, r: Row, a1: Option<U64>, a2: Option<U64>, b1: Option<U64>, b2: Option<U64>)
    requires l.pid != r.pid
    requires || (sort == DISK_TOTAL && (a1, a2) == (l.stat.disk.read, l.stat.disk.write)
                 && (b1, b2) == (r.stat.disk.read, r.stat.disk.write))
             || (sort == NETWORK_TOTAL && (a1, a2) == (l.stat.network.recv, l.stat.network.send)
                 && (b1, b2) == (r.stat.network.recv, r.stat.network.send))
    ensures var none: Option<U64> := None;
            var a := ((if a1 == None then 0 else a1.value) + if a2 == None then 0 else a2.value)
                     % 0x1_0000_0000_0000_0000;
            var b := ((if b1 == None then 0 else b1.value) + if b2 == None then 0 else b2.value)
                     % 0x1_0000_0000_0000_0000;
            Precedes(sort, l, r) <==>
            || ((a1, a2) != (none, none) && ((b1, b2) == (none, none) || a > b))
            || ((a1, a2) == (b1, b2) == (none, none) && l.pid > r.pid)
  {
  }

  // ---- the selection

  predicate NoneBefore(sort: SortType, rows: seq<Row>, r: Row) {
    forall y :: y in rows ==> !Precedes(sort, y, r)
  }

  /** Each element is preceded by no later one. */
  predicate SortedTo(sort: SortType, s: seq<Row>, k: nat) {
    k <= |s| && forall i :: 0 <= i < k ==> NoneBefore(sort, s[i..], s[i])
  }

  lemma LeastExtends(sort: SortType, s: seq<Row>, i: nat, best: Row, candidate: Row)
    requires i < |s| && NoneBefore(sort, s[..i], best) && candidate == s[i]
    ensures NoneBefore(sort, s[..i + 1], if Precedes(sort, candidate, best) then candidate else best)
  {
    hide Precedes;
    var least := if Precedes(sort, candidate, best) then candidate else best;
    forall y | y in s[..i + 1]
      ensures !Precedes(sort, y, least)
    {
      StrictWeakOrder(sort, y, candidate, best);
      assert y in s[..i] || y == candidate;
    }
  }

  /** The position of an element that no other one precedes. */
  method LeastIndex(sort: SortType, s: seq<Row>) returns (m: nat)
    requires s != []
    ensures m < |s| && NoneBefore(sort, s, s[m])
  {
    hide Precedes;
    m := 0;
    StrictWeakOrder(sort, s[0], s[0], s[0]);
    for i := 1 to |s|
      invariant m < |s| && NoneBefore(sort, s[..i], s[m])
    {
      LeastExtends(sort, s, i, s[m], s[i]);
      if Precedes(sort, s[i], s[m]) {
        m := i;
      }
    }
    assert s[..|s|] == s;
  }

  /** std::partial_sort, with its standard contract: a rearrangement whose first
      `limit` elements are in order and preceded by none of the rest. */
  method PartialSort(sort: SortType, rows: seq<Row>, limit: nat) returns (s: seq<Row>)
    requires limit <= |rows|
    ensures multiset(s) == multiset(rows) && |s| == |rows|
    ensures SortedTo(sort, s, limit)
  {
    hide Precedes;
    s := rows;
    for k := 0 to limit
      invariant multiset(s) == multiset(rows) && |s| == |rows|
      invariant SortedTo(sort, s, k)
    {
      var m := LeastIndex(sort, s[k..]);
      SwapStep(sort, s, k, k + m);
      s := s[k := s[k + m]][k + m := s[k]];
    }
  }

  lemma SwapStep(sort: SortType, s: seq<Row>, k: nat, m: nat)
    requires k <= m < |s| && SortedTo(sort, s, k) && NoneBefore(sort, s[k..], s[m])
    ensures var t := s[k := s[m]][m := s[k]];
            SortedTo(sort, t, k + 1) && multiset(t) == multiset(s)
  {
    hide Precedes;
    var t := s[k := s[m]][m := s[k]];
    forall i | 0 <= i < k + 1
      ensures NoneBefore(sort, t[i..], t[i])
    {
      assert i < k ==> t[i] == s[i];
      assert i == k ==> t[i] == s[m];
      forall y | y in t[i..]
        ensures y in s[i..]
      {
        var j :| 0 <= j < |t[i..]| && t[i..][j] == y;
        var from := if i + j == k then m else if i + j == m then k else i + j;
        assert y == t[i + j] == s[from] == s[i..][from - i];
      }
    }
  }

  /** The rows of the table. */
  function RowOf(t: Table, pid: U32): Row
    requires pid in t.list && pid in t.stat
  {
    Row(pid, t.list[pid], t.stat[pid])
  }

  predicate RowsOf(t: Table, rows: seq<Row>, pids: set<U32>)
    requires t.list.Keys <= t.stat.Keys
  {
    && (forall i :: 0 <= i < |rows| ==>
          rows[i].pid in pids && rows[i].pid in t.list && rows[i] == RowOf(t, rows[i].pid))
    && (forall i, j :: 0 <= i < j < |rows| ==> rows[i].pid != rows[j].pid)
  }

  /** `limit` as the source computes it: 0 asks for everything, sizes are 32-bit. */
  function Limit(limit: U32, n: nat): nat {
    if limit == 0 then n % TWO_32 else Min(limit, n % TWO_32)
  }

  /** r is a process of the table that is not in s. */
  predicate LeftOut(t: Table, s: seq<Row>, r: Row)
    requires t.list.Keys <= t.stat.Keys
  {
    r.pid in t.list && r == RowOf(t, r.pid) && r !in s
  }

  /** A valid answer: `k` rows of distinct processes of the table, none preceded by a
      later one nor by a process left out. */
  ghost predicate Leading(sort: SortType, t: Table, k: nat, s: seq<Row>)
    requires t.list.Keys <= t.stat.Keys
  {
    && |s| == k
    && RowsOf(t, s, t.list.Keys)
    && (forall i, j :: 0 <= i < j < |s| ==> !Precedes(sort, s[j], s[i]))
    && (forall i, r :: 0 <= i < |s| && LeftOut(t, s, r) ==> !Precedes(sort, r, s[i]))
  }

  /** get_sorted.  Looking up a listed pid without statistics throws in the
      source; after any update of the table there is none.  Each row is a listed
      process with what both tables hold of it, none twice.  Limit 0 and limits past
      the table give every process, other limits so many rows, as long as 32 bits
      hold the table's size; past that the size is cut down to them. */
  method GetSorted(table: ProcessTable, sort: SortType, limit: U32) returns (ret: seq<Row>)
    requires table.listTable.Keys <= table.statTable.Keys
    ensures Leading(sort, table.View(), Limit(limit, |table.listTable|), ret)
    ensures forall i :: 0 <= i < |ret| ==>
              var pid := ret[i].pid;
              pid in table.listTable && ret[i] == Row(pid, table.listTable[pid], table.statTable[pid])
    ensures forall i, j :: 0 <= i < j < |ret| ==> ret[i].pid != ret[j].pid
    ensures var n := |table.listTable| % 0x1_0000_0000;
            |ret| == if limit != 0 && limit < n then limit else n
    ensures |table.listTable| < 0x1_0000_0000 && (limit == 0 || |table.listTable| <= limit) ==>
              forall pid :: pid in table.listTable ==> Row(pid, table.listTable[pid], table.statTable[pid]) in ret
  {
    hide Precedes, SortedTo, Leading, Limit;
    var t := table.View();
    var rows: seq<Row> := [];
    var todo := t.list.Keys;
    while todo != {}
      invariant todo <= t.list.Keys
      invariant RowsOf(t, rows, t.list.Keys - todo)
      invariant |rows| == |t.list.Keys| - |todo|
      invariant forall pid :: pid in t.list.Keys - todo ==> RowOf(t, pid) in rows
      decreases todo
    {
      var pid :| pid in todo;
      RowAdded(t, rows, t.list.Keys - todo, pid);
      assert t.list.Keys - (todo - {pid}) == t.list.Keys - todo + {pid};
      rows := rows + [RowOf(t, pid)];
      todo := todo - {pid};
    }
    assert t.list.Keys - {} == t.list.Keys;
    LimitIs(limit, |rows|);
    var k := Limit(limit, |rows|);
    var s := PartialSort(sort, rows, k);
    LeadingPart(t, sort, rows, s, k);
    FirstRows(t, rows, s, k);
    ret := s[..k];
  }

  lemma LimitIs(limit: U32, n: nat)
    ensures var m := n % 0x1_0000_0000;
            Limit(limit, n) == (if limit != 0 && limit < m then limit else m) <= n
  {
  }

  /** What the first k of the sorted rows are. */
  lemma FirstRows(t: Table, rows: seq<Row>, s: seq<Row>, k: nat)
    requires t.list.Keys <= t.stat.Keys && k <= |s|
    requires RowsOf(t, rows, t.list.Keys) && multiset(s) == multiset(rows)
    requires forall pid :: pid in t.list ==> RowOf(t, pid) in rows
    ensures forall i :: 0 <= i < k ==>
              var pid := s[..k][i].pid;
              pid in t.list && s[..k][i] == Row(pid, t.list[pid], t.stat[pid])
    ensures forall i, j :: 0 <= i < j < k ==> s[..k][i].pid != s[..k][j].pid
    ensures k == |s| ==> forall pid :: pid in t.list ==> Row(pid, t.list[pid], t.stat[pid]) in s[..k]
  {
    PermutedRows(t, rows, s);
    assert s[..|s|] == s;
    forall pid | pid in t.list
      ensures Row(pid, t.list[pid], t.stat[pid]) in s
    {
      assert RowOf(t, pid) in rows;
    }
  }

  lemma RowAdded(t: Table, rows: seq<Row>, done: set<U32>, pid: U32)
    requires t.list.Keys <= t.stat.Keys && done <= t.list.Keys && pid in t.list && pid !in done
    requires RowsOf(t, rows, done)
    requires forall p :: p in done ==> RowOf(t, p) in rows
    ensures RowsOf(t, rows + [RowOf(t, pid)], done + {pid})
    ensures forall p :: p in done + {pid} ==> RowOf(t, p) in rows + [RowOf(t, pid)]
  {
    var more := rows + [RowOf(t, pid)];
    assert more[|rows|] == RowOf(t, pid);
  }

  lemma {:induction false} DistinctIsPermuted(rows: seq<Row>, s: seq<Row>, i: nat, j: nat)
    requires multiset(s) == multiset(rows) && i < j < |s|
    requires forall i, j :: 0 <= i < j < |rows| ==> rows[i].pid != rows[j].pid
    ensures s[i] != s[j]
  {
    if s[i] == s[j] {
      var r := s[i];
      assert s == s[..j] + [s[j]] + s[j + 1..];
      assert r == s[..j][i];
      assert multiset(s)[r] >= 2;
      OnceOnly(rows, r);
    }
  }

  lemma {:induction false} OnceOnly(rows: seq<Row>, r: Row)
    requires forall i, j :: 0 <= i < j < |rows| ==> rows[i].pid != rows[j].pid
    ensures multiset(rows)[r] <= 1
  {
    if rows != [] {
      var init, last := rows[..|rows| - 1], rows[|rows| - 1];
      assert rows == init + [last];
      OnceOnly(init, r);
      if r == last {
        assert r !in init;
      }
    }
  }

  lemma PermutedRows(t: Table, rows: seq<Row>, s: seq<Row>)
    requires t.list.Keys <= t.stat.Keys
    requires RowsOf(t, rows, t.list.Keys) && multiset(s) == multiset(rows)
    ensures RowsOf(t, s, t.list.Keys)
    ensures forall r :: r in rows ==> r in s
  {
    forall i | 0 <= i < |s|
      ensures s[i].pid in t.list && s[i] == RowOf(t, s[i].pid)
    {
      assert s[i] in multiset(s);
      assert s[i] in rows;
    }
    forall i, j | 0 <= i < j < |s|
      ensures s[i].pid != s[j].pid
    {
      DistinctIsPermuted(rows, s, i, j);
    }
    forall r | r in rows
      ensures r in s
    {
      assert r in multiset(rows);
    }
  }

  /** Nothing after place i of a sorted prefix goes before it. */
  lemma SortedPair(sort: SortType, s: seq<Row>, k: nat, i: nat, j: nat)
    requires SortedTo(sort, s, k) && i < k && i <= j < |s|
    ensures !Precedes(sort, s[j], s[i])
  {
    hide Precedes;
    assert s[j] == s[i..][j - i];
  }

  lemma OmittedIsLater(s: seq<Row>, k: nat, r: Row) returns (j: nat)
    requires k <= |s| && r in s && r !in s[..k]
    ensures k <= j < |s| && s[j] == r
  {
    assert s == s[..k] + s[k..];
    assert r in s[k..];
    var m :| 0 <= m < |s[k..]| && s[k..][m] == r;
    j := k + m;
  }

  lemma LeadingPart(t: Table, sort: SortType, rows: seq<Row>, s: seq<Row>, k: nat)
    requires t.list.Keys <= t.stat.Keys && k <= |s|
    requires RowsOf(t, rows, t.list.Keys)
    requires forall pid :: pid in t.list ==> RowOf(t, pid) in rows
    requires multiset(s) == multiset(rows) && SortedTo(sort, s, k)
    ensures Leading(sort, t, k, s[..k])
  {
    hide Precedes, SortedTo;
    PermutedRows(t, rows, s);
    forall i, j | 0 <= i < j < k
      ensures !Precedes(sort, s[j], s[i])
    {
      SortedPair(sort, s, k, i, j);
    }
    forall i, r | 0 <= i < k && LeftOut(t, s[..k], r)
      ensures !Precedes(sort, r, s[i])
    {
      var j := OmittedIsLater(s, k, r);
      SortedPair(sort, s, k, i, j);
    }
  }

  // ---- is the answer determined?

  /** For the six single-metric types the answer depends on neither the map's order
      nor the sort: a shorter answer is a prefix of a longer one, and two answers of
      the same length are equal. */
  lemma {:induction false} LeadingIsPrefix(t: Table, sort: SortType, k: nat, n: nat,
                                           s: seq<Row>, full: seq<Row>, i: nat)
    requires t.list.Keys <= t.stat.Keys && k <= n
    requires sort != DISK_TOTAL && sort != NETWORK_TOTAL
    requires Leading(sort, t, k, s) && Leading(sort, t, n, full)
    requires i <= k && s[..i] == full[..i]
    ensures s == full[..k]
    decreases k - i
  {
    if i == k {
      assert s == s[..k];
    } else {
      SameAt(t, sort, s, full, i);
      assert s[..i + 1] == s[..i] + [s[i]] && full[..i + 1] == full[..i] + [full[i]];
      LeadingIsPrefix(t, sort, k, n, s, full, i + 1);
    }
  }

  lemma PrefixAgrees(s: seq<Row>, full: seq<Row>, i: nat)
    requires i <= |s| && i <= |full| && s[..i] == full[..i]
    ensures forall j :: 0 <= j < i ==> s[j] == full[j]
  {
    assert forall j :: 0 <= j < i ==> s[j] == s[..i][j] && full[j] == full[..i][j];
  }

  /** A row at place i of one answer is not before place i of the other, when they
      agree up to there. */
  lemma NotEarlier(t: Table, sort: SortType, s: seq<Row>, full: seq<Row>, i: nat)
    requires t.list.Keys <= t.stat.Keys
    requires Leading(sort, t, |s|, s) && Leading(sort, t, |full|, full)
    requires i < |s| && i < |full| && s[..i] == full[..i] && s[i] != full[i]
    ensures !Precedes(sort, s[i], full[i])
  {
    hide Precedes;
    assert s[i] !in full ==> LeftOut(t, full, s[i]);
    PrefixAgrees(s, full, i);
    if s[i] in full {
      var j :| 0 <= j < |full| && full[j] == s[i];
    }
  }

  lemma SameAt(t: Table, sort: SortType, s: seq<Row>, full: seq<Row>, i: nat)
    requires t.list.Keys <= t.stat.Keys
    requires sort != DISK_TOTAL && sort != NETWORK_TOTAL
    requires Leading(sort, t, |s|, s) && Leading(sort, t, |full|, full)
    requires i < |s| && i < |full| && s[..i] == full[..i]
    ensures s[i] == full[i]
  {
    hide Precedes;
    if s[i] != full[i] {
      NotEarlier(t, sort, s, full, i);
      NotEarlier(t, sort, full, s, i);
      SingleMetricIsTotal(sort, s[i], full[i]);
    }
  }

  ghost predicate NoTies(sort: SortType, s: seq<Row>) {
    forall i, j :: 0 <= i < j < |s| ==> !Tied(sort, s[i], s[j])
  }

  ghost predicate NoTiesOutside(sort: SortType, t: Table, s: seq<Row>)
    requires t.list.Keys <= t.stat.Keys
  {
    forall i, r :: 0 <= i < |s| && LeftOut(t, s, r) ==> !Tied(sort, s[i], r)
  }

  /** For every type and every length, an answer is the only one exactly when no two
      of its rows tie and none ties with a process left out: so for the two totals
      it is not determined as soon as equal readable totals meet inside it or at
      its end. */
  lemma AnswerUniqueIff(t: Table, sort: SortType, k: nat, s: seq<Row>)
    requires t.list.Keys <= t.stat.Keys
    requires Leading(sort, t, k, s)
    ensures (forall s' :: Leading(sort, t, k, s') ==> s' == s)
            <==> NoTies(sort, s) && NoTiesOutside(sort, t, s)
  {
    hide Precedes;
    if !NoTies(sort, s) {
      var i, j :| 0 <= i < j < |s| && Tied(sort, s[i], s[j]);
      SwapTied(t, sort, s, i, j);
      RowsDiffer(t, s, i, j);
      assert s[i := s[j]][j := s[i]][i] != s[i];
    } else if !NoTiesOutside(sort, t, s) {
      var i, r :| 0 <= i < |s| && LeftOut(t, s, r) && Tied(sort, s[i], r);
      ReplaceTied(t, sort, s, i, r);
      assert s[i := r][i] != s[i];
    } else {
      forall s' | Leading(sort, t, k, s')
        ensures s' == s
      {
        NoTiesUnique(t, sort, s, s', 0);
      }
    }
  }

  lemma RowsDiffer(t: Table, s: seq<Row>, i: nat, j: nat)
    requires t.list.Keys <= t.stat.Keys
    requires RowsOf(t, s, t.list.Keys) && i < j < |s|
    ensures s[i] != s[j]
  {
  }

  lemma {:induction false} NoTiesUnique(t: Table, sort: SortType, s: seq<Row>, s': seq<Row>, i: nat)
    requires t.list.Keys <= t.stat.Keys
    requires Leading(sort, t, |s|, s) && Leading(sort, t, |s|, s')
    requires NoTies(sort, s) && NoTiesOutside(sort, t, s)
    requires i <= |s| && s[..i] == s'[..i]
    ensures s' == s
    decreases |s| - i
  {
    hide Precedes;
    if i == |s| {
      assert s == s[..i] && s' == s'[..i];
    } else {
      if s[i] != s'[i] {
        NotEarlier(t, sort, s, s', i);
        NotEarlier(t, sort, s', s, i);
        NotTiedWith(t, sort, s, i, s'[i]);
      }
      assert s[..i + 1] == s[..i] + [s[i]] && s'[..i + 1] == s'[..i] + [s'[i]];
      NoTiesUnique(t, sort, s, s', i + 1);
    }
  }

  /** With no ties, no other process of the table ties with a kept one. */
  lemma NotTiedWith(t: Table, sort: SortType, s: seq<Row>, i: nat, r: Row)
    requires t.list.Keys <= t.stat.Keys
    requires NoTies(sort, s) && NoTiesOutside(sort, t, s)
    requires i < |s| && r != s[i] && r.pid in t.list && r == RowOf(t, r.pid)
    ensures !Tied(sort, s[i], r)
  {
    hide Precedes;
    if r in s {
      var j :| 0 <= j < |s| && s[j] == r;
    } else {
      assert LeftOut(t, s, r);
    }
  }

  /** Tied rows have the same key, so neither is told apart from the other. */
  lemma TiedAlike(sort: SortType, x: Row, y: Row, r: Row)
    requires Tied(sort, x, y)
    ensures Precedes(sort, x, r) <==> Precedes(sort, y, r)
    ensures Precedes(sort, r, x) <==> Precedes(sort, r, y)
  {
    hide Precedes, KeyOf;
    PrecedesIsKeyOrder(sort, x, y); PrecedesIsKeyOrder(sort, y, x);
    PrecedesIsKeyOrder(sort, x, r); PrecedesIsKeyOrder(sort, y, r);
    PrecedesIsKeyOrder(sort, r, x); PrecedesIsKeyOrder(sort, r, y);
  }

  /** Swapping two tied rows gives another valid answer. */
  lemma SwapTied(t: Table, sort: SortType, s: seq<Row>, i: nat, j: nat)
    requires t.list.Keys <= t.stat.Keys
    requires Leading(sort, t, |s|, s) && i < j < |s| && Tied(sort, s[i], s[j])
    ensures Leading(sort, t, |s|, s[i := s[j]][j := s[i]])
  {
    hide Precedes, RowOf;
    var u := s[i := s[j]][j := s[i]];
    StrictWeakOrder(sort, s[i], s[j], s[i]);
    forall a, b | 0 <= a < b < |u|
      ensures !Precedes(sort, u[b], u[a])
    {
      TiedAlike(sort, s[i], s[j], u[a]);
      TiedAlike(sort, s[i], s[j], u[b]);
      TiedAlike(sort, s[i], s[j], s[a]);
    }
    forall a, r | 0 <= a < |u| && LeftOut(t, u, r)
      ensures !Precedes(sort, r, u[a])
    {
      if r in s {
        SwappedMember(s, i, j, r);
      } else {
        assert LeftOut(t, s, r);
        assert u[a] == s[if a == i then j else if a == j then i else a];
      }
    }
  }

  lemma SwappedMember(s: seq<Row>, i: nat, j: nat, r: Row)
    requires i < j < |s| && r in s
    ensures r in s[i := s[j]][j := s[i]]
  {
    var b :| 0 <= b < |s| && s[b] == r;
    assert s[i := s[j]][j := s[i]][if b == i then j else if b == j then i else b] == r;
  }

  /** So does replacing a kept row by a tied one that was left out. */
  lemma ReplaceTied(t: Table, sort: SortType, s: seq<Row>, i: nat, r: Row)
    requires t.list.Keys <= t.stat.Keys
    requires Leading(sort, t, |s|, s) && i < |s| && LeftOut(t, s, r) && Tied(sort, s[i], r)
    ensures Leading(sort, t, |s|, s[i := r])
  {
    hide Precedes;
    var u := s[i := r];
    StrictWeakOrder(sort, r, r, r);
    forall a, b | 0 <= a < b < |u|
      ensures !Precedes(sort, u[b], u[a])
    {
      TiedAlike(sort, s[i], r, s[a]);
      TiedAlike(sort, s[i], r, s[b]);
    }
    forall a, q | 0 <= a < |u| && LeftOut(t, u, q)
      ensures !Precedes(sort, q, u[a])
    {
      TiedAlike(sort, s[i], r, s[a]);
      if q == s[i] {
        TiedAlike(sort, s[i], r, u[a]);
      } else {
        LeftOutToo(s, i, r, q);
        assert LeftOut(t, s, q);
        TiedAlike(sort, s[i], r, q);
      }
    }
  }

  lemma LeftOutToo(s: seq<Row>, i: nat, r: Row, q: Row)
    requires i < |s| && q !in s[i := r] && q != s[i]
    ensures q !in s
  {
    assert forall b :: 0 <= b < |s| && b != i ==> s[b] == s[i := r][b];
  }
}
