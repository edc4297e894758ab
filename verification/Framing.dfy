/** Length-prefixed messages over a socket that sends and receives piecemeal
    (send_exact, recv_exact, send_message, recv_message). */
module Framing {
  import opened Bytes
  import opened Serializable

  /** What the kernel answers to the i-th send or recv: a byte count it is ready
      to move, or a non-positive number for an error or a closed connection. */
  type Kernel = nat -> int

  datatype Moved = Moved(count: nat, ok: bool, calls: nat)

  /** The transfer loop: from `done` bytes on, move pieces until `size` is
      reached, or stop at the first call that moves nothing. */
  function Move(done: nat, size: nat, available: nat, kernel: Kernel, calls: nat): Moved
    requires done <= size && done <= available
    decreases size - done
  {
    if done >= size then Moved(done, true, calls)
    else
      var piece := Min(kernel(calls), Min(size, available) - done);
      if piece <= 0 then Moved(done, false, calls + 1)
      else Move(done + piece, size, available, kernel, calls + 1)
  }

  ghost predicate NeverFails(kernel: Kernel) {
    forall i: nat :: kernel(i) > 0
  }

  /** Whatever the split into pieces, the loop stops with everything moved or
      reports failure with less; without kernel errors it fails exactly when the
      data runs out. */
  lemma {:induction false} MoveOutcome(done: nat, size: nat, available: nat, kernel: Kernel, calls: nat)
    requires done <= size && done <= available
    ensures var m := Move(done, size, available, kernel, calls);
            && done <= m.count <= Min(size, available)
            && m.ok == (m.count == size)
            && (NeverFails(kernel) ==> m.count == Min(size, available))
    decreases size - done
  {
    if done < size {
      var piece := Min(kernel(calls), Min(size, available) - done);
      if piece > 0 {
        MoveOutcome(done + piece, size, available, kernel, calls + 1);
      }
    }
  }

  /** One connection: the bytes sent so far and the bytes still to arrive. */
  class Socket {
    const kernel: Kernel
    var calls: nat
    var sent: seq<Byte>
    var incoming: seq<Byte>

    constructor (kernel: Kernel, incoming: seq<Byte>)
      ensures this.kernel == kernel && calls == 0 && sent == [] && this.incoming == incoming
    {
      this.kernel := kernel;
      calls, sent, this.incoming := 0, [], incoming;
    }

    method Send(data: seq<Byte>) returns (n: int)
      modifies this
      ensures n == Min(kernel(old(calls)), |data|) && calls == old(calls) + 1
      ensures incoming == old(incoming)
      ensures sent == if n > 0 then old(sent) + data[..n] else old(sent)
    {
      n := Min(kernel(calls), |data|);
      calls := calls + 1;
      if n > 0 {
        sent := sent + data[..n];
      }
    }

    method Recv(size: nat) returns (n: int, data: seq<Byte>)
      modifies this
      ensures n == Min(kernel(old(calls)), Min(size, |old(incoming)|)) && calls == old(calls) + 1
      ensures sent == old(sent)
      ensures n > 0 ==> data == old(incoming)[..n] && incoming == old(incoming)[n..]
      ensures n <= 0 ==> data == [] && incoming == old(incoming)
    {
      n := Min(kernel(calls), Min(size, |incoming|));
      calls := calls + 1;
      data := [];
      if n > 0 {
        data, incoming := incoming[..n], incoming[n..];
      }
    }

    /** ok is false when the source throws "send failed". */
    method SendExact(data: seq<Byte>) returns (ok: bool)
      modifies this
      ensures var m := Move(0, |data|, |data|, kernel, old(calls));
              && m.count <= |data|
              && ok == m.ok && calls == m.calls
              && sent == old(sent) + data[..m.count] && incoming == old(incoming)
    {
      ghost var m := Move(0, |data|, |data|, kernel, calls);
      var total := 0;
      while total < |data|
        invariant 0 <= total <= |data|
        invariant Move(total, |data|, |data|, kernel, calls) == m
        invariant sent == old(sent) + data[..total] && incoming == old(incoming)
      {
        var n := Send(data[total..]);
        if n <= 0 {
          return false;
        }
        assert data[..total] + data[total..][..n] == data[..total + n];
        total := total + n;
      }
      ok := true;
    }

    /** ok is false when the source throws "recv failed". */
    method RecvExact(size: nat) returns (ok: bool, buffer: seq<Byte>)
      modifies this
      ensures var m := Move(0, size, |old(incoming)|, kernel, old(calls));
              && m.count <= |old(incoming)|
              && ok == m.ok && calls == m.calls
              && buffer == old(incoming)[..m.count] && incoming == old(incoming)[m.count..]
              && sent == old(sent)
    {
      ghost var m := Move(0, size, |incoming|, kernel, calls);
      ghost var all := incoming;
      var total := 0;
      buffer := [];
      while total < size
        invariant 0 <= total <= size && total <= |all|
        invariant Move(total, size, |all|, kernel, calls) == m
        invariant buffer == all[..total] && incoming == all[total..] && sent == old(sent)
      {
        var n, piece := Recv(size - total);
        if n <= 0 {
          return false, buffer;
        }
        assert all[..total] + all[total..][..n] == all[..total + n];
        assert all[total..][n..] == all[total + n..];
        total := total + n;
        buffer := buffer + piece;
      }
      ok := true;
    }

    method SendMessage(payload: seq<Byte>) returns (ok: bool)
      modifies this
      ensures var r := FrameSent(payload, kernel, old(calls));
              ok == r.ok && calls == r.calls && sent == old(sent) + r.wire
    {
      Widths();
      var size: U32 := |payload| % TWO_32;
      SwappedLaws(size, 4);
      var header := LittleEndian(SwapEndian32(size), 4);
      ok := SendExact(header);
      MoveOutcome(0, 4, 4, kernel, old(calls));
      if ok {
        assert header[..4] == header;
        ok := SendExact(payload);
        ghost var m := Move(0, |payload|, |payload|, kernel, Move(0, 4, 4, kernel, old(calls)).calls);
        Associate(old(sent), header, payload[..m.count]);
      }
    }

    method RecvMessage() returns (message: Option<seq<Byte>>)
      modifies this
      ensures FrameReceived(old(incoming), kernel, old(calls)) == Received(message, incoming, calls)
    {
      ghost var in0 := incoming;
      MoveOutcome(0, 4, |incoming|, kernel, calls);
      var ok, image := RecvExact(4);
      if !ok {
        return None;
      }
      SwapOfImage(image);
      Widths();
      var size := SwapEndian32(FromLittleEndian(image));
      MoveOutcome(0, size, |incoming|, kernel, calls);
      var buffer;
      ok, buffer := RecvExact(size);
      if !ok {
        return None;
      }
      message := Some(buffer);
    }
  }

  // ---- what the two message methods do to the byte stream

  function Frame(payload: seq<Byte>): seq<Byte> {
    BigEndian(|payload| % TWO_32, 4) + payload
  }

  datatype Wire = Wire(wire: seq<Byte>, ok: bool, calls: nat)

  /** The bytes one send_message puts on the wire. */
  function FrameSent(payload: seq<Byte>, kernel: Kernel, calls: nat): Wire {
    MoveOutcome(0, 4, 4, kernel, calls);
    var header := BigEndian(|payload| % TWO_32, 4);
    var m1 := Move(0, 4, 4, kernel, calls);
    if !m1.ok then Wire(header[..m1.count], false, m1.calls)
    else
      MoveOutcome(0, |payload|, |payload|, kernel, m1.calls);
      var m2 := Move(0, |payload|, |payload|, kernel, m1.calls);
      Wire(header + payload[..m2.count], m2.ok, m2.calls)
  }

  datatype Received = Received(message: Option<seq<Byte>>, rest: seq<Byte>, calls: nat)

  function FrameReceived(incoming: seq<Byte>, kernel: Kernel, calls: nat): Received {
    MoveOutcome(0, 4, |incoming|, kernel, calls);
    var m1 := Move(0, 4, |incoming|, kernel, calls);
    var after := incoming[m1.count..];
    if !m1.ok then Received(None, after, m1.calls)
    else
      var size := FromBigEndian(incoming[..4]);
      MoveOutcome(0, size, |after|, kernel, m1.calls);
      var m2 := Move(0, size, |after|, kernel, m1.calls);
      Received(if m2.ok then Some(after[..size]) else None, after[m2.count..], m2.calls)
  }

  function Frames(ps: seq<seq<Byte>>): seq<Byte> {
    if ps == [] then [] else Frame(ps[0]) + Frames(ps[1..])
  }

  /** The bytes a run of send_message calls puts on the wire, stopping at the first that throws. */
  function AllSent(ps: seq<seq<Byte>>, kernel: Kernel, calls: nat): seq<Byte> {
    if ps == [] then []
    else
      var w := FrameSent(ps[0], kernel, calls);
      if w.ok then w.wire + AllSent(ps[1..], kernel, w.calls) else w.wire
  }

  /** The messages n recv_message calls return, and what stays unread. */
  function AllReceived(incoming: seq<Byte>, n: nat, kernel: Kernel, calls: nat): (seq<seq<Byte>>, seq<Byte>)
    decreases n
  {
    if n == 0 then ([], incoming)
    else
      var r := FrameReceived(incoming, kernel, calls);
      if r.message == None then ([], r.rest)
      else
        var (ms, rest) := AllReceived(r.rest, n - 1, kernel, r.calls);
        ([r.message.value] + ms, rest)
  }

  lemma FrameSentWhole(payload: seq<Byte>, kernel: Kernel, calls: nat)
    requires NeverFails(kernel)
    ensures FrameSent(payload, kernel, calls).ok
    ensures FrameSent(payload, kernel, calls).wire == Frame(payload)
  {
    var m1 := Move(0, 4, 4, kernel, calls);
    MoveOutcome(0, 4, 4, kernel, calls);
    MoveOutcome(0, |payload|, |payload|, kernel, m1.calls);
    assert payload[..|payload|] == payload;
  }

  /** Whatever goes wrong while sending, only a prefix of the frame is on the
      wire, and it is the whole frame exactly when no exception was thrown. */
  lemma FrameSentPrefix(payload: seq<Byte>, kernel: Kernel, calls: nat)
    ensures FrameSent(payload, kernel, calls).wire <= Frame(payload)
    ensures FrameSent(payload, kernel, calls).ok <==> FrameSent(payload, kernel, calls).wire == Frame(payload)
  {
    var m1 := Move(0, 4, 4, kernel, calls);
    MoveOutcome(0, 4, 4, kernel, calls);
    MoveOutcome(0, |payload|, |payload|, kernel, m1.calls);
    assert payload[..|payload|] == payload;
  }

  /** A received message is the one framed exactly when its size fits the 32-bit
      header; a longer one comes out truncated. */
  lemma FrameReceivedIff(p: seq<Byte>, rest: seq<Byte>, kernel: Kernel, calls: nat)
    requires NeverFails(kernel)
    ensures var r := FrameReceived(Frame(p) + rest, kernel, calls);
            && r.message == Some(p[..|p| % TWO_32])
            && r.rest == p[|p| % TWO_32..] + rest
            && (r.message == Some(p) && r.rest == rest <==> |p| < TWO_32)
  {
    var s := Frame(p) + rest;
    var size := |p| % TWO_32;
    MoveOutcome(0, 4, |s|, kernel, calls);
    assert s[..4] == BigEndian(size, 4);
    assert s[4..] == p + rest;
    Widths();
    BigEndianRoundTrip(size, 4);
    var m1 := Move(0, 4, |s|, kernel, calls);
    MoveOutcome(0, size, |p + rest|, kernel, m1.calls);
    assert (p + rest)[..size] == p[..size];
    assert (p + rest)[size..] == p[size..] + rest;
    if |p| < TWO_32 {
      assert p[..size] == p && p[size..] + rest == rest;
    }
  }

  /** Whatever the kernel does, a message is received whole or not at all, and
      without kernel errors whenever the bytes announced are there. */
  lemma ReceivedWhole(incoming: seq<Byte>, kernel: Kernel, calls: nat)
    ensures var r := FrameReceived(incoming, kernel, calls);
            && (r.message != None ==>
                  var size := |r.message.value|;
                  size < 0x1_0000_0000 && incoming == BigEndian(size, 4) + r.message.value + r.rest)
            && (NeverFails(kernel) && r.message == None ==>
                  |incoming| < 4 || |incoming| - 4 < FromBigEndian(incoming[..4]))
  {
    hide FromBigEndian, BigEndian, Move;
    var m1 := Move(0, 4, |incoming|, kernel, calls);
    MoveOutcome(0, 4, |incoming|, kernel, calls);
    if m1.ok {
      var header, after := incoming[..4], incoming[4..];
      FromBigEndianBound(header);
      Widths();
      BigEndianOfBytes(header);
      var size := FromBigEndian(header);
      MoveOutcome(0, size, |after|, kernel, m1.calls);
      assert size <= |after| ==> header + after[..size] + after[size..] == incoming;
    }
  }

  /** A connection that ends in mid-frame yields no message. */
  lemma CutFrameIsLost(p: seq<Byte>, k: nat, kernel: Kernel, calls: nat)
    requires |p| < 0x1_0000_0000 && k < |Frame(p)|
    ensures FrameReceived(Frame(p)[..k], kernel, calls).message == None
  {
    hide FrameReceived, BigEndian;
    var r := FrameReceived(Frame(p)[..k], kernel, calls);
    ReceivedWhole(Frame(p)[..k], kernel, calls);
    if r.message != None {
      SameHeader(p, k, r.message.value, r.rest);
    }
  }

  lemma SameHeader(p: seq<Byte>, k: nat, m: seq<Byte>, rest: seq<Byte>)
    requires |p| < 0x1_0000_0000 && |m| < 0x1_0000_0000 && k <= |Frame(p)|
    requires Frame(p)[..k] == BigEndian(|m|, 4) + m + rest
    ensures |m| == |p|
  {
    FrameHeader(p, k);
    HeadOf(BigEndian(|m|, 4), m, rest);
    SameSize(|p|, |m|);
  }

  lemma FrameHeader(p: seq<Byte>, k: nat)
    requires |p| < 0x1_0000_0000 && 4 <= k <= |Frame(p)|
    ensures Frame(p)[..k][..4] == BigEndian(|p|, 4)
  {
    hide BigEndian;
  }

  lemma HeadOf(header: seq<Byte>, m: seq<Byte>, rest: seq<Byte>)
    ensures (header + m + rest)[..|header|] == header
  {
  }

  lemma SameSize(a: U32, b: U32)
    requires BigEndian(a, 4) == BigEndian(b, 4)
    ensures a == b
  {
    Widths();
    BigEndianRoundTrip(a, 4);
    BigEndianRoundTrip(b, 4);
  }

  lemma {:induction false} AllSentWhole(ps: seq<seq<Byte>>, kernel: Kernel, calls: nat)
    requires NeverFails(kernel)
    ensures AllSent(ps, kernel, calls) == Frames(ps)
  {
    if ps != [] {
      FrameSentWhole(ps[0], kernel, calls);
      AllSentWhole(ps[1..], kernel, FrameSent(ps[0], kernel, calls).calls);
    }
  }

  /** Any list of payloads, sent in any pieces and received in any pieces, comes
      out the same, in order, and nothing after it is consumed. */
  lemma {:induction false} StreamRoundTrip(ps: seq<seq<Byte>>, rest: seq<Byte>,
                                           sender: Kernel, sendCalls: nat, receiver: Kernel, recvCalls: nat)
    requires NeverFails(sender) && NeverFails(receiver)
    requires forall i :: 0 <= i < |ps| ==> |ps[i]| < TWO_32
    ensures AllReceived(AllSent(ps, sender, sendCalls) + rest, |ps|, receiver, recvCalls) == (ps, rest)
  {
    hide Frame, FrameReceived, FrameSent, AllSent, NeverFails;
    AllSentWhole(ps, sender, sendCalls);
    if ps == [] {
      assert [] + rest == rest;
    } else {
      var more := Frames(ps[1..]) + rest;
      assert Frames(ps) + rest == Frame(ps[0]) + more;
      FrameReceivedIff(ps[0], more, receiver, recvCalls);
      var next := FrameReceived(Frame(ps[0]) + more, receiver, recvCalls).calls;
      StreamRoundTrip(ps[1..], rest, sender, sendCalls, receiver, next);
      AllSentWhole(ps[1..], sender, sendCalls);
      assert ps == [ps[0]] + ps[1..];
    }
  }
}
