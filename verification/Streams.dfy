/** Input and output streams, as the serializers use them. */
module Streams {
  import opened Bytes

  /** What is left to read, and whether the stream is still usable. */
  datatype Input = Input(rest: seq<Byte>, good: bool)

  /** Outcome of a reader: it throws, or yields a value and the stream after it. */
  datatype Read<+T> = Thrown | Got(value: T, next: Input) {
    predicate IsFailure() {
      Thrown?
    }

    function PropagateFailure<U>(): Read<U>
      requires Thrown?
    {
      Thrown
    }

    function Extract(): (T, Input)
      requires Got?
    {
      (value, next)
    }
  }

  function Fresh(s: seq<Byte>): Input {
    Input(s, true)
  }

  /** Index of the first `delim`, or |s|. */
  function Find(s: seq<Byte>, delim: Byte): (k: nat)
    ensures k <= |s|
    ensures forall i :: 0 <= i < k ==> s[i] != delim
    ensures k < |s| ==> s[k] == delim
  {
    if s == [] || s[0] == delim then 0 else 1 + Find(s[1..], delim)
  }

  lemma FindIs(pre: seq<Byte>, delim: Byte, rest: seq<Byte>)
    requires delim !in pre
    ensures Find(pre + [delim] + rest, delim) == |pre|
  {
    var s := pre + [delim] + rest;
    assert s[|pre|] == delim;
    assert forall i :: 0 <= i < |pre| ==> s[i] == pre[i];
  }

  /** Result of std::getline: the target string, the stream after it, and
      whether the call succeeded. */
  datatype Line = Line(text: seq<Byte>, next: Input, ok: bool)

  /** std::getline: an unusable stream leaves `prior` in the target; otherwise
      everything up to the delimiter is taken and the delimiter dropped.  Running
      off the end makes the stream unusable, and is a failure if nothing was taken. */
  function LineOf(inp: Input, delim: Byte, prior: seq<Byte>): Line {
    if !inp.good then Line(prior, inp, false)
    else
      var k := Find(inp.rest, delim);
      if k < |inp.rest| then Line(inp.rest[..k], Fresh(inp.rest[k + 1..]), true)
      else Line(inp.rest, Input([], false), inp.rest != [])
  }

  class OutStream {
    var data: seq<Byte>

    constructor ()
      ensures data == []
    {
      data := [];
    }

    method Write(s: seq<Byte>)
      modifies this
      ensures data == old(data) + s
    {
      data := data + s;
    }
  }

  class InStream {
    var rest: seq<Byte>
    var good: bool

    constructor (s: seq<Byte>)
      ensures View() == Fresh(s)
    {
      rest, good := s, true;
    }

    function View(): Input
      reads this
    {
      Input(rest, good)
    }

    /** inp.read into a buffer of n bytes whose previous contents are `uninit`. */
    method Read(n: nat, uninit: seq<Byte>) returns (buffer: seq<Byte>)
      requires |uninit| == n
      modifies this
      ensures |buffer| == n
      ensures old(good) && n <= |old(rest)| ==>
                buffer == old(rest)[..n] && View() == Fresh(old(rest)[n..])
      ensures old(good) && n > |old(rest)| ==>
                buffer == old(rest) + uninit[|old(rest)|..] && View() == Input([], false)
      ensures !old(good) ==> buffer == uninit && View() == old(View())
    {
      if !good {
        return uninit;
      }
      if n <= |rest| {
        buffer, rest := rest[..n], rest[n..];
      } else {
        buffer, rest, good := rest + uninit[|rest|..], [], false;
      }
    }

    method GetLine(delim: Byte, prior: seq<Byte>) returns (text: seq<Byte>, ok: bool)
      modifies this
      ensures Line(text, View(), ok) == LineOf(old(View()), delim, prior)
    {
      var r := LineOf(View(), delim, prior);
      text, ok := r.text, r.ok;
      rest, good := r.next.rest, r.next.good;
    }
  }

  /** A method's outcome (None for a thrown exception) and the stream it leaves
      are those of the reader function. */
  predicate Agrees<T(==)>(outcome: Option<T>, now: Input, spec: Read<T>) {
    match spec
    case Thrown => outcome == None
    case Got(v, next) => outcome == Some(v) && now == next
  }
}
