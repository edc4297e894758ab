/** Integer, string and message codecs of src/common/serializable.cpp.
    The host is little-endian: an integer's memory image is `LittleEndian`. */
module Serializable {
  import opened Bytes
  import opened Streams

  // ---- byte orders

  function LittleEndian(v: nat, n: nat): (s: seq<Byte>)
    ensures |s| == n
  {
    if n == 0 then [] else [v % 256] + LittleEndian(v / 256, n - 1)
  }

  function FromLittleEndian(s: seq<Byte>): nat {
    if s == [] then 0 else s[0] + 256 * FromLittleEndian(s[1..])
  }

  function BigEndian(v: nat, n: nat): (s: seq<Byte>)
    ensures |s| == n
  {
    if n == 0 then [] else BigEndian(v / 256, n - 1) + [v % 256]
  }

  function FromBigEndian(s: seq<Byte>): nat {
    if s == [] then 0 else FromBigEndian(s[..|s| - 1]) * 256 + s[|s| - 1]
  }

  function Pow256(n: nat): nat {
    if n == 0 then 1 else 256 * Pow256(n - 1)
  }

  lemma {:induction false} BigEndianRoundTrip(v: nat, n: nat)
    requires v < Pow256(n)
    ensures FromBigEndian(BigEndian(v, n)) == v
  {
    if n > 0 {
      BigEndianRoundTrip(v / 256, n - 1);
      assert BigEndian(v, n)[..n - 1] == BigEndian(v / 256, n - 1);
    }
  }

  /** The most significant byte comes first. */
  lemma {:induction false} BigEndianAt(v: nat, n: nat, i: nat)
    requires i < n
    ensures Pow256(n - 1 - i) > 0
    ensures BigEndian(v, n)[i] == v / Pow256(n - 1 - i) % 256
  {
    if i < n - 1 {
      BigEndianAt(v / 256, n - 1, i);
      DivDiv(v, Pow256(n - 2 - i));
    }
  }

  lemma {:induction false} BigEndianOfBytes(s: seq<Byte>)
    ensures BigEndian(FromBigEndian(s), |s|) == s
  {
    if s != [] {
      BigEndianOfBytes(s[..|s| - 1]);
      assert s == s[..|s| - 1] + [s[|s| - 1]];
    }
  }

  lemma {:induction false} LittleEndianRoundTrip(v: nat, n: nat)
    requires v < Pow256(n)
    ensures FromLittleEndian(LittleEndian(v, n)) == v
  {
    if n > 0 {
      LittleEndianRoundTrip(v / 256, n - 1);
      assert LittleEndian(v, n)[1..] == LittleEndian(v / 256, n - 1);
    }
  }

  lemma {:induction false} LittleEndianOfBytes(s: seq<Byte>)
    ensures FromLittleEndian(s) < Pow256(|s|)
    ensures LittleEndian(FromLittleEndian(s), |s|) == s
  {
    if s != [] {
      LittleEndianOfBytes(s[1..]);
      assert s == [s[0]] + s[1..];
      assert FromLittleEndian(s) / 256 == FromLittleEndian(s[1..]);
    }
  }

  lemma {:induction false} BigIsReversedLittle(v: nat, n: nat)
    ensures BigEndian(v, n) == Reverse(LittleEndian(v, n))
  {
    if n > 0 {
      BigIsReversedLittle(v / 256, n - 1);
      assert LittleEndian(v, n)[1..] == LittleEndian(v / 256, n - 1);
    }
  }

  lemma {:induction false} FromBigIsFromReversed(s: seq<Byte>)
    ensures FromBigEndian(s) == FromLittleEndian(Reverse(s))
  {
    if s != [] {
      var t, b := s[..|s| - 1], s[|s| - 1];
      assert s == t + [b];
      ReverseSnoc(t, b);
      assert ([b] + Reverse(t))[1..] == Reverse(t);
      FromBigIsFromReversed(t);
    }
  }

  /** Reversing the memory image of an n-byte integer. */
  function Swapped(v: nat, n: nat): nat {
    FromLittleEndian(Reverse(LittleEndian(v, n)))
  }

  /** Swapping is an involution at every width, and it is what makes a raw dump
      of a little-endian host's memory big-endian on the wire, and back. */
  lemma SwappedLaws(v: nat, n: nat)
    requires v < Pow256(n)
    ensures Swapped(v, n) < Pow256(n)
    ensures Swapped(Swapped(v, n), n) == v
    ensures LittleEndian(Swapped(v, n), n) == BigEndian(v, n)
    ensures Swapped(v, n) == FromBigEndian(LittleEndian(v, n))
  {
    var m := LittleEndian(v, n);
    LittleEndianOfBytes(Reverse(m));
    ReverseTwice(m);
    LittleEndianRoundTrip(v, n);
    BigIsReversedLittle(v, n);
    FromBigIsFromReversed(m);
  }

  lemma Widths()
    ensures Pow256(4) == TWO_32 && Pow256(8) == TWO_64
  {
    assert Pow256(2) == 0x1_0000;
    assert Pow256(4) == 0x1_0000_0000;
    assert Pow256(6) == 0x1_0000_0000_0000;
  }

  // ---- swap_endian

  /** The 32-bit mask-and-shift expression; the four fields do not overlap, so
      `|` is written `+`, masks as remainders and shifts as products. */
  function SwapEndian32(value: U32): (r: U32)
    ensures r == Swapped(value, 4)
  {
    var r := value % 0x100 * 0x100_0000
             + value / 0x100 % 0x100 * 0x1_0000
             + value / 0x1_0000 % 0x100 * 0x100
             + value / 0x100_0000;
    SwapFour(value);
    r
  }

  lemma SwapFour(v: U32)
    ensures Swapped(v, 4) == v % 0x100 * 0x100_0000 + v / 0x100 % 0x100 * 0x1_0000
                             + v / 0x1_0000 % 0x100 * 0x100 + v / 0x100_0000
  {
    var b0, b1, b2, b3 := v % 0x100, v / 0x100 % 0x100, v / 0x1_0000 % 0x100, v / 0x100_0000;
    assert LittleEndian(v, 4) == [b0, b1, b2, b3] by {
      assert v / 256 / 256 == v / 0x1_0000;
      assert v / 256 / 256 / 256 == v / 0x100_0000;
      var d := v / 0x100_0000;
      assert LittleEndian(d, 1) == [d];
      assert LittleEndian(v / 0x1_0000, 2) == [b2] + LittleEndian(d, 1);
      assert LittleEndian(v / 0x100, 3) == [b1] + LittleEndian(v / 0x1_0000, 2);
    }
    ReverseFour(b0, b1, b2, b3);
    FromFour(b3, b2, b1, b0);
  }

  lemma ReverseFour(a: Byte, b: Byte, c: Byte, d: Byte)
    ensures Reverse([a, b, c, d]) == [d, c, b, a]
  {
    assert [a, b, c, d] == [a, b, c] + [d];
    ReverseSnoc([a, b, c], d);
    assert [a, b, c] == [a, b] + [c];
    ReverseSnoc([a, b], c);
    assert [a, b] == [a] + [b];
    ReverseSnoc([a], b);
    assert Reverse([a]) == [a] by { assert [a][1..] == []; }
  }

  lemma FromFour(a: Byte, b: Byte, c: Byte, d: Byte)
    ensures FromLittleEndian([a, b, c, d]) == a + 0x100 * b + 0x1_0000 * c + 0x100_0000 * d
  {
    assert [a, b, c, d][1..] == [b, c, d];
    assert [b, c, d][1..] == [c, d];
    assert [c, d][1..] == [d];
    assert [d][1..] == [];
    assert FromLittleEndian([d]) == d;
    assert FromLittleEndian([c, d]) == c + 256 * d;
    assert FromLittleEndian([b, c, d]) == b + 256 * FromLittleEndian([c, d]);
    assert FromLittleEndian([a, b, c, d]) == a + 256 * FromLittleEndian([b, c, d]);
  }

  /** The sum built by the second loop of the 64-bit swap after i rounds. */
  function Assembled(bytes: seq<Byte>, i: nat): nat
    requires i <= |bytes|
  {
    if i == 0 then 0 else Assembled(bytes, i - 1) + bytes[i - 1] * Pow256(|bytes| - i)
  }

  lemma {:induction false} AssembledIsBigEndian(bytes: seq<Byte>, i: nat)
    requires i <= |bytes|
    ensures Assembled(bytes, i) == FromBigEndian(bytes[..i]) * Pow256(|bytes| - i)
  {
    if i > 0 {
      AssembledIsBigEndian(bytes, i - 1);
      assert bytes[..i][..i - 1] == bytes[..i - 1];
      OneDigitMore(FromBigEndian(bytes[..i - 1]), bytes[i - 1], Pow256(|bytes| - i));
    }
  }

  lemma OneDigitMore(f: nat, b: nat, p: nat)
    ensures f * (256 * p) + b * p == (f * 256 + b) * p
  {
  }

  lemma {:induction false} LittleEndianSnoc(v: nat, n: nat)
    ensures Pow256(n) > 0
    ensures LittleEndian(v, n + 1) == LittleEndian(v, n) + [v / Pow256(n) % 256]
  {
    if n > 0 {
      LittleEndianSnoc(v / 256, n - 1);
      DivDiv(v, Pow256(n - 1));
    }
  }

  lemma DivDiv(v: nat, p: nat)
    requires p > 0
    ensures v / 256 / p == v / (256 * p)
  {
    var a, r := v / 256, v % 256;
    var q, t := a / p, a % p;
    assert v == (q * p + t) * 256 + r == q * (256 * p) + (t * 256 + r);
    assert t * 256 + r < 256 * p by { assert t <= p - 1; assert t * 256 <= (p - 1) * 256; }
    DivUnique(v, 256 * p, q, t * 256 + r);
  }

  /** The first loop of the 64-bit swap: explode into a byte array. */
  method Explode(value: U64) returns (bytes: array<Byte>)
    ensures fresh(bytes) && bytes[..] == LittleEndian(value, 8)
  {
    bytes := new Byte[8];
    for i := 0 to 8
      invariant bytes[..i] == LittleEndian(value, i)
    {
      LittleEndianSnoc(value, i);
      bytes[i] := value / Pow256(i) % 256;
      assert bytes[..i + 1] == bytes[..i] + [bytes[i]];
    }
    assert bytes[..8] == bytes[..];
  }

  /** The second loop: reassemble backwards. */
  method Assemble(bytes: array<Byte>) returns (sum: nat)
    requires bytes.Length == 8
    ensures sum == FromBigEndian(bytes[..])
  {
    sum := 0;
    for i := 0 to 8
      invariant sum == Assembled(bytes[..], i)
    {
      sum := sum + bytes[i] * Pow256(7 - i);
    }
    AssembledIsBigEndian(bytes[..], 8);
    assert bytes[..][..8] == bytes[..];
  }

  method SwapEndian64(value: U64) returns (r: U64)
    ensures r == Swapped(value, 8)
  {
    hide LittleEndian, FromBigEndian;
    Widths();
    var bytes := Explode(value);
    LittleEndianLength(value, 8);
    var sum := Assemble(bytes);
    SwappedLaws(value, 8);
    r := sum;
  }

  lemma LittleEndianLength(v: nat, n: nat)
    ensures |LittleEndian(v, n)| == n
  {
  }

  // ---- integers and strings on a stream

  function EncodeString(s: seq<Byte>): seq<Byte> {
    BigEndian(|s|, 4) + s
  }

  function ReadBytes(inp: Input, n: nat): Read<seq<Byte>> {
    if inp.good && n <= |inp.rest| then Got(inp.rest[..n], Fresh(inp.rest[n..])) else Thrown
  }

  lemma {:induction false} FromBigEndianBound(s: seq<Byte>)
    ensures FromBigEndian(s) < Pow256(|s|)
  {
    if s != [] {
      FromBigEndianBound(s[..|s| - 1]);
    }
  }

  function ReadU32(inp: Input): Read<U32> {
    var (b, inp1) :- ReadBytes(inp, 4);
    FromBigEndianBound(b); Widths();
    Got(FromBigEndian(b), inp1)
  }

  function ReadU64(inp: Input): Read<U64> {
    var (b, inp1) :- ReadBytes(inp, 8);
    FromBigEndianBound(b); Widths();
    Got(FromBigEndian(b), inp1)
  }

  function ReadString(inp: Input): Read<seq<Byte>> {
    var (n, inp1) :- ReadU32(inp);
    ReadBytes(inp1, n)
  }

  lemma ReadBytesBack(s: seq<Byte>, rest: seq<Byte>)
    ensures ReadBytes(Fresh(s + rest), |s|) == Got(s, Fresh(rest))
  {
    assert (s + rest)[..|s|] == s && (s + rest)[|s|..] == rest;
  }

  lemma ReadU32Back(v: U32, rest: seq<Byte>)
    ensures ReadU32(Fresh(BigEndian(v, 4) + rest)) == Got(v, Fresh(rest))
  {
    ReadBytesBack(BigEndian(v, 4), rest);
    Widths();
    BigEndianRoundTrip(v, 4);
  }

  lemma ReadU64Back(v: U64, rest: seq<Byte>)
    ensures ReadU64(Fresh(BigEndian(v, 8) + rest)) == Got(v, Fresh(rest))
  {
    ReadBytesBack(BigEndian(v, 8), rest);
    Widths();
    BigEndianRoundTrip(v, 8);
  }

  /** A written string reads back, leaving whatever follows it unread. */
  lemma ReadStringBack(s: seq<Byte>, rest: seq<Byte>)
    requires |s| < TWO_32
    ensures ReadString(Fresh(EncodeString(s) + rest)) == Got(s, Fresh(rest))
  {
    assert EncodeString(s) + rest == BigEndian(|s|, 4) + (s + rest);
    ReadU32Back(|s|, s + rest);
    ReadBytesBack(s, rest);
  }

  /** Every strict prefix of a written string makes the reader throw. */
  lemma StringPrefixThrows(s: seq<Byte>, k: nat)
    requires |s| < TWO_32 && k < |EncodeString(s)|
    ensures ReadString(Fresh(EncodeString(s)[..k])).Thrown?
  {
    if k >= 4 {
      assert EncodeString(s)[..k] == BigEndian(|s|, 4) + s[..k - 4];
      ReadU32Back(|s|, s[..k - 4]);
    }
  }

  method WriteUint32(os: OutStream, value: U32)
    modifies os
    ensures os.data == old(os.data) + BigEndian(value, 4)
  {
    Widths();
    SwappedLaws(value, 4);
    var be := SwapEndian32(value);
    os.Write(LittleEndian(be, 4));
  }

  method WriteUint64(os: OutStream, value: U64)
    modifies os
    ensures os.data == old(os.data) + BigEndian(value, 8)
  {
    Widths();
    SwappedLaws(value, 8);
    var be := SwapEndian64(value);
    os.Write(LittleEndian(be, 8));
  }

  /** Throws (ok is false) when the length does not fit 32 bits. */
  method WriteString(os: OutStream, s: seq<Byte>) returns (ok: bool)
    modifies os
    ensures ok == (|s| < TWO_32)
    ensures os.data == if ok then old(os.data) + EncodeString(s) else old(os.data)
  {
    if |s| > TWO_32 - 1 {
      return false;
    }
    WriteUint32(os, |s|);
    os.Write(s);
    ok := true;
  }

  /** Bytes just read, taken as a host integer and swapped. */
  lemma SwapOfImage(b: seq<Byte>)
    requires |b| == 4 || |b| == 8
    ensures FromLittleEndian(b) < Pow256(|b|)
    ensures Swapped(FromLittleEndian(b), |b|) == FromBigEndian(b)
  {
    LittleEndianOfBytes(b);
    SwappedLaws(FromLittleEndian(b), |b|);
  }

  method ReadUint32(inp: InStream, uninit: seq<Byte>) returns (r: Option<U32>)
    requires |uninit| == 4
    modifies inp
    ensures Agrees(r, inp.View(), ReadU32(old(inp.View())))
  {
    var b := inp.Read(4, uninit);
    if !inp.good {
      return None;
    }
    SwapOfImage(b);
    Widths();
    r := Some(SwapEndian32(FromLittleEndian(b)));
  }

  method ReadUint64(inp: InStream, uninit: seq<Byte>) returns (r: Option<U64>)
    requires |uninit| == 8
    modifies inp
    ensures Agrees(r, inp.View(), ReadU64(old(inp.View())))
  {
    var b := inp.Read(8, uninit);
    if !inp.good {
      return None;
    }
    SwapOfImage(b);
    Widths();
    var v := SwapEndian64(FromLittleEndian(b));
    r := Some(v);
  }

  method ReadStr(inp: InStream, uninit: seq<Byte>) returns (r: Option<seq<Byte>>)
    requires |uninit| == 4
    modifies inp
    ensures Agrees(r, inp.View(), ReadString(old(inp.View())))
  {
    var size := ReadUint32(inp, uninit);
    if size == None {
      return None;
    }
    var b := inp.Read(size.value, seq(size.value, _ => 0));
    if !inp.good {
      return None;
    }
    r := Some(b);
  }
}
