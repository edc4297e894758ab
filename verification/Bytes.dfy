/** Bytes, machine integers and the decimal text form of unsigned numbers. */
module Bytes {

  datatype Option<+T> = None | Some(value: T) {
    function ValueOr(default: T): T {
      if Some? then value else default
    }
  }

  const TWO_32 := 0x1_0000_0000
  const TWO_64 := 0x1_0000_0000_0000_0000

  type Byte = b: int | 0 <= b < 256
  type U16 = n: int | 0 <= n < 0x1_0000
  type U32 = n: int | 0 <= n < TWO_32
  type U64 = n: int | 0 <= n < TWO_64

  const LF: Byte := 10     // '\n'
  const CR: Byte := 13     // '\r'
  const BAR: Byte := 124   // '|'

  function Min(a: int, b: int): int {
    if a <= b then a else b
  }

  function Max(a: int, b: int): int {
    if a <= b then b else a
  }

  predicate IsDigit(b: Byte) {
    48 <= b <= 57
  }

  predicate AllDigits(s: seq<Byte>) {
    forall i :: 0 <= i < |s| ==> IsDigit(s[i])
  }

  /** What `os << n` writes for an unsigned n. */
  function Decimal(n: nat): (s: seq<Byte>)
    ensures s != [] && AllDigits(s)
  {
    if n < 10 then [48 + n] else Decimal(n / 10) + [48 + n % 10]
  }

  function DigitsValue(s: seq<Byte>): nat
    requires AllDigits(s)
  {
    if s == [] then 0 else DigitsValue(s[..|s| - 1]) * 10 + (s[|s| - 1] - 48)
  }

  /** The longest prefix of s made of digits. */
  function DigitPrefix(s: seq<Byte>): (p: seq<Byte>)
    ensures AllDigits(p) && p <= s
    ensures |p| < |s| ==> !IsDigit(s[|p|])
  {
    if s == [] || !IsDigit(s[0]) then []
    else
      var p := DigitPrefix(s[1..]);
      assert s == [s[0]] + s[1..];
      [s[0]] + p
  }

  /** std::from_chars on an unsigned target below `limit`: the target keeps its
      old value when there are no digits or the number does not fit. */
  function FromChars(s: seq<Byte>, prior: nat, limit: nat): nat {
    var p := DigitPrefix(s);
    if p == [] || DigitsValue(p) >= limit then prior else DigitsValue(p)
  }

  /** `is >> n` on a 64-bit unsigned target: leading white space is skipped, an
      exhausted stream leaves the target alone, a non-number stores 0 and an
      overflow stores the maximum. */
  function ExtractU64(s: seq<Byte>, prior: U64): U64 {
    if s == [] then prior
    else if s[0] == 32 || 9 <= s[0] <= 13 then ExtractU64(s[1..], prior)
    else
      var p := DigitPrefix(s);
      if p == [] then 0 else Min(DigitsValue(p), TWO_64 - 1)
  }

  lemma {:induction false} DigitsValueOfDecimal(n: nat)
    ensures DigitsValue(Decimal(n)) == n
  {
    if n >= 10 {
      DigitsValueOfDecimal(n / 10);
      assert Decimal(n)[..|Decimal(n)| - 1] == Decimal(n / 10);
    }
  }

  lemma {:induction false} DigitPrefixStops(ds: seq<Byte>, rest: seq<Byte>)
    requires AllDigits(ds)
    requires rest != [] ==> !IsDigit(rest[0])
    ensures DigitPrefix(ds + rest) == ds
  {
    if ds == [] {
      assert ds + rest == rest;
    } else {
      assert (ds + rest)[1..] == ds[1..] + rest;
      DigitPrefixStops(ds[1..], rest);
    }
  }

  /** Printing then parsing gives the number back, over the whole range of the
      target and whatever non-digit follows; a number that does not fit leaves
      the target untouched. */
  lemma FromCharsOfDecimal(n: nat, rest: seq<Byte>, prior: nat, limit: nat)
    requires rest != [] ==> !IsDigit(rest[0])
    ensures FromChars(Decimal(n) + rest, prior, limit) == if n < limit then n else prior
  {
    DigitPrefixStops(Decimal(n), rest);
    DigitsValueOfDecimal(n);
  }

  /** from_chars on any text, seen as its leading digits and the rest. */
  lemma FromCharsOf(digits: seq<Byte>, rest: seq<Byte>, prior: nat, limit: nat)
    requires AllDigits(digits) && (rest != [] ==> !(48 <= rest[0] <= 57))
    ensures FromChars(digits + rest, prior, limit) ==
            if digits != [] && DigitsValue(digits) < limit then DigitsValue(digits) else prior
  {
    DigitPrefixStops(digits, rest);
  }

  predicate IsSpace(b: Byte) {
    b in [9, 10, 11, 12, 13, 32]
  }

  /** Stream extraction on any text, seen as leading white space, digits and the rest. */
  lemma {:induction false} ExtractOf(spaces: seq<Byte>, digits: seq<Byte>, rest: seq<Byte>, prior: U64)
    requires forall i :: 0 <= i < |spaces| ==> IsSpace(spaces[i])
    requires AllDigits(digits) && (rest != [] ==> !(48 <= rest[0] <= 57))
    requires digits == [] && rest != [] ==> !IsSpace(rest[0])
    ensures ExtractU64(spaces + digits + rest, prior) ==
            if digits == [] then (if rest == [] then prior else 0)
            else if DigitsValue(digits) <= 0xFFFF_FFFF_FFFF_FFFF then DigitsValue(digits)
            else 0xFFFF_FFFF_FFFF_FFFF
  {
    var s := spaces + digits + rest;
    if spaces == [] {
      assert s == digits + rest;
      DigitPrefixStops(digits, rest);
      assert digits != [] ==> IsDigit(s[0]);
    } else {
      assert s[1..] == spaces[1..] + digits + rest;
      ExtractOf(spaces[1..], digits, rest, prior);
    }
  }

  lemma ExtractOfDecimal(n: U64, prior: U64)
    ensures ExtractU64(Decimal(n), prior) == n
  {
    assert Decimal(n) + [] == Decimal(n);
    assert IsDigit(Decimal(n)[0]);
    DigitPrefixStops(Decimal(n), []);
    DigitsValueOfDecimal(n);
  }

  lemma Associate(a: seq<Byte>, b: seq<Byte>, c: seq<Byte>)
    ensures a + (b + c) == a + b + c
  {
  }

  // ---- remainders

  lemma MulMonotone(a: nat, b: nat, d: nat)
    requires a <= b
    ensures a * d <= b * d
  {
    assert b * d == a * d + (b - a) * d;
  }

  lemma DivUnique(v: nat, d: nat, q: nat, r: nat)
    requires d > 0 && r < d && v == q * d + r
    ensures v / d == q && v % d == r
  {
    var q', r' := v / d, v % d;
    assert q' * d + r' == q * d + r;
    if q' < q {
      MulMonotone(q' + 1, q, d);
    } else if q' > q {
      MulMonotone(q + 1, q', d);
    }
  }

  lemma ModAdd(a: nat, b: nat, m: nat)
    requires m > 0
    ensures (a % m + b) % m == (a + b) % m
  {
    var q, r := a / m, a % m;
    var q', r' := (r + b) / m, (r + b) % m;
    assert a + b == (q + q') * m + r';
    DivUnique(a + b, m, q + q', r');
  }

  // ---- std::reverse

  function Reverse(s: seq<Byte>): (r: seq<Byte>)
    ensures |r| == |s|
  {
    if s == [] then [] else Reverse(s[1..]) + [s[0]]
  }

  lemma {:induction false} ReverseSnoc(s: seq<Byte>, b: Byte)
    ensures Reverse(s + [b]) == [b] + Reverse(s)
  {
    if s != [] {
      ReverseSnoc(s[1..], b);
      assert (s + [b])[1..] == s[1..] + [b];
    } else {
      assert s + [b] == [b];
    }
  }

  lemma {:induction false} ReverseTwice(s: seq<Byte>)
    ensures Reverse(Reverse(s)) == s
  {
    if s != [] {
      ReverseSnoc(Reverse(s[1..]), s[0]);
      ReverseTwice(s[1..]);
    }
  }
}
