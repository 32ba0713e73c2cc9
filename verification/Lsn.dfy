/**
 Log sequence numbers: fixed-width big-endian byte strings, compared as raw bytes.
 The rest of the project reads an LSN as the number it encodes; this module is why it may.
 */
module Lsn {
  import opened Outcomes
  import Order

  type Byte = x: int | 0 <= x < 256

  const WIDTH := 10
  const MAX := 0xFFFF_FFFF_FFFF_FFFF_FFFF

  function Power(width: nat): (p: int)
    ensures p > 0
  {
    if width == 0 then 1 else 256 * Power(width - 1)
  }

  /** int.from_bytes(b, "big") */
  function Number(b: seq<Byte>): (n: nat)
    ensures n < Power(|b|)
  {
    if |b| == 0 then 0
    else
      LeadingDigit(b[0], Number(b[1..]), Power(|b| - 1));
      b[0] * Power(|b| - 1) + Number(b[1..])
  }

  lemma LeadingDigit(digit: Byte, rest: nat, unit: int)
    requires rest < unit
    ensures 0 <= digit * unit + rest < 256 * unit
    ensures (digit * unit + rest) / unit == digit && (digit * unit + rest) % unit == rest
  {
    assert (digit + 1) * unit <= 256 * unit;
    DivisionIsUnique(digit * unit + rest, unit, digit, rest);
  }

  lemma DivisionIsUnique(n: int, unit: int, q: int, r: int)
    requires 0 <= r < unit && n == q * unit + r
    ensures n / unit == q && n % unit == r
  {
    var gap := n / unit - q;
    assert gap * unit == r - n % unit;
    assert gap >= 1 ==> gap * unit >= unit;
    assert gap <= -1 ==> gap * unit <= -unit;
  }

  /** n.to_bytes(width, "big"), for a number that fits */
  function Bytes(n: nat, width: nat): (b: seq<Byte>)
    requires n < Power(width)
    ensures |b| == width
    decreases width
  {
    if width == 0 then []
    else
      var unit := Power(width - 1);
      DigitFits(n, unit);
      [n / unit] + Bytes(n % unit, width - 1)
  }

  lemma DigitFits(n: nat, unit: int)
    requires 0 < unit && n < 256 * unit
    ensures 0 <= n / unit < 256
  {
    var q := n / unit;
    assert n == q * unit + n % unit;
    assert q >= 256 ==> q * unit >= 256 * unit;
    assert q < 0 ==> q * unit <= -unit;
  }

  /** The numbers below 256^width and the byte strings of that width are the same thing. */
  lemma {:induction false} BytesOfNumber(b: seq<Byte>)
    ensures Bytes(Number(b), |b|) == b
  {
    if |b| != 0 {
      LeadingDigit(b[0], Number(b[1..]), Power(|b| - 1));
      BytesOfNumber(b[1..]);
    }
  }

  lemma {:induction false} NumberOfBytes(n: nat, width: nat)
    requires n < Power(width)
    ensures Number(Bytes(n, width)) == n
    decreases width
  {
    if width != 0 {
      var unit := Power(width - 1);
      DigitFits(n, unit);
      NumberOfBytes(n % unit, width - 1);
      NumberOfDigits(n / unit, Bytes(n % unit, width - 1), width - 1);
      assert n == (n / unit) * unit + n % unit;
    }
  }

  lemma NumberOfDigits(digit: Byte, rest: seq<Byte>, width: nat)
    requires |rest| == width
    ensures Number([digit] + rest) == digit * Power(width) + Number(rest)
  {
    assert ([digit] + rest)[1..] == rest;
  }

  /** Comparing as raw bytes is comparing as numbers. */
  lemma {:induction false} ByteOrderIsNumericOrder(a: seq<Byte>, b: seq<Byte>)
    requires |a| == |b|
    ensures Order.Less(a, b) <==> Number(a) < Number(b)
  {
    if |a| != 0 {
      ByteOrderIsNumericOrder(a[1..], b[1..]);
      DigitOrder(a[0], Number(a[1..]), b[0], Number(b[1..]), Power(|a| - 1));
      DigitOrder(b[0], Number(b[1..]), a[0], Number(a[1..]), Power(|a| - 1));
    }
  }

  lemma DigitOrder(x: int, rx: nat, y: int, ry: nat, unit: int)
    requires rx < unit && ry < unit
    ensures x < y ==> x * unit + rx < y * unit + ry
  {
    if x < y {
      assert (x + 1) * unit <= y * unit;
    }
  }

  lemma MaximumFitsTheWidth()
    ensures Power(WIDTH) == MAX + 1
  {
    assert Power(5) == 0x100_0000_0000;
    assert Power(10) == 256 * 256 * 256 * 256 * 256 * Power(5);
  }

  /** The number one past an LSN, refused at the maximum rather than wrapped. */
  function Successor(n: nat): Result<nat> {
    if n >= MAX then Failure(LsnOverflow) else Success(n + 1)
  }

  /** increment_lsn, on the bytes themselves */
  function Increment(lsn: seq<Byte>): Result<seq<Byte>> {
    if |lsn| != WIDTH then Failure(LsnWidth)
    else if Number(lsn) + 1 < Power(WIDTH) then Success(Bytes(Number(lsn) + 1, WIDTH))
    else Failure(LsnOverflow)
  }

  /** Addition of one that stops carrying at byte i: the 255s after it turn to 0, it goes up by one. */
  ghost predicate CarriesAt(a: seq<Byte>, b: seq<Byte>, i: int) {
    && |a| == |b| && 0 <= i < |a|
    && a[i] < 255 && b[i] == a[i] + 1
    && a[..i] == b[..i]
    && forall j | i < j < |a| :: a[j] == 255 && b[j] == 0
  }

  lemma {:induction false} AllNines(b: seq<Byte>)
    requires forall j | 0 <= j < |b| :: b[j] == 255
    ensures Number(b) == Power(|b|) - 1
  {
    if |b| != 0 {
      AllNines(b[1..]);
    }
  }

  lemma {:induction false} AllZeros(b: seq<Byte>)
    requires forall j | 0 <= j < |b| :: b[j] == 0
    ensures Number(b) == 0
  {
    if |b| != 0 {
      AllZeros(b[1..]);
    }
  }

  lemma {:induction false} CarryAddsOne(a: seq<Byte>, b: seq<Byte>, i: int)
    requires CarriesAt(a, b, i)
    ensures Number(b) == Number(a) + 1
    decreases i
  {
    if i == 0 {
      AllNines(a[1..]);
      AllZeros(b[1..]);
      assert (a[0] + 1) * Power(|a| - 1) == a[0] * Power(|a| - 1) + Power(|a| - 1);
    } else {
      assert a[0] == a[..i][0] == b[..i][0] == b[0];
      assert a[1..][..i - 1] == a[..i][1..] == b[..i][1..] == b[1..][..i - 1];
      CarryAddsOne(a[1..], b[1..], i - 1);
    }
  }

  /** Every string but the maximum has a carried successor. */
  lemma {:induction false} CarryExists(a: seq<Byte>) returns (b: seq<Byte>, i: int)
    requires exists j | 0 <= j < |a| :: a[j] != 255
    ensures CarriesAt(a, b, i)
  {
    var front := a[..|a| - 1];
    if a[|a| - 1] != 255 {
      i := |a| - 1;
      b := front + [a[i] + 1];
    } else {
      var w :| 0 <= w < |a| && a[w] != 255;
      assert front[w] != 255;
      b, i := CarryExists(front);
      assert (b + [0])[..i] == b[..i] == front[..i] == a[..i];
      b := b + [0];
    }
  }

  /**
   increment_lsn is the immediate successor across any carry chain: it is schoolbook addition
   of one, no LSN of the width lies strictly between, and it fails only on the wrong width and
   at the maximum.
   */
  lemma IncrementIsImmediateSuccessor(a: seq<Byte>)
    ensures Increment(a).Success? <==> |a| == WIDTH && exists i | 0 <= i < WIDTH :: a[i] != 255
    ensures Increment(a).Success? ==>
      var b := Increment(a).value;
      && |b| == WIDTH && (exists i :: CarriesAt(a, b, i)) && Order.Less(a, b)
      && Successor(Number(a)) == Success(Number(b))
      && forall c: seq<Byte> | |c| == WIDTH :: !(Order.Less(a, c) && Order.Less(c, b))
  {
    if |a| == WIDTH {
      MaximumFitsTheWidth();
      if forall i | 0 <= i < |a| :: a[i] == 255 {
        AllNines(a);
      } else {
        var b, i := CarryExists(a);
        CarryAddsOne(a, b, i);
        BytesOfNumber(b);
        assert Increment(a) == Success(b);
        ByteOrderIsNumericOrder(a, b);
        forall c: seq<Byte> | |c| == WIDTH
          ensures !(Order.Less(a, c) && Order.Less(c, b))
        {
          ByteOrderIsNumericOrder(a, c);
          ByteOrderIsNumericOrder(c, b);
        }
      }
    }
  }

  /**
   Consecutive windows [a, h] and [inc(h), h'], compared as bytes, abut exactly: every LSN of
   [a, h'] is in one of them and none is in both.
   */
  lemma WindowsAbut(a: seq<Byte>, h: seq<Byte>, h': seq<Byte>, x: seq<Byte>)
    requires |a| == |h| == |h'| == |x| == WIDTH
    requires Increment(h).Success?
    requires !Order.Less(h, a) && !Order.Less(h', Increment(h).value)
    ensures
      var next := Increment(h).value;
      var first := !Order.Less(x, a) && !Order.Less(h, x);
      var second := !Order.Less(x, next) && !Order.Less(h', x);
      && !(first && second)
      && (first || second <==> !Order.Less(x, a) && !Order.Less(h', x))
  {
    var next := Increment(h).value;
    IncrementIsImmediateSuccessor(h);
    ByteOrderIsNumericOrder(h, a);
    ByteOrderIsNumericOrder(h', next);
    ByteOrderIsNumericOrder(x, a);
    ByteOrderIsNumericOrder(h, x);
    ByteOrderIsNumericOrder(x, next);
    ByteOrderIsNumericOrder(h', x);
  }

  function Digit(d: int): char
    requires 0 <= d < 16
  {
    "0123456789abcdef"[d]
  }

  function DigitValue(c: char): Option<int> {
    if '0' <= c <= '9' then Some(c as int - '0' as int)
    else if 'a' <= c <= 'f' then Some(c as int - 'a' as int + 10)
    else if 'A' <= c <= 'F' then Some(c as int - 'A' as int + 10)
    else None
  }

  /** bytes.hex() */
  function Hex(b: seq<Byte>): string {
    if |b| == 0 then "" else [Digit(b[0] / 16), Digit(b[0] % 16)] + Hex(b[1..])
  }

  predicate IsSpace(c: char) {
    c == ' ' || '\t' <= c <= '\r'
  }

  /** bytes.fromhex(): either case, blanks skipped between bytes, anything else refused */
  function FromHex(s: string): Result<seq<Byte>> {
    if |s| == 0 then Success([])
    else if IsSpace(s[0]) then FromHex(s[1..])
    else if |s| == 1 || DigitValue(s[0]).None? || DigitValue(s[1]).None? then Failure(BadHex)
    else
      var rest :- FromHex(s[2..]);
      Success([DigitValue(s[0]).value * 16 + DigitValue(s[1]).value] + rest)
  }

  lemma DigitRoundTrip(d: int)
    requires 0 <= d < 16
    ensures DigitValue(Digit(d)) == Some(d) && !IsSpace(Digit(d))
  {
  }

  /** A byte string written as hex is read back as itself. */
  lemma {:induction false} HexRoundTrip(b: seq<Byte>)
    ensures FromHex(Hex(b)) == Success(b)
  {
    if |b| != 0 {
      HexRoundTrip(b[1..]);
      ReadsOneByte(b[0], Hex(b[1..]));
      assert b == [b[0]] + b[1..];
    }
  }

  lemma ReadsOneByte(byte: Byte, rest: string)
    requires FromHex(rest).Success?
    ensures FromHex([Digit(byte / 16), Digit(byte % 16)] + rest) == Success([byte] + FromHex(rest).value)
  {
    DigitRoundTrip(byte / 16);
    DigitRoundTrip(byte % 16);
    var s := [Digit(byte / 16), Digit(byte % 16)] + rest;
    assert s[2..] == rest;
  }

  /** What is left of a string without its blanks, in lower case */
  function Canonical(s: string): string {
    if |s| == 0 then ""
    else (if IsSpace(s[0]) then "" else [LowerDigit(s[0])]) + Canonical(s[1..])
  }

  function LowerDigit(c: char): char {
    if 'A' <= c <= 'F' then (c as int + 32) as char else c
  }

  /** Any string that is read as bytes is their hex, but for blanks and case: nothing in it was skipped over. */
  lemma {:induction false} FromHexReadsEverything(s: string)
    requires FromHex(s).Success?
    ensures Hex(FromHex(s).value) == Canonical(s)
    decreases |s|
  {
    if |s| != 0 {
      if IsSpace(s[0]) {
        BlankIsSkipped(s);
        FromHexReadsEverything(s[1..]);
      } else {
        PairIsRead(s);
        FromHexReadsEverything(s[2..]);
        CanonicalPair(s);
      }
    }
  }

  lemma BlankIsSkipped(s: string)
    requires |s| > 0 && IsSpace(s[0])
    ensures FromHex(s) == FromHex(s[1..]) && Canonical(s) == Canonical(s[1..])
  {
  }

  lemma PairIsRead(s: string)
    requires |s| > 0 && !IsSpace(s[0]) && FromHex(s).Success?
    ensures |s| >= 2 && !IsSpace(s[1]) && FromHex(s[2..]).Success?
    ensures Hex(FromHex(s).value) == [LowerDigit(s[0]), LowerDigit(s[1])] + Hex(FromHex(s[2..]).value)
  {
    var high, low := PairUnfolds(s);
    DigitsAreCanonical(s[0]);
    DigitsAreCanonical(s[1]);
    WritesOneByte(high, low, FromHex(s[2..]).value, FromHex(s).value);
  }

  lemma PairUnfolds(s: string) returns (high: int, low: int)
    requires |s| > 0 && !IsSpace(s[0]) && FromHex(s).Success?
    ensures |s| >= 2 && DigitValue(s[0]) == Some(high) && DigitValue(s[1]) == Some(low)
    ensures FromHex(s[2..]).Success? && FromHex(s).value == [high * 16 + low] + FromHex(s[2..]).value
  {
    high, low := DigitValue(s[0]).value, DigitValue(s[1]).value;
  }

  lemma WritesOneByte(high: int, low: int, rest: seq<Byte>, b: seq<Byte>)
    requires 0 <= high < 16 && 0 <= low < 16 && b == [high * 16 + low] + rest
    ensures Hex(b) == [Digit(high), Digit(low)] + Hex(rest)
  {
    assert b[0] / 16 == high && b[0] % 16 == low && b[1..] == rest;
  }

  lemma CanonicalPair(s: string)
    requires |s| >= 2 && !IsSpace(s[0]) && !IsSpace(s[1])
    ensures Canonical(s) == [LowerDigit(s[0]), LowerDigit(s[1])] + Canonical(s[2..])
  {
    assert s[1..][1..] == s[2..];
    assert Canonical(s[1..]) == [LowerDigit(s[1])] + Canonical(s[2..]);
    assert [LowerDigit(s[0])] + ([LowerDigit(s[1])] + Canonical(s[2..]))
        == [LowerDigit(s[0]), LowerDigit(s[1])] + Canonical(s[2..]);
  }

  lemma DigitsAreCanonical(c: char)
    requires DigitValue(c).Some?
    ensures 0 <= DigitValue(c).value < 16 && Digit(DigitValue(c).value) == LowerDigit(c) && !IsSpace(c)
  {
  }

  const BLANKS := {' ', '\t', '\n', '\r', '\U{00000B}', '\U{00000C}'}
  const HEX_DIGITS := {
    '0', '1', '2', '3', '4', '5', '6', '7', '8', '9',
    'a', 'b', 'c', 'd', 'e', 'f', 'A', 'B', 'C', 'D', 'E', 'F'}

  lemma DigitsAndBlanks(c: char)
    ensures DigitValue(c).Some? <==> c in HEX_DIGITS
    ensures IsSpace(c) <==> c in BLANKS
  {
  }

  /** White space ahead of a byte is skipped, and only there: between the digits of one it is refused. */
  lemma FromHexSkipsBlanks(blank: char, s: string)
    requires blank in BLANKS
    ensures FromHex([blank] + s) == FromHex(s)
    ensures |s| > 0 && s[0] !in BLANKS ==> FromHex([s[0], blank] + s[1..]) == Failure(BadHex)
  {
    DigitsAndBlanks(blank);
    assert ([blank] + s)[1..] == s;
    if |s| > 0 {
      DigitsAndBlanks(s[0]);
    }
  }

  /** Without blanks, a string is read exactly when it is pairs of hex digits of either case. */
  lemma {:induction false} FromHexAcceptsPairsOfDigits(s: string)
    requires forall i | 0 <= i < |s| :: s[i] !in BLANKS
    ensures FromHex(s).Success? <==> |s| % 2 == 0 && forall i | 0 <= i < |s| :: s[i] in HEX_DIGITS
    ensures FromHex(s).Failure? ==> FromHex(s) == Failure(BadHex)
    decreases |s|
  {
    if |s| > 0 {
      DigitsAndBlanks(s[0]);
    }
    if |s| >= 2 {
      DigitsAndBlanks(s[1]);
      FromHexAcceptsPairsOfDigits(s[2..]);
      assert forall i | 2 <= i < |s| :: s[i] == s[2..][i - 2];
    }
  }
}
