/** Printing and reading 64-bit numbers in hexadecimal (HexToString and HexToInt64, src/shell.c). */
module HexText {
  import opened Arith
  import opened Bytes

  const DIGITS: string := "0123456789ABCDEF"

  /** n hexadecimal digits of v, most significant first. */
  function Digits(v: nat, n: nat): (s: string)
    ensures |s| == n
  {
    if n == 0 then "" else Digits(v / 16, n - 1) + [DIGITS[v % 16]]
  }

  function HexOf(v: nat): string { "0x" + Digits(v, 16) }

  function DigitValue(c: char): Option<nat> {
    if '0' <= c <= '9' then Some((c - '0') as int)
    else if 'a' <= c <= 'f' then Some((c - 'a') as int + 10)
    else if 'A' <= c <= 'F' then Some((c - 'A') as int + 10)
    else None
  }

  /** The digits read on to `acc`, in 64 bits, up to the first other character. */
  function Accumulate(s: string, acc: nat): (r: nat)
    ensures acc < U64 ==> r < U64
  {
    if s == "" || DigitValue(s[0]).None? then acc
    else Accumulate(s[1..], (acc * 16) % U64 + DigitValue(s[0]).value)
  }

  function Prefixed(s: string): bool { |s| >= 2 && s[0] == '0' && (s[1] == 'x' || s[1] == 'X') }

  function ValueOf(s: string): (r: nat)
    ensures r < U64
  {
    Accumulate(if Prefixed(s) then s[2..] else s, 0)
  }

  method HexToInt64(s: string) returns (result: nat)
    ensures result == ValueOf(s)
  {
    result := 0;
    var i := if Prefixed(s) then 2 else 0;
    while i < |s|
      invariant i <= |s| && Accumulate(s[i..], result) == ValueOf(s)
    {
      var c := s[i];
      var val := 0;
      if '0' <= c <= '9' { val := (c - '0') as int; }
      else if 'a' <= c <= 'f' { val := (c - 'a') as int + 10; }
      else if 'A' <= c <= 'F' { val := (c - 'A') as int + 10; }
      else { return; }
      result := (result * 16) % U64 + val;
      i := i + 1;
    }
  }

  lemma DigitMoved(v: nat, n: nat, tail: string)
    requires n > 0
    ensures Digits(v, n) + tail == Digits(v / 16, n - 1) + ([DIGITS[v % 16]] + tail)
  {
  }

  /** The buffer of 19: "0x", sixteen digits from the last to the first, and the final zero. */
  method HexToString(value: nat, buffer: array<char>)
    requires buffer.Length == 19 && value < U64
    modifies buffer
    ensures buffer[..] == HexOf(value) + "\0"
  {
    buffer[0], buffer[1], buffer[18] := '0', 'x', '\0';
    var v: nat, i := value, 17;
    ghost var tail := "";
    while i >= 2
      invariant 1 <= i <= 17 && buffer[..2] == "0x" && buffer[18] == '\0'
      invariant |tail| == 17 - i && buffer[i + 1..18] == tail && Digits(v, i - 1) + tail == HexOf(value)[2..]
    {
      DigitMoved(v, i - 1, tail);
      buffer[i] := DIGITS[v % 16];
      tail := [DIGITS[v % 16]] + tail;
      assert buffer[i..18] == tail;
      v := v / 16;
      i := i - 1;
    }
    assert buffer[..] == buffer[..2] + buffer[2..18] + [buffer[18]];
  }

  function Pow16(n: nat): (p: nat)
    ensures p > 0
  {
    if n == 0 then 1 else 16 * Pow16(n - 1)
  }

  predicate AllDigits(s: string) { forall k :: 0 <= k < |s| ==> DigitValue(s[k]).Some? }

  lemma {:induction false} AccumulateLast(s: string, c: char, acc: nat)
    requires AllDigits(s) && DigitValue(c).Some?
    ensures Accumulate(s + [c], acc) == (Accumulate(s, acc) * 16) % U64 + DigitValue(c).value
  {
    if s == "" {
      assert s + [c] == [c];
      assert Accumulate([c], acc) == Accumulate([c][1..], (acc * 16) % U64 + DigitValue(c).value);
    } else {
      assert (s + [c])[1..] == s[1..] + [c];
      AccumulateLast(s[1..], c, (acc * 16) % U64 + DigitValue(s[0]).value);
    }
  }

  lemma DigitFits(d: nat)
    requires d < 16
    ensures DigitValue(DIGITS[d]) == Some(d)
  {
  }

  lemma {:induction false} PowFits(n: nat)
    requires n < 16
    ensures 16 * Pow16(n) <= U64
    decreases 16 - n
  {
    if n == 15 {
      assert Pow16(5) == 0x10_0000 && Pow16(10) == 0x10_0000 * Pow16(5);
    } else {
      PowFits(n + 1);
    }
  }

  lemma NoWrap(q: nat, p: nat)
    requires q < p && 16 * p <= U64
    ensures (q * 16) % U64 == q * 16
  {
  }

  lemma {:induction false} DigitsReadBack(v: nat, n: nat)
    requires v < Pow16(n) && n <= 16
    ensures AllDigits(Digits(v, n)) && Accumulate(Digits(v, n), 0) == v
    decreases n
  {
    if n == 0 {
    } else {
      var q, d := v / 16, v % 16;
      DigitsReadBack(q, n - 1);
      DigitFits(d);
      AccumulateLast(Digits(q, n - 1), DIGITS[d], 0);
      PowFits(n - 1);
      NoWrap(q, Pow16(n - 1));
    }
  }

  /** Every 64-bit value printed is read back. */
  lemma HexRoundTrip(v: nat)
    requires v < U64
    ensures ValueOf(HexOf(v)) == v
    ensures forall k :: 0 <= k < |HexOf(v)| ==> HexOf(v)[k] != '\0' && HexOf(v)[k] != ' '
  {
    assert Pow16(16) == U64 by {
      assert Pow16(4) == 0x1_0000 && Pow16(8) == 0x1_0000 * Pow16(4) && Pow16(12) == 0x1_0000 * Pow16(8);
    }
    DigitsReadBack(v, 16);
    assert HexOf(v)[2..] == Digits(v, 16);
    forall k | 0 <= k < |HexOf(v)| ensures HexOf(v)[k] != '\0' && HexOf(v)[k] != ' ' {
      if k >= 2 { assert HexOf(v)[k] == Digits(v, 16)[k - 2]; }
    }
  }

  // --------------------------------------- what is read, character by character

  /** The character of digit value d, in upper or lower case. */
  function DigitChar(d: nat, upper: bool): char
    requires d < 16
  {
    if d < 10 then '0' + d as char else if upper then 'A' + (d - 10) as char else 'a' + (d - 10) as char
  }

  /** A number as it may be typed: its digit values, and the case of each. */
  datatype Typed = Typed(digits: seq<nat>, upper: seq<bool>) {
    predicate Ok() { |upper| == |digits| && forall k :: 0 <= k < |digits| ==> digits[k] < 16 }
  }

  function TextOf(t: Typed): (s: string)
    requires t.Ok()
    ensures |s| == |t.digits|
  {
    seq(|t.digits|, (k: int) requires 0 <= k < |t.digits| => DigitChar(t.digits[k], t.upper[k]))
  }

  /** The sum of digits[k] * 16^(n - 1 - k). */
  function Sum(digits: seq<nat>): nat {
    if digits == [] then 0 else digits[0] * Pow16(|digits| - 1) + Sum(digits[1..])
  }

  predicate IsDigit(c: char) { '0' <= c <= '9' || 'a' <= c <= 'f' || 'A' <= c <= 'F' }

  predicate Stops(tail: string) { tail == "" || !IsDigit(tail[0]) }

  lemma CharValue(d: nat, upper: bool)
    requires d < 16
    ensures DigitValue(DigitChar(d, upper)) == Some(d)
  {
  }

  lemma SameRemainder(t: int, y: int)
    ensures (U64 * t + y) % U64 == y % U64
  {
  }

  /** One more digit on `acc`, and n more behind it. */
  lemma ShiftedSum(acc: nat, d: nat, p: nat, rest: nat)
    requires d < 16
    ensures (((acc * 16) % U64 + d) * p + rest) % U64 == (acc * (16 * p) + (d * p + rest)) % U64
  {
    var q, r := acc * 16 / U64, (acc * 16) % U64;
    assert acc * 16 == U64 * q + r;
    assert acc * (16 * p) == (acc * 16) * p == U64 * (q * p) + r * p;
    assert (r + d) * p == r * p + d * p;
    SameRemainder(q * p, r * p + d * p + rest);
  }

  lemma AccumulateFirst(c: char, d: nat, s: string, acc: nat)
    requires DigitValue(c) == Some(d)
    ensures Accumulate([c] + s, acc) == Accumulate(s, (acc * 16) % U64 + d)
  {
    assert ([c] + s)[1..] == s;
  }

  lemma AccumulateStops(s: string, acc: nat)
    requires Stops(s)
    ensures Accumulate(s, acc) == acc
  {
  }

  function RestOf(t: Typed): Typed
    requires t.Ok() && t.digits != []
  {
    Typed(t.digits[1..], t.upper[1..])
  }

  lemma TextFirst(t: Typed, tail: string)
    requires t.Ok() && t.digits != []
    ensures RestOf(t).Ok()
    ensures TextOf(t) + tail == [DigitChar(t.digits[0], t.upper[0])] + (TextOf(RestOf(t)) + tail)
  {
    assert TextOf(t) == [DigitChar(t.digits[0], t.upper[0])] + TextOf(RestOf(t));
  }

  lemma NextFits(acc: nat, d: nat)
    requires d < 16
    ensures (acc * 16) % U64 + d < U64
  {
    var q := acc * 16 / U64;
    assert (acc * 16) % U64 == 16 * (acc - q * 0x1000_0000_0000_0000);
  }

  /** The value of `acc` with the digits behind it. */
  function Joined(acc: nat, digits: seq<nat>): nat { (acc * Pow16(|digits|) + Sum(digits)) % U64 }

  lemma JoinedNone(acc: nat)
    requires acc < U64
    ensures Joined(acc, []) == acc
  {
    assert acc * Pow16(0) == acc;
  }

  lemma JoinedStep(acc: nat, digits: seq<nat>)
    requires digits != [] && digits[0] < 16
    ensures Joined((acc * 16) % U64 + digits[0], digits[1..]) == Joined(acc, digits)
  {
    ShiftedSum(acc, digits[0], Pow16(|digits| - 1), Sum(digits[1..]));
  }

  lemma {:induction false} AccumulateDigits(t: Typed, tail: string, acc: nat)
    requires t.Ok() && Stops(tail) && acc < U64
    ensures Accumulate(TextOf(t) + tail, acc) == Joined(acc, t.digits)
    decreases |t.digits|
  {
    if t.digits == [] {
      assert TextOf(t) + tail == tail;
      AccumulateStops(tail, acc);
      JoinedNone(acc);
    } else {
      var d, rest := t.digits[0], RestOf(t);
      CharValue(d, t.upper[0]);
      TextFirst(t, tail);
      AccumulateFirst(DigitChar(d, t.upper[0]), d, TextOf(rest) + tail, acc);
      NextFits(acc, d);
      AccumulateDigits(rest, tail, (acc * 16) % U64 + d);
      JoinedStep(acc, t.digits);
    }
  }

  lemma Unprefixed(t: Typed, tail: string)
    requires t.Ok() && Stops(tail)
    requires t.digits == [0] && tail != "" ==> tail[0] != 'x' && tail[0] != 'X'
    ensures !Prefixed(TextOf(t) + tail)
  {
    var s := TextOf(t) + tail;
    if |t.digits| >= 1 {
      assert s[0] == DigitChar(t.digits[0], t.upper[0]);
      if |t.digits| >= 2 {
        assert s[1] == DigitChar(t.digits[1], t.upper[1]);
      } else if tail != "" && t.digits[0] == 0 {
        assert t.digits == [0] && s[1] == tail[0];
      }
    }
  }

  lemma BehindPrefix(prefix: string, s: string)
    requires prefix == "0x" || prefix == "0X"
    ensures ValueOf(prefix + s) == Accumulate(s, 0)
  {
    assert (prefix + s)[2..] == s;
  }

  /** Any digits, in any case, with "0x", with "0X" or without: their value in 64 bits, up to the first character
      that is no digit. */
  lemma NumberReads(prefix: string, t: Typed, tail: string)
    requires t.Ok() && Stops(tail) && prefix in {"", "0x", "0X"}
    requires prefix == "" && t.digits == [0] && tail != "" ==> tail[0] != 'x' && tail[0] != 'X'
    ensures ValueOf(prefix + (TextOf(t) + tail)) == Sum(t.digits) % U64
  {
    AccumulateDigits(t, tail, 0);
    assert Joined(0, t.digits) == Sum(t.digits) % U64;
    if prefix == "" {
      assert "" + (TextOf(t) + tail) == TextOf(t) + tail;
      Unprefixed(t, tail);
    } else {
      BehindPrefix(prefix, TextOf(t) + tail);
    }
  }

  lemma DivideOn(v: nat, p: nat)
    requires p > 0
    ensures v / 16 / p == v / (16 * p)
  {
    var q := v / 16 / p;
    var r := v / 16 % p;
    assert v / 16 == q * p + r;
    assert v == q * (16 * p) + (16 * r + v % 16);
    DivIs(v, 16 * p, q, 16 * r + v % 16);
  }

  lemma {:induction false} DigitAt(v: nat, n: nat, k: nat)
    requires k < n
    ensures Digits(v, n)[k] == DigitChar(v / Pow16(n - 1 - k) % 16, true)
    decreases n
  {
    if k == n - 1 {
    } else {
      DigitAt(v / 16, n - 1, k);
      DivideOn(v, Pow16(n - 2 - k));
    }
  }

  /** What is printed: "0x" and sixteen upper-case digits, the highest first. */
  lemma HexPrints(v: nat, k: nat)
    requires k < 16
    ensures |HexOf(v)| == 18 && HexOf(v)[0] == '0' && HexOf(v)[1] == 'x'
    ensures HexOf(v)[2 + k] == DigitChar(v / Pow16(15 - k) % 16, true)
  {
    DigitAt(v, 16, k);
    assert HexOf(v)[2 + k] == Digits(v, 16)[k];
  }
}
