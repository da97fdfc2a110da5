/** Base58 and Base58Check of BRBase58.c: conversion between bytes and digits of base 58 by nested carry loops over a
    buffer whose length is estimated from logarithms. */
module Base58 {
  import opened Arith
  import opened Bytes
  import opened Prelude

  // ---------- numerals ----------

  // The number that big-endian digits stand for.
  function Value(b: nat, s: seq<nat>): nat { if s == [] then 0 else Value(b, s[..|s| - 1]) * b + s[|s| - 1] }

  predicate Numeral(b: nat, s: seq<nat>) { forall i :: 0 <= i < |s| ==> s[i] < b }

  // The shortest numeral of n.
  function Digits(b: nat, n: nat): seq<nat>
    requires b >= 2
  {
    if n == 0 then [] else Digits(b, n / b) + [n % b]
  }

  function Repeat<T>(x: T, n: nat): seq<T> { seq(n, _ => x) }

  lemma ValueSnoc(b: nat, s: seq<nat>, d: nat)
    ensures Value(b, s + [d]) == Value(b, s) * b + d
  {
  }

  lemma {:induction false} ValueCons(b: nat, d: nat, s: seq<nat>)
    ensures Value(b, [d] + s) == d * Pow(b, |s|) + Value(b, s)
  {
    hide Value, Pow;
    NoDigits(b);
    if s == [] {
      OnePower(b, 0);
      assert [d] + s == [] + [d];
      ValueSnoc(b, [], d);
    } else {
      var m := |s| - 1;
      ValueCons(b, d, s[..m]);
      ValueSnoc(b, s[..m], s[m]);
      ValueSnoc(b, [d] + s[..m], s[m]);
      OnePower(b, m);
      assert s == s[..m] + [s[m]] && [d] + s == ([d] + s[..m]) + [s[m]];
      Scale(d, Pow(b, m), Value(b, s[..m]), b);
    }
  }

  lemma Scale(d: nat, p: nat, v: nat, b: nat)
    ensures (d * p + v) * b == d * (b * p) + v * b
  {
  }

  lemma {:induction false} ValueBound(b: nat, s: seq<nat>)
    requires Numeral(b, s)
    ensures Value(b, s) < Pow(b, |s|)
  {
    if s != [] {
      var m := |s| - 1;
      ValueBound(b, s[..m]);
      ValueSnoc(b, s[..m], s[m]);
      OnePower(b, m);
      hide Pow, Value;
      assert s == s[..m] + [s[m]];
      DigitBelow(b, Value(b, s[..m]), s[m], Pow(b, m));
    }
  }

  lemma DigitBelow(b: nat, v: nat, d: nat, p: nat)
    requires v < p && d < b
    ensures v * b + d < b * p
  {
    MulMonotone(v + 1, p, b);
  }

  lemma {:induction false} LeadingZeros(b: nat, z: nat, s: seq<nat>)
    ensures Value(b, Repeat<nat>(0, z) + s) == Value(b, s)
  {
    if z == 0 {
      assert Repeat<nat>(0, 0) + s == s;
    } else {
      LeadingZeros(b, z - 1, s);
      ValueCons(b, 0, Repeat<nat>(0, z - 1) + s);
      assert Repeat<nat>(0, z) + s == [0] + (Repeat<nat>(0, z - 1) + s);
    }
  }

  lemma DigitsOnce(b: nat, n: nat) returns (q: nat, r: nat)
    requires b >= 2 && n > 0
    ensures Digits(b, n) == Digits(b, q) + [r] && q < n && r < b && q * b + r == n
  {
    q, r := n / b, n % b;
    Divide(n, b);
  }

  lemma Divide(n: nat, b: nat)
    requires b >= 2
    ensures n == (n / b) * b + n % b && n % b < b && (n > 0 ==> n / b < n)
  {
  }

  lemma {:induction false} ValueOfDigits(b: nat, n: nat)
    requires b >= 2
    ensures Value(b, Digits(b, n)) == n && Numeral(b, Digits(b, n))
    ensures n > 0 ==> Digits(b, n) != [] && Digits(b, n)[0] != 0
  {
    hide Value;
    if n == 0 {
      NoDigits(b);
    } else {
      hide Digits;
      var q, r := DigitsOnce(b, n);
      ValueOfDigits(b, q);
      ValueSnoc(b, Digits(b, q), r);
      ZeroHasNone(b);
    }
  }

  lemma ZeroHasNone(b: nat)
    requires b >= 2
    ensures Digits(b, 0) == []
  {
  }

  lemma NoDigits(b: nat)
    ensures Value(b, []) == 0
  {
  }

  /** A numeral without leading zeros is the only one of its value. */
  lemma {:induction false} DigitsOfValue(b: nat, s: seq<nat>)
    requires b >= 2 && Numeral(b, s) && (s != [] ==> s[0] != 0)
    ensures Digits(b, Value(b, s)) == s && (s != [] ==> Value(b, s) > 0)
  {
    if s != [] {
      var m := |s| - 1;
      DigitsOfValue(b, s[..m]);
      assert Value(b, s) == b * Value(b, s[..m]) + s[m];
      DivModUnique(Value(b, s), b, Value(b, s[..m]), s[m]);
      if m > 0 { MulMonotone(1, Value(b, s[..m]), b); }
      assert s == s[..m] + [s[m]];
    }
  }

  // ---------- the buffers suffice ----------

  lemma {:induction false} PowAdd(b: nat, m: nat, n: nat)
    ensures Pow(b, m + n) == Pow(b, m) * Pow(b, n)
  {
    if m > 0 {
      PowAdd(b, m - 1, n);
      assert b * (Pow(b, m - 1) * Pow(b, n)) == b * Pow(b, m - 1) * Pow(b, n);
    }
  }

  lemma {:induction false} PowMul(b: nat, m: nat, n: nat)
    ensures Pow(Pow(b, m), n) == Pow(b, m * n)
  {
    if n > 0 {
      PowMul(b, m, n - 1);
      PowAdd(b, m, m * (n - 1));
      assert m * n == m + m * (n - 1);
    } else {
      assert m * n == 0;
    }
  }

  lemma {:induction false} PowMonotone(a: nat, b: nat, n: nat)
    requires a <= b
    ensures Pow(a, n) <= Pow(b, n)
  {
    if n > 0 {
      PowMonotone(a, b, n - 1);
      MulMonotone(a, b, Pow(a, n - 1));
      MulMonotone(Pow(a, n - 1), Pow(b, n - 1), b);
    }
  }

  lemma {:induction false} PowPositive(b: nat, n: nat)
    requires b > 0
    ensures Pow(b, n) > 0
  {
    if n > 0 {
      PowPositive(b, n - 1);
      MulMonotone(1, b, Pow(b, n - 1));
    }
  }

  lemma {:induction false} PowGrows(b: nat, m: nat, n: nat)
    requires b >= 2 && m <= n
    ensures Pow(b, m) <= Pow(b, n)
    ensures m < n ==> Pow(b, m) < Pow(b, n)
    decreases n
  {
    if m < n {
      PowGrows(b, m, n - 1);
      PowPositive(b, n - 1);
      MulMonotone(2, b, Pow(b, n - 1));
    }
  }

  /** From a^p < b^q and q * n < p * d follows a^n < b^d: a test of logarithms on whole numbers. */
  lemma PowersCompare(a: nat, b: nat, p: nat, q: nat, n: nat, d: nat)
    requires a >= 2 && b >= 2 && p > 0 && Pow(a, p) <= Pow(b, q) && q * n < p * d
    ensures Pow(a, n) < Pow(b, d)
  {
    hide Pow;
    calc {
      Pow(Pow(a, n), p);
      { PowSwap(a, n, p); }
      Pow(Pow(a, p), n);
      <= { PowMonotone(Pow(a, p), Pow(b, q), n); }
      Pow(Pow(b, q), n);
      { PowMul(b, q, n); }
      Pow(b, q * n);
      < { PowGrows(b, q * n, p * d); }
      Pow(b, p * d);
      { PowMul(b, p, d); }
      Pow(Pow(b, p), d);
      { PowSwap(b, p, d); }
      Pow(Pow(b, d), p);
    }
    if Pow(b, d) <= Pow(a, n) {
      PowMonotone(Pow(b, d), Pow(a, n), p);
    }
  }

  lemma PowSwap(b: nat, m: nat, n: nat)
    ensures Pow(Pow(b, m), n) == Pow(Pow(b, n), m)
  {
    hide Pow;
    PowMul(b, m, n);
    PowMul(b, n, m);
    assert m * n == n * m;
  }

  lemma EncodeFits(n: nat)
    ensures Pow(256, n) < Pow(58, n * 138 / 100 + 1)
  {
    assert Pow(256, 8) <= Pow(58, 11);
    PowersCompare(256, 58, 8, 11, n, n * 138 / 100 + 1);
  }

  lemma DecodeFits(n: nat)
    ensures Pow(58, n) < Pow(256, n * 733 / 1000 + 1)
  {
    assert Pow(58, 71) <= Pow(256, 52) by {
      assert Pow(58, 8) == 128063081718016;
      PowMul(58, 8, 8);
      PowAdd(58, 64, 7);
      assert Pow(256, 13) == 20282409603651670423947251286016;
      PowMul(256, 13, 4);
    }
    PowersCompare(58, 256, 71, 52, n, n * 733 / 1000 + 1);
  }

  // ---------- the carry loop ----------

  // The digits now hold mul times the digits before, plus add, except for a carry.
  ghost predicate Carried(b: nat, mul: nat, add: nat, now: seq<nat>, carry: nat, was: seq<nat>) {
    |now| == |was| && Value(b, now) + carry * Pow(b, |now|) == Value(b, was) * mul + add
  }

  lemma CarryStep(b: nat, mul: nat, add: nat, now: seq<nat>, carry: nat, was: seq<nat>, d: nat, q: nat, r: nat)
    requires Carried(b, mul, add, now, carry, was) && carry + d * mul == q * b + r
    ensures Carried(b, mul, add, [r] + now, q, [d] + was)
  {
    hide Value, Pow;
    var p, v, w := Pow(b, |now|), Value(b, now), Value(b, was);
    ValueCons(b, r, now);
    ValueCons(b, d, was);
    assert Pow(b, |now| + 1) == b * p by { OnePower(b, |now|); }
    calc {
      r * p + v + q * (b * p);
      (q * b + r) * p + v;
      (carry + d * mul) * p + v;
      d * mul * p + (v + carry * p);
      (d * p + w) * mul + add;
    }
  }

  lemma OnePower(b: nat, n: nat)
    ensures Pow(b, n + 1) == b * Pow(b, n) && Pow(b, 0) == 1
  {
  }

  lemma CarrySmall(b: nat, mul: nat, d: nat, carry: nat)
    requires b >= 2 && mul > 0 && d < b && carry < mul
    ensures
      var c := carry + d * mul;
      c < b * mul && c / b < mul && c % b < b && c == (c / b) * b + c % b
  {
    var c := carry + d * mul;
    MulMonotone(d, b - 1, mul);
    var q, r := c / b, c % b;
    assert c == b * q + r;
    if q >= mul { MulMonotone(mul, q, b); }
  }

  // One digit of the carry loop: c is what a 32-bit word holds in between.
  method CarryDigit(b: nat, mul: nat, d: nat, carry: nat) returns (low: nat, high: nat)
    requires b >= 2 && d < b && carry < mul && b * mul < 0x1_0000_0000
    ensures low < b && high < mul && carry + d * mul == high * b + low
  {
    CarrySmall(b, mul, d, carry);
    var c := carry + d * mul;
    assert c < 0x1_0000_0000;
    low, high := c % b, c / b;
  }

  /** The inner loop of both directions: the buffer becomes mul times as much plus add, and a carry that does not fit is
      left over.  In both uses b * mul is 58 * 256, so the 32-bit carry never wraps. */
  method MultiplyAdd(buf: array<nat>, b: nat, mul: nat, add: nat) returns (carry: nat)
    requires b >= 2 && add < mul && b * mul < 0x1_0000_0000 && Numeral(b, buf[..])
    modifies buf
    ensures Numeral(b, buf[..]) && carry < mul
    ensures Carried(b, mul, add, buf[..], carry, old(buf[..]))
  {
    hide Carried;
    ghost var was := buf[..];
    carry := add;
    var j := buf.Length;
    NothingCarried(b, mul, add);
    assert buf[j..] == [] && was[j..] == [];
    while j > 0
      invariant 0 <= j <= buf.Length && carry < mul
      invariant buf[..j] == was[..j] && Numeral(b, buf[..])
      invariant Carried(b, mul, add, buf[j..], carry, was[j..])
    {
      ghost var tail := buf[j..];
      var d := buf[j - 1];
      assert d == was[..j][j - 1] == was[j - 1];
      var low, high := CarryDigit(b, mul, d, carry);
      CarryStep(b, mul, add, tail, carry, was[j..], d, high, low);
      carry := high;
      buf[j - 1] := low;
      assert buf[j - 1..] == [low] + tail && was[j - 1..] == [d] + was[j..];
      j := j - 1;
    }
    assert buf[0..] == buf[..] && was[0..] == was;
  }

  lemma NothingCarried(b: nat, mul: nat, add: nat)
    ensures Carried(b, mul, add, [], add, [])
  {
  }

  // ---------- letters ----------

  const DIGITS: string := "123456789"
  const UPPER: string := "ABCDEFGHJKLMNPQRSTUVWXYZ"
  const LOWER: string := "abcdefghijkmnopqrstuvwxyz"
  const LETTERS: string := DIGITS + UPPER + LOWER
  const UINT32_MAX: nat := 0xffff_ffff

  // The digit a letter stands for; not below 58 for a character that is no letter.
  function LetterValue(c: char): nat {
    if '1' <= c <= '9' then (c - '1') as nat
    else if 'A' <= c <= 'H' then 9 + (c - 'A') as nat
    else if 'J' <= c <= 'N' then 17 + (c - 'J') as nat
    else if 'P' <= c <= 'Z' then 22 + (c - 'P') as nat
    else if 'a' <= c <= 'k' then 33 + (c - 'a') as nat
    else if 'm' <= c <= 'z' then 44 + (c - 'm') as nat
    else UINT32_MAX
  }

  predicate IsLetter(c: char) { LetterValue(c) < 58 }

  predicate AllLetters(s: string) { forall i :: 0 <= i < |s| ==> IsLetter(s[i]) }

  function Letters(ds: seq<nat>): (s: string)
    requires Numeral(58, ds)
    ensures |s| == |ds|
  {
    seq(|ds|, i requires 0 <= i < |ds| => Letter(ds[i]))
  }

  function Values(s: string): (ds: seq<nat>)
    ensures |ds| == |s|
  {
    seq(|s|, i requires 0 <= i < |s| => LetterValue(s[i]))
  }

  // The letter of a digit, by ranges.
  function Letter(d: nat): char
    requires d < 58
  {
    if d < 9 then '1' + d as char
    else if d < 17 then 'A' + (d - 9) as char
    else if d < 22 then 'J' + (d - 17) as char
    else if d < 33 then 'P' + (d - 22) as char
    else if d < 44 then 'a' + (d - 33) as char
    else 'm' + (d - 44) as char
  }

  /** The table of the encoder and the ranges of the decoder agree. */
  lemma TableAgrees()
    ensures LETTERS == seq(58, d requires 0 <= d < 58 => Letter(d))
  {
    assert DIGITS == seq(9, d requires 0 <= d < 9 => Letter(d));
    UpperAgrees();
    LowerAgrees();
  }

  predicate Plain(c: char) { '0' <= c <= '9' || 'A' <= c <= 'Z' || 'a' <= c <= 'z' }

  /** The letters are the digits and letters of ASCII in their order, without 0, O, I and l. */
  lemma AlphabetExactly(c: char)
    ensures IsLetter(c) <==> Plain(c) && c != '0' && c != 'O' && c != 'I' && c != 'l'
    ensures forall d: char :: IsLetter(c) && IsLetter(d) ==> (LetterValue(c) < LetterValue(d) <==> c < d)
  {
  }

  lemma UpperAgrees()
    ensures UPPER == seq(24, d requires 0 <= d < 24 => Letter(d + 9))
  {
  }

  lemma LowerAgrees()
    ensures LOWER == seq(25, d requires 0 <= d < 25 => Letter(d + 33))
  {
  }

  lemma ValueOfLetter(d: nat)
    requires d < 58
    ensures IsLetter(Letter(d)) && LetterValue(Letter(d)) == d
  {
  }

  lemma LetterOfValue(c: char)
    requires IsLetter(c)
    ensures Letter(LetterValue(c)) == c
  {
  }

  function Leading<T(==)>(x: T, s: seq<T>): (z: nat)
    ensures z <= |s| && (z < |s| ==> s[z] != x)
    ensures forall i :: 0 <= i < z ==> s[i] == x
  {
    if s != [] && s[0] == x then 1 + Leading(x, s[1..]) else 0
  }

  function ValidPrefix(s: string): (p: string)
    ensures p <= s && AllLetters(p)
  {
    if s != "" && IsLetter(s[0]) then [s[0]] + ValidPrefix(s[1..]) else ""
  }

  // ---------- what is computed ----------

  function Encoded(data: seq<Byte>): string {
    var z := Leading<Byte>(0, data);
    var n := Value(256, data[z..]);
    ValueOfDigits(58, n);
    Repeat('1', z) + Letters(Digits(58, n))
  }

  function Decoded(str: string): seq<Byte> {
    var z := Leading('1', str);
    var n := Value(58, Values(ValidPrefix(str[z..])));
    ValueOfDigits(256, n);
    Repeat<Byte>(0, z) + AsBytes(Digits(256, n))
  }

  // ---------- the code ----------

  lemma NoCarry(b: nat, mul: nat, n: nat, add: nat, now: seq<nat>, carry: nat, was: seq<nat>, s: seq<nat>)
    requires mul >= 2 && Carried(b, mul, add, now, carry, was) && add < mul
    requires Value(b, was) == Value(mul, s) && Numeral(mul, s) && |s| < n && Pow(mul, n) < Pow(b, |now|)
    ensures carry == 0 && Value(b, now) == Value(mul, s + [add])
  {
    hide Pow, Value, Numeral, Carried;
    CarriedValue(b, mul, add, now, carry, was, s);
    ValueBelow(mul, s, add, n);
    NoMultiple(Value(b, now), carry, Pow(b, |now|), Value(mul, s + [add]));
  }

  lemma CarriedValue(b: nat, mul: nat, add: nat, now: seq<nat>, carry: nat, was: seq<nat>, s: seq<nat>)
    requires Carried(b, mul, add, now, carry, was) && Value(b, was) == Value(mul, s)
    ensures Value(b, now) + carry * Pow(b, |now|) == Value(mul, s + [add])
  {
  }

  lemma ValueBelow(mul: nat, s: seq<nat>, add: nat, n: nat)
    requires mul >= 2 && Numeral(mul, s) && add < mul && |s| < n
    ensures Value(mul, s + [add]) < Pow(mul, n)
  {
    hide Pow, Value;
    ValueBound(mul, s + [add]);
    PowGrows(mul, |s| + 1, n);
  }

  lemma NoMultiple(x: nat, carry: nat, p: nat, y: nat)
    requires x + carry * p == y < p
    ensures carry == 0
  {
  }

  // Skipping the zeros in front leaves the shortest numeral.
  lemma Stripped(b: nat, s: seq<nat>, i: nat)
    requires b >= 2 && Numeral(b, s) && i <= |s| && (i < |s| ==> s[i] != 0)
    requires forall k :: 0 <= k < i ==> s[k] == 0
    ensures s[i..] == Digits(b, Value(b, s))
  {
    hide Digits, Value;
    assert s == Repeat<nat>(0, i) + s[i..];
    LeadingZeros(b, i, s[i..]);
    DigitsOfValue(b, s[i..]);
  }

  method CountLeading<T(==)>(x: T, s: seq<T>) returns (z: nat)
    ensures z == Leading(x, s)
  {
    z := 0;
    while z < |s| && s[z] == x
      invariant z <= |s| && forall k :: 0 <= k < z ==> s[k] == x
    {
      z := z + 1;
    }
    LeadingIs(x, s, z);
  }

  lemma {:induction false} LeadingIs<T>(x: T, s: seq<T>, z: nat)
    requires z <= |s| && (z < |s| ==> s[z] != x) && forall k :: 0 <= k < z ==> s[k] == x
    ensures Leading(x, s) == z
  {
  }

  method ZeroBuffer(n: nat, ghost b: nat) returns (buf: array<nat>)
    requires b >= 2
    ensures fresh(buf) && buf.Length == n && Numeral(b, buf[..]) && Value(b, buf[..]) == 0
  {
    buf := new nat[n](_ => 0);
    LeadingZeros(b, n, []);
    NoDigits(b);
    assert buf[..] == Repeat<nat>(0, n) + [];
  }

  method SkipZeros(buf: array<nat>, ghost b: nat) returns (i: nat)
    requires b >= 2 && Numeral(b, buf[..])
    ensures i <= buf.Length && buf[i..] == Digits(b, Value(b, buf[..]))
  {
    i := 0;
    while i < buf.Length && buf[i] == 0
      invariant i <= buf.Length && forall k :: 0 <= k < i ==> buf[k] == 0
    {
      i := i + 1;
    }
    Stripped(b, buf[..], i);
    assert buf[i..] == buf[..][i..];
  }

  /** BRBase58Encode; room is the size of the string, None for a size query. */
  method Encode(room: Option<nat>, data: seq<Byte>) returns (len: nat, str: string)
    ensures len == Written(|Encoded(data)| + 1, room)
    ensures str == if room.Some? && len > 0 then Encoded(data) else ""
  {
    hide Value, Digits, Pow, Carried;
    var zcount := CountLeading<Byte>(0, data);
    var n := |data| - zcount;
    EncodeFits(n);
    var buf := ZeroBuffer(n * 138 / 100 + 1, 58);
    NoDigits(256);
    assert data[zcount..zcount] == [];
    for i := zcount to |data|
      invariant Numeral(58, buf[..]) && Value(58, buf[..]) == Value(256, data[zcount..i])
    {
      ghost var was := buf[..];
      var carry := MultiplyAdd(buf, 58, 256, data[i]);
      NoCarry(58, 256, n, data[i], buf[..], carry, was, data[zcount..i]);
      assert data[zcount..i + 1] == data[zcount..i] + [data[i]];
    }
    assert data[zcount..|data|] == data[zcount..];
    var i := SkipZeros(buf, 58);
    len := zcount + buf.Length - i + 1;
    str := "";
    if room.Some? && len <= room.value {
      str := WriteLetters(zcount, buf, i);
    }
    len := if room.None? || len <= room.value then len else 0;
  }

  method WriteLetters(zcount: nat, buf: array<nat>, i0: nat) returns (str: string)
    requires Numeral(58, buf[..]) && i0 <= buf.Length
    ensures Numeral(58, buf[i0..]) && str == Repeat('1', zcount) + Letters(buf[i0..])
  {
    TableAgrees();
    str := "";
    for k := 0 to zcount
      invariant str == Repeat('1', k)
    {
      str := str + [LETTERS[0]];
      assert Repeat('1', k + 1) == Repeat('1', k) + ['1'];
    }
    for i := i0 to buf.Length
      invariant str == Repeat('1', zcount) + Letters(buf[i0..i])
    {
      str := str + [LETTERS[buf[i]]];
      assert Letters(buf[i0..i + 1]) == Letters(buf[i0..i]) + [Letter(buf[i])];
    }
    assert buf[i0..buf.Length] == buf[i0..];
  }

  /** BRBase58Decode: the first character that is no letter ends the input without an error. */
  method Decode(room: Option<nat>, str: string) returns (len: nat, data: seq<Byte>)
    ensures len == Written(|Decoded(str)|, room)
    ensures data == if room.Some? && |Decoded(str)| <= room.value then Decoded(str) else []
  {
    hide Value, Digits, Pow, Carried, LetterValue, ValidPrefix, Leading;
    var zcount := CountLeading('1', str);
    var rest := str[zcount..];
    DecodeFits(|rest|);
    var buf := ZeroBuffer(|rest| * 733 / 1000 + 1, 256);
    NoDigits(58);
    ghost var valid := ValidPrefix(rest);
    var i := 0;
    while i < |rest|
      invariant i <= |valid| && Numeral(256, buf[..]) && Value(256, buf[..]) == Value(58, Values(rest[..i]))
    {
      var digit := LetterValue(rest[i]);
      PrefixStops(rest, i);
      if digit >= 58 { break; }
      ghost var was := buf[..];
      var carry := MultiplyAdd(buf, 256, 58, digit);
      NoCarry(256, 58, |rest|, digit, buf[..], carry, was, Values(rest[..i]));
      assert Values(rest[..i + 1]) == Values(rest[..i]) + [digit];
      i := i + 1;
    }
    PrefixStops(rest, i);
    assert rest[..i] == valid;
    var k := SkipZeros(buf, 256);
    len := zcount + buf.Length - k;
    data := [];
    if room.Some? && len <= room.value {
      data := Repeat<Byte>(0, zcount) + AsBytes(buf[k..]);
    }
    len := if room.None? || len <= room.value then len else 0;
  }

  function AsBytes(s: seq<nat>): (t: seq<Byte>)
    requires Numeral(256, s)
    ensures t == s
  {
    s
  }

  lemma {:induction false} PrefixStops(s: string, i: nat)
    requires i <= |ValidPrefix(s)|
    ensures i < |s| ==> (i < |ValidPrefix(s)| <==> IsLetter(s[i]))
    ensures i == |s| ==> ValidPrefix(s) == s
  {
    if i > 0 { PrefixStops(s[1..], i - 1); }
  }

  // ---------- decoding undoes encoding, and the other way round ----------

  lemma LeadingOf<T>(x: T, z: nat, s: seq<T>)
    requires s != [] ==> s[0] != x
    ensures Leading(x, Repeat(x, z) + s) == z && (Repeat(x, z) + s)[z..] == s
  {
  }

  lemma {:induction false} AllValid(s: string)
    requires AllLetters(s)
    ensures ValidPrefix(s) == s
  {
    if s != "" { AllValid(s[1..]); }
  }

  lemma ValuesOfLetters(ds: seq<nat>)
    requires Numeral(58, ds)
    ensures Values(Letters(ds)) == ds && AllLetters(Letters(ds))
  {
    forall i | 0 <= i < |ds|
      ensures LetterValue(Letters(ds)[i]) == ds[i]
    {
      ValueOfLetter(ds[i]);
    }
  }

  lemma LettersOfValues(s: string)
    requires AllLetters(s)
    ensures Numeral(58, Values(s)) && Letters(Values(s)) == s
  {
  }

  lemma ShortestStart(b: nat, n: nat)
    requires b >= 2
    ensures Digits(b, n) != [] ==> Digits(b, n)[0] != 0
  {
  }

  /** Every byte string comes back, leading zeros included. */
  lemma DecodeUndoesEncode(data: seq<Byte>)
    ensures Decoded(Encoded(data)) == data && AllLetters(Encoded(data))
  {
    hide Value, Digits, Leading, ValidPrefix, Letter, LetterValue;
    var z := Leading<Byte>(0, data);
    var rest := data[z..];
    var n := Value(256, rest);
    ValueOfDigits(58, n);
    var ds := Digits(58, n);
    ValuesOfLetters(ds);
    ShortestStart(58, n);
    if ds != [] { FirstLetter(ds[0]); }
    LeadingOf('1', z, Letters(ds));
    AllValid(Letters(ds));
    assert AllLetters(Repeat('1', z)) by { FirstLetter(0); }
    DigitsOfValue(256, rest);
    assert data == Repeat<Byte>(0, z) + rest;
  }

  lemma FirstLetter(d: nat)
    requires d < 58
    ensures (Letter(d) == '1' <==> d == 0) && IsLetter('1')
  {
  }

  /** Every string of letters comes back. */
  lemma EncodeUndoesDecode(s: string)
    requires AllLetters(s)
    ensures Encoded(Decoded(s)) == s
  {
    hide Value, Digits, Leading, ValidPrefix, Letter, LetterValue;
    var z := Leading('1', s);
    var rest := s[z..];
    AllValid(rest);
    LettersOfValues(rest);
    var n := Value(58, Values(rest));
    ValueOfDigits(256, n);
    ShortestStart(256, n);
    LeadingOf<Byte>(0, z, AsBytes(Digits(256, n)));
    if rest != "" { FirstLetter(LetterValue(rest[0])); LetterOfValue(rest[0]); }
    DigitsOfValue(58, Values(rest));
    assert s == Repeat('1', z) + rest;
  }

  /** The decoder reads the letters up to the first other character and ignores what follows. */
  lemma DecodesPrefix(s: string)
    ensures Decoded(s) == Decoded(ValidPrefix(s))
  {
    hide Value, Digits;
    var p := ValidPrefix(s);
    PrefixAfterOnes(s);
    AllValid(p);
  }

  lemma {:induction false} PrefixAfterOnes(s: string)
    ensures Leading('1', ValidPrefix(s)) == Leading('1', s)
    ensures ValidPrefix(s[Leading('1', s)..]) == ValidPrefix(s)[Leading('1', s)..]
    ensures AllLetters(ValidPrefix(s)[Leading('1', s)..])
    ensures ValidPrefix(ValidPrefix(s)[Leading('1', s)..]) == ValidPrefix(s)[Leading('1', s)..]
  {
    if s != "" && s[0] == '1' {
      PrefixAfterOnes(s[1..]);
      assert ValidPrefix(s)[1..] == ValidPrefix(s[1..]);
      assert s[1..][Leading('1', s[1..])..] == s[Leading('1', s)..];
    } else {
      assert s[0..] == s;
      AllValid(ValidPrefix(s));
    }
  }

  /** So two strings decode to the same bytes exactly when they agree up to their first character that is no letter. */
  lemma SameBytesExactly(s: string, t: string)
    ensures Decoded(s) == Decoded(t) <==> ValidPrefix(s) == ValidPrefix(t)
  {
    DecodesPrefix(s);
    DecodesPrefix(t);
    EncodeUndoesDecode(ValidPrefix(s));
    EncodeUndoesDecode(ValidPrefix(t));
  }

  // ---------- Base58Check ----------

  // The first four bytes of the double hash, which sha stands for.
  function Checksum(sha: seq<Byte> -> seq<Byte>, data: seq<Byte>): seq<Byte>
    requires |sha(data)| == 32
  {
    sha(data)[..4]
  }

  lemma {:induction false} DecodedShorter(str: string)
    ensures |Decoded(str)| <= |str|
  {
    hide Value, Digits, Pow;
    var z := Leading('1', str);
    var rest := ValidPrefix(str[z..]);
    LettersOfValues(rest);
    var ds := Values(rest);
    ValueOfDigits(256, Value(58, ds));
    ValueBound(58, ds);
    DigitCount(256, 58, Value(58, ds), |ds|);
  }

  lemma {:induction false} DigitCount(b: nat, a: nat, n: nat, m: nat)
    requires b >= a >= 2 && n < Pow(a, m)
    ensures |Digits(b, n)| <= m
  {
    if n == 0 {
      ZeroHasNone(b);
    } else if m == 0 {
      assert false;
    } else {
      hide Digits;
      var q, r := DigitsOnce(b, n);
      if q >= Pow(a, m - 1) {
        MulMonotone(Pow(a, m - 1), q, b);
        MulMonotone(a, b, Pow(a, m - 1));
      }
      DigitCount(b, a, q, m - 1);
    }
  }

  /** BRBase58CheckEncode */
  method CheckEncode(room: Option<nat>, data: seq<Byte>, sha: seq<Byte> -> seq<Byte>) returns (len: nat, str: string)
    requires |sha(data)| == 32
    ensures len == Written(|Encoded(data + Checksum(sha, data))| + 1, room)
    ensures str == if room.Some? && len > 0 then Encoded(data + Checksum(sha, data)) else ""
  {
    len, str := Encode(room, data + sha(data)[..4]);
  }

  /** BRBase58CheckDecode: a wrong checksum and an empty payload both give length 0. */
  method CheckDecode(room: Option<nat>, str: string, sha: seq<Byte> -> seq<Byte>) returns (len: nat, data: seq<Byte>)
    requires forall d :: |sha(d)| == 32
    ensures var d := Payload(str, sha);
      len == Written(|d|, room) && data == (if room.Some? && |d| <= room.value then d else [])
  {
    hide Decoded;
    DecodedShorter(str);
    var n, buf := Decode(Some(|str|), str);
    len := n;
    if len >= 4 {
      len := len - 4;
      if buf[len..len + 4] != sha(buf[..len])[..4] { len := 0; }
    } else {
      len := 0;
    }
    data := if room.Some? && len <= room.value then buf[..len] else [];
    len := if room.None? || len <= room.value then len else 0;
  }

  // What a string carries when its checksum is right.
  function Payload(str: string, sha: seq<Byte> -> seq<Byte>): seq<Byte>
    requires forall d :: |sha(d)| == 32
  {
    var buf := Decoded(str);
    var n := |buf| - 4;
    if n >= 0 && buf[n..] == Checksum(sha, buf[..n]) then buf[..n] else []
  }

  /** A nonempty payload comes out of a string exactly when its letters are the Base58Check form of the payload. */
  lemma CheckedExactly(str: string, data: seq<Byte>, sha: seq<Byte> -> seq<Byte>)
    requires (forall d :: |sha(d)| == 32) && data != []
    ensures Payload(str, sha) == data <==> ValidPrefix(str) == Encoded(data + Checksum(sha, data))
  {
    hide Encoded, Decoded;
    var all := data + Checksum(sha, data);
    DecodeUndoesEncode(all);
    AllValid(Encoded(all));
    SameBytesExactly(str, Encoded(all));
    assert all[..|data|] == data && all[|data|..] == Checksum(sha, data);
    var buf := Decoded(str);
    if Payload(str, sha) == data {
      assert buf == buf[..|buf| - 4] + buf[|buf| - 4..];
      assert buf == all;
    }
    if buf == all {
      assert buf[|buf| - 4..] == Checksum(sha, buf[..|buf| - 4]);
    }
  }
}
