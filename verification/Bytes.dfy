/** Byte strings as little-endian numbers. */
module Bytes {
  import opened Arith

  type Byte = b: int | 0 <= b < 256

  function Pow256(n: nat): (p: nat)
    ensures p > 0
  {
    if n == 0 then 1 else 256 * Pow256(n - 1)
  }

  // The little-endian number of a byte string.
  function Little(s: seq<Byte>): nat { if s == [] then 0 else s[0] + 256 * Little(s[1..]) }

  lemma {:induction false} LittleConcat(a: seq<Byte>, b: seq<Byte>)
    ensures Little(a + b) == Little(a) + Pow256(|a|) * Little(b)
  {
    if a == [] {
      assert a + b == b;
    } else {
      LittleConcat(a[1..], b);
      assert (a + b)[1..] == a[1..] + b;
      assert 256 * (Pow256(|a| - 1) * Little(b)) == Pow256(|a|) * Little(b);
    }
  }

  lemma {:induction false} LittleBound(s: seq<Byte>)
    ensures Little(s) < Pow256(|s|)
  {
    if s != [] { LittleBound(s[1..]); }
  }

  lemma LittleNothing()
    ensures Little([]) == 0
  {
  }

  lemma LittleByte(s: seq<Byte>, i: nat)
    requires i < |s|
    ensures Little(s[i..]) == s[i] + 256 * Little(s[i + 1..])
  {
  }

  // BRVarIntSize: the length of a variable-length integer.
  function VarIntSize(i: nat): nat {
    if i < 0xfd then 1 else if i <= 0xffff then 3 else if i <= 0xffff_ffff then 5 else 9
  }

  function Zeros(n: nat): seq<Byte> { seq(n, _ => 0) }

  lemma {:induction false} LittleZeros(n: nat)
    ensures Little(Zeros(n)) == 0
  {
    if n > 0 {
      LittleZeros(n - 1);
      assert Zeros(n)[1..] == Zeros(n - 1);
    }
  }

  lemma {:induction false} Pow256Add(m: nat, n: nat)
    ensures Pow256(m + n) == Pow256(m) * Pow256(n)
  {
    if m > 0 {
      Pow256Add(m - 1, n);
      assert 256 * (Pow256(m - 1) * Pow256(n)) == Pow256(m) * Pow256(n);
    }
  }

  /** Byte strings that agree above place i compare as their bytes at i do. */
  lemma LittleCompare(a: seq<Byte>, b: seq<Byte>, i: nat)
    requires |a| == |b| && i < |a| && a[i + 1..] == b[i + 1..] && a[i] < b[i]
    ensures Little(a) < Little(b)
  {
    hide Little, Pow256;
    assert a == a[..i] + a[i..] && b == b[..i] + b[i..];
    LittleConcat(a[..i], a[i..]);
    LittleConcat(b[..i], b[i..]);
    LittleByte(a, i);
    LittleByte(b, i);
    LittleBound(a[..i]);
    HigherDigitWins(Little(a[..i]), Little(b[..i]), Little(a[i..]), Little(b[i..]), Pow256(i));
  }

  lemma HigherDigitWins(u: nat, v: nat, x: nat, y: nat, p: nat)
    requires u < p && x < y
    ensures u + p * x < v + p * y
  {
    MulMonotone(x + 1, y, p);
  }
}
