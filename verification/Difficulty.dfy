/** Proof of work and difficulty transitions of BRMerkleBlock.c: targets in "compact" form, a size byte over a 23-bit
    mantissa, and the 64-bit retarget arithmetic that is claimed to lose no precision. */
module Difficulty {
  import opened Arith
  import opened Bytes

  const TARGET_TIMESPAN: nat := 14 * 24 * 60 * 60
  const BLOCK_DIFFICULTY_INTERVAL: nat := 2016
  const MAX_SIZE: nat := 0x1d              // MAX_PROOF_OF_WORK is 0x1d00ffff
  const MAX_MANTISSA: nat := 0xffff
  const U32: nat := 0x1_0000_0000
  const SIZE_UNIT: nat := 0x100_0000       // 1 << 24

  lemma DivShrinks(m: nat, p: nat)
    requires p > 0
    ensures 0 <= m / p <= m
  {
    MulMonotone(1, p, m / p);
  }

  // n shifted right by k bytes
  function CutBytes(n: nat, k: nat): (r: nat)
    ensures r <= n
  {
    DivShrinks(n, Pow256(k));
    n / Pow256(k)
  }

  // The number a compact target stands for.
  function Expand(mantissa: nat, size: nat): nat {
    if size >= 3 then mantissa * Pow256(size - 3) else CutBytes(mantissa, 3 - size)
  }

  const MAX_TARGET: nat := Expand(MAX_MANTISSA, MAX_SIZE)

  // mantissa and size are the canonical compact form of n: the mantissa is normalized and n is cut, not rounded.
  ghost predicate IsCompact(n: nat, mantissa: nat, size: nat) {
    && 3 <= size && 0x8000 <= mantissa <= 0x7f_ffff
    && mantissa * Pow256(size - 3) <= n < (mantissa + 1) * Pow256(size - 3)
  }

  lemma {:induction false} PowGrows(m: nat, n: nat)
    requires m <= n
    ensures Pow256(m) <= Pow256(n)
    ensures m < n ==> 256 * Pow256(m) <= Pow256(n)
  {
    if m < n { PowGrows(m, n - 1); }
  }

  /** A number has at most one canonical compact form, and larger sizes mean larger numbers. */
  lemma CompactOrder(n: nat, m: nat, s: nat, n': nat, m': nat, s': nat)
    requires IsCompact(n, m, s) && IsCompact(n', m', s')
    requires s < s' || (s == s' && m < m')
    ensures n < n'
  {
    var p, p' := Pow256(s - 3), Pow256(s' - 3);
    if s < s' {
      PowGrows(s - 3, s' - 3);
      MulMonotone(m + 1, 0x80_0000, p);
      MulMonotone(0x8000, m', p');
    } else {
      MulMonotone(m + 1, m', p);
    }
  }

  lemma CompactUnique(n: nat, m: nat, s: nat, m': nat, s': nat)
    requires IsCompact(n, m, s) && IsCompact(n, m', s')
    ensures m == m' && s == s'
  {
    if s < s' || (s == s' && m < m') { CompactOrder(n, m, s, n, m', s'); }
    if s' < s || (s == s' && m' < m) { CompactOrder(n, m', s', n, m, s); }
  }

  // ---------- the retarget arithmetic ----------

  // (int) of a difference of two 32-bit timestamps
  function ToInt32(x: int): int { (x + 0x8000_0000) % U32 - 0x8000_0000 }

  // "limit difficulty transition to -75% or +400%"
  function Clamp(timespan: int): nat {
    if timespan < TARGET_TIMESPAN / 4 then TARGET_TIMESPAN / 4
    else if timespan > TARGET_TIMESPAN * 4 then TARGET_TIMESPAN * 4
    else timespan
  }

  function Timespan(previous: nat, transition: nat): nat { Clamp(ToInt32(previous - transition)) }

  // "normalize target for compact format"
  function Normalize(target: nat, size: int): (r: (nat, nat))
    decreases if size < 1 then 1 - size else 0, target
  {
    if size < 1 || target > 0x7f_ffff then Normalize(target / 256, size + 1) else (target, size)
  }

  // "limit to MAX_PROOF_OF_WORK"
  function Limit(c: (nat, nat)): (nat, nat) {
    if c.1 > MAX_SIZE || (c.1 == MAX_SIZE && c.0 > MAX_MANTISSA) then (MAX_MANTISSA, MAX_SIZE) else c
  }

  // mantissa and size of the target after a transition
  function Retarget(mantissa: nat, size: nat, timespan: nat): (nat, nat) {
    Limit(Normalize(mantissa * timespan / (TARGET_TIMESPAN / 256), size - 1))
  }

  /** The transition arithmetic of BRMerkleBlockVerifyDifficulty.  Its product fits 64 bits. */
  method NextTarget(previousTime: nat, transitionTime: nat, previousTarget: nat) returns (bits: nat)
    requires previousTarget < U32
    ensures var (m, s) := Retarget(previousTarget % SIZE_UNIT, previousTarget / SIZE_UNIT,
                                   Timespan(previousTime, transitionTime));
            bits == m + s * SIZE_UNIT
  {
    hide Normalize;
    var timespan := ToInt32(previousTime - transitionTime);
    var size: int := previousTarget / SIZE_UNIT;
    var target := previousTarget % SIZE_UNIT;
    if timespan < TARGET_TIMESPAN / 4 { timespan := TARGET_TIMESPAN / 4; }
    if timespan > TARGET_TIMESPAN * 4 { timespan := TARGET_TIMESPAN * 4; }
    assert timespan == Timespan(previousTime, transitionTime);
    ProductFits(target, timespan);
    target := target * timespan;
    target := target / (TARGET_TIMESPAN / 256);
    size := size - 1;
    ghost var whole := Normalize(target, size);
    while size < 1 || target > 0x7f_ffff
      invariant 0 <= target && Normalize(target, size) == whole
      decreases if size < 1 then 1 - size else 0, target
    {
      NormalizeOnce(target, size);
      target, size := target / 256, size + 1;
    }
    NormalizeOnce(target, size);
    if size > MAX_SIZE || (size == MAX_SIZE && target > MAX_MANTISSA) {
      target, size := MAX_MANTISSA, MAX_SIZE;
    }
    bits := target + size * SIZE_UNIT;
  }

  lemma ProductFits(target: nat, timespan: nat)
    requires target < SIZE_UNIT && timespan <= TARGET_TIMESPAN * 4
    ensures 0 <= target * timespan < U32 * U32
  {
    MulMonotone(target, SIZE_UNIT, timespan);
  }

  lemma NormalizeOnce(target: nat, size: int)
    ensures Normalize(target, size)
         == if size < 1 || target > 0x7f_ffff then Normalize(target / 256, size + 1) else (target, size)
  {
  }

  // ---------- agreement with unbounded arithmetic ----------

  // The new target over unbounded integers, before the limit: what the compact target stands for, scaled.
  function Scaled(mantissa: nat, size: nat, timespan: nat): nat
    requires size >= 3
  {
    Expand(mantissa, size) * timespan / TARGET_TIMESPAN
  }

  /** Normalizing shifts k bytes out, keeping the mantissa at least 0x8000 if it was. */
  lemma {:induction false} NormalizeCuts(target: nat, size: int) returns (k: nat)
    requires size >= 1
    ensures Normalize(target, size) == (target / Pow256(k), size + k)
    ensures target / Pow256(k) <= 0x7f_ffff
    ensures target / Pow256(k) >= 0x8000 <==> target >= 0x8000
    decreases target
  {
    if target > 0x7f_ffff {
      var j := NormalizeCuts(target / 256, size + 1);
      k := j + 1;
      DivDiv(target, 256, Pow256(j));
    } else {
      k := 0;
    }
  }

  // floor(floor(x / c) / K) bounds floor(x * a / c) in units of K * a.
  lemma CutBounds(x: nat, a: nat, c: nat, K: nat)
    requires a > 0 && c > 0 && K > 0
    ensures var q := x / c / K; q * (K * a) <= x * a / c < (q + 1) * (K * a)
  {
    DivDiv(x, c, K);
    CutBoundsOf(x, a, c, K, x / (c * K), x % (c * K));
  }

  lemma CutBoundsOf(x: nat, a: nat, c: nat, K: nat, q: nat, r: nat)
    requires a > 0 && c > 0 && K > 0 && x == (c * K) * q + r && r < c * K
    ensures q * (K * a) <= x * a / c < (q + 1) * (K * a)
  {
    var u, w := K * a, c * K;
    MulMonotone(0, r, a);
    MulMonotone(r + 1, w, a);
    MulMonotone(1, a, a);
    Rearrange(c, K, q, a);
    Rearrange(c, K, 1, a);
    assert x * a == (w * q) * a + r * a;
    assert c * ((q + 1) * u) == c * (q * u) + c * (1 * u);
    DivBounds(x * a, c, q * u, (q + 1) * u);
  }

  lemma Rearrange(c: nat, K: nat, q: nat, a: nat)
    ensures ((c * K) * q) * a == c * (q * (K * a))
  {
  }

  lemma DivBounds(y: nat, c: nat, lo: nat, hi: nat)
    requires c > 0 && c * lo <= y < c * hi
    ensures lo <= y / c < hi
  {
    var z := y / c;
    assert y == c * z + y % c;
    if z < lo { MulMonotone(z + 1, lo, c); }
    if z >= hi { MulMonotone(hi, z, c); }
  }

  // The scaled target is the code's product, shifted by the bytes the size stands for.
  lemma ScaledShifted(mantissa: nat, size: nat, timespan: nat)
    requires size >= 4
    ensures Scaled(mantissa, size, timespan) == mantissa * timespan * Pow256(size - 4) / (TARGET_TIMESPAN / 256)
  {
    var a := Pow256(size - 4);
    var n := mantissa * timespan * a;
    assert Pow256(size - 3) == 256 * a;
    assert mantissa * (256 * a) * timespan == 256 * n;
    DivDiv(256 * n, 256, 4725);
    DivModUnique(256 * n, 256, n, 0);
  }

  /** Before the limit the code computes the canonical compact form of the scaled target exactly when the shifted
      product keeps sixteen significant bits. */
  lemma RetargetExactly(mantissa: nat, size: nat, timespan: nat)
    requires size >= 4
    ensures var (m, s) := Normalize(mantissa * timespan / (TARGET_TIMESPAN / 256), size - 1);
            (IsCompact(Scaled(mantissa, size, timespan), m, s) <==>
             mantissa * timespan >= 0x8000 * (TARGET_TIMESPAN / 256))
  {
    var t := mantissa * timespan / 4725;
    var k := NormalizeCuts(t, size - 1);
    var K, a := Pow256(k), Pow256(size - 4);
    CutBounds(mantissa * timespan, a, 4725, K);
    ScaledShifted(mantissa, size, timespan);
    Pow256Add(k, size - 4);
  }

  /** For every canonical previous target the 64-bit code yields exactly the canonical compact form of
      min(floor(target * timespan / TARGET_TIMESPAN), MAX_TARGET) over unbounded integers. */
  lemma RetargetLosesNothing(mantissa: nat, size: nat, timespan: nat)
    requires 0x8000 <= mantissa <= 0x7f_ffff && 4 <= size <= MAX_SIZE
    requires TARGET_TIMESPAN / 4 <= timespan <= TARGET_TIMESPAN * 4
    ensures var n := Scaled(mantissa, size, timespan);
            var (m, s) := Retarget(mantissa, size, timespan);
            IsCompact(if n < MAX_TARGET then n else MAX_TARGET, m, s)
  {
    ProductLarge(mantissa, timespan);
    RetargetExactly(mantissa, size, timespan);
    var (m, s) := Normalize(mantissa * timespan / (TARGET_TIMESPAN / 256), size - 1);
    LimitIsMin(Scaled(mantissa, size, timespan), m, s);
  }

  lemma ProductLarge(mantissa: nat, timespan: nat)
    requires 0x8000 <= mantissa && TARGET_TIMESPAN / 4 <= timespan
    ensures mantissa * timespan >= 0x8000 * (TARGET_TIMESPAN / 256)
  {
  }

  /** Limiting the compact form limits the number. */
  lemma LimitIsMin(n: nat, m: nat, s: nat)
    requires IsCompact(n, m, s)
    ensures var (m', s') := Limit((m, s));
            IsCompact(if n < MAX_TARGET then n else MAX_TARGET, m', s')
  {
    MaxIsCompact(n);
    hide IsCompact, Expand;
    if s > MAX_SIZE || (s == MAX_SIZE && m > MAX_MANTISSA) {
      CompactOrder(MAX_TARGET, MAX_MANTISSA, MAX_SIZE, n, m, s);
    } else if s < MAX_SIZE || m < MAX_MANTISSA {
      CompactOrder(n, m, s, MAX_TARGET, MAX_MANTISSA, MAX_SIZE);
    }
  }

  lemma MaxIsCompact(n: nat)
    ensures IsCompact(MAX_TARGET, MAX_MANTISSA, MAX_SIZE)
    ensures IsCompact(n, MAX_MANTISSA, MAX_SIZE) ==> n >= MAX_TARGET
  {
  }

  // ---------- BRMerkleBlockVerifyDifficulty ----------

  datatype Header = Header(blockHash: nat, prevBlock: nat, height: nat, timestamp: nat, target: nat)

  // The target that a transition after the previous block demands.
  predicate Demanded(previous: Header, transitionTime: nat, target: nat) {
    var (m, s) := Retarget(previous.target % SIZE_UNIT, previous.target / SIZE_UNIT,
                           Timespan(previous.timestamp, transitionTime));
    target == m + s * SIZE_UNIT
  }

  /** Whether the block's target is the one its place in the chain demands. */
  method VerifyDifficulty(block: Header, previous: Header, transitionTime: nat) returns (r: bool)
    requires previous.target < U32
    ensures r <==>
      && block.prevBlock == previous.blockHash && block.height == (previous.height + 1) % U32
      && if block.height % 2016 != 0 then block.target == previous.target
         else transitionTime != 0 && Demanded(previous, transitionTime, block.target)
  {
    hide Retarget;
    r := true;
    if block.prevBlock != previous.blockHash || block.height != (previous.height + 1) % U32 { r := false; }
    if r && block.height % BLOCK_DIFFICULTY_INTERVAL == 0 && transitionTime == 0 { r := false; }
    if r && block.height % BLOCK_DIFFICULTY_INTERVAL == 0 {
      var bits := NextTarget(previous.timestamp, transitionTime, previous.target);
      if block.target != bits { r := false; }
    } else if r && block.target != previous.target {
      r := false;
    }
  }

  // d, but not below low or above high.
  function Within(low: nat, d: int, high: nat): nat { if d < low then low else if d > high then high else d }

  // A difference that does not fit 32 bits with a sign.
  function Wrapped(d: int): int {
    if d >= 0x8000_0000 then d - 0x1_0000_0000 else if d < -0x8000_0000 then d + 0x1_0000_0000 else d
  }

  /** The 32-bit difference gives the true timespan for timestamps less than 2^31 seconds apart, and only then unless
      the difference is so far below zero that it wraps to less than a quarter of two weeks. */
  lemma TimespanExactly(previousTime: nat, transitionTime: nat)
    requires previousTime < U32 && transitionTime < U32
    ensures
      var d := previousTime - transitionTime;
      && (Timespan(previousTime, transitionTime) == Within(302400, d, 4838400) <==>
          -0x8000_0000 <= d < 0x8000_0000 || d + 0x1_0000_0000 <= 302400)
      && Timespan(previousTime, transitionTime) == Within(302400, Wrapped(d), 4838400)
  {
    var d := previousTime - transitionTime;
    var turns := if d >= 0x8000_0000 then 1 else if d < -0x8000_0000 then -1 else 0;
    DivModUnique(d + 0x8000_0000, U32, turns, d + 0x8000_0000 - turns * U32);
    assert ToInt32(d) == Wrapped(d);
  }

  /** At a transition after a canonical target, the accepted target is the canonical form of the target scaled by the
      seconds since the last transition, which count as a quarter of two weeks at least and as eight weeks at most; a
      difference of 2^31 and more wraps. */
  lemma AcceptedTransition(previous: Header, transitionTime: nat, target: nat)
    requires 0x8000 <= previous.target % SIZE_UNIT <= 0x7f_ffff && 4 <= previous.target / SIZE_UNIT <= MAX_SIZE
    requires previous.timestamp < U32 && transitionTime < U32
    ensures
      var t := Within(302400, Wrapped(previous.timestamp - transitionTime), 4838400);
      var n := Scaled(previous.target % SIZE_UNIT, previous.target / SIZE_UNIT, t);
      Demanded(previous, transitionTime, target) <==>
        IsCompact(if n < MAX_TARGET then n else MAX_TARGET, target % SIZE_UNIT, target / SIZE_UNIT)
  {
    hide Retarget, IsCompact, Timespan, Scaled;
    TimespanExactly(previous.timestamp, transitionTime);
    var t := Timespan(previous.timestamp, transitionTime);
    var size := previous.target / SIZE_UNIT;
    var n := Scaled(previous.target % SIZE_UNIT, size, t);
    var low := if n < MAX_TARGET then n else MAX_TARGET;
    var (m, s) := Retarget(previous.target % SIZE_UNIT, size, t);
    RetargetLosesNothing(previous.target % SIZE_UNIT, size, t);
    CompactRange(low, m, s);
    if target == m + s * SIZE_UNIT {
      DivModUnique(target, SIZE_UNIT, s, m);
    }
    if IsCompact(low, target % SIZE_UNIT, target / SIZE_UNIT) {
      CompactUnique(low, m, s, target % SIZE_UNIT, target / SIZE_UNIT);
    }
  }

  lemma CompactRange(n: nat, m: nat, s: nat)
    requires IsCompact(n, m, s)
    ensures m < SIZE_UNIT
  {
  }

  // ---------- proof of work ----------

  // "check if proof-of-work target is out of range"
  predicate InRange(mantissa: nat, size: nat) {
    && mantissa != 0 && mantissa < 0x80_0000 && size <= MAX_SIZE && (size == MAX_SIZE ==> mantissa <= MAX_MANTISSA)
  }

  /** A canonical target is in range exactly if its number does not exceed the maximum; any other that is in range
      stands for a number that does not. */
  lemma InRangeExactly(mantissa: nat, size: nat)
    ensures 0x8000 <= mantissa <= 0x7f_ffff && size >= 3 ==>
              (InRange(mantissa, size) <==> Expand(mantissa, size) <= MAX_TARGET)
    ensures InRange(mantissa, size) ==> 0 < mantissa < 0x80_0000 && size <= 29 && Expand(mantissa, size) <= MAX_TARGET
  {
    hide Pow256, CutBytes;
    if size < 3 { SmallSize(mantissa, size); }
    if 3 <= size < MAX_SIZE { InnerSize(mantissa, size); }
    if size == MAX_SIZE { LastSize(mantissa); }
    if size > MAX_SIZE && mantissa >= 0x8000 { OuterSize(mantissa, size); }
  }

  lemma SmallSize(mantissa: nat, size: nat)
    requires size < 3
    ensures Expand(mantissa, size) <= mantissa && 0x7f_ffff <= MAX_TARGET
  {
    hide Pow256;
    PowGrows(1, MAX_SIZE - 3);
    OnePower();
    MulMonotone(256, Pow256(MAX_SIZE - 3), 0xffff);
  }

  lemma OnePower()
    ensures Pow256(1) == 256
  {
  }

  lemma InnerSize(mantissa: nat, size: nat)
    requires 3 <= size < MAX_SIZE
    ensures mantissa <= 0x7f_ffff ==> Expand(mantissa, size) <= MAX_TARGET
  {
    hide Pow256;
    var q := Pow256(size - 3);
    PowGrows(size - 3, MAX_SIZE - 3);
    if mantissa <= 0x7f_ffff { MulMonotone(mantissa, 0x80_0000, q); }
  }

  lemma LastSize(mantissa: nat)
    ensures Expand(mantissa, MAX_SIZE) <= MAX_TARGET <==> mantissa <= MAX_MANTISSA
  {
    hide Pow256;
    var p := Pow256(MAX_SIZE - 3);
    if mantissa <= MAX_MANTISSA { MulMonotone(mantissa, MAX_MANTISSA, p); } else { MulMonotone(0x1_0000, mantissa, p); }
  }

  lemma OuterSize(mantissa: nat, size: nat)
    requires size > MAX_SIZE && mantissa >= 0x8000
    ensures Expand(mantissa, size) > MAX_TARGET
  {
    hide Pow256;
    PowGrows(MAX_SIZE - 3, size - 3);
    MulMonotone(0x8000, mantissa, Pow256(size - 3));
  }

  function FourBytes(n: nat): (s: seq<Byte>)
    ensures |s| == 4
  {
    [n % 0x100, n / 0x100 % 0x100, n / 0x1_0000 % 0x100, n / 0x100_0000 % 0x100]
  }

  // The 256-bit target as the code lays it out.
  function TargetBytes(mantissa: nat, size: nat): (t: seq<Byte>)
    requires size <= MAX_SIZE
    ensures |t| == 32
  {
    if size > 3 then Layout(size - 3, mantissa, 31 - size) else Layout(0, CutBytes(mantissa, 3 - size), 28)
  }

  function Layout(low: nat, n: nat, high: nat): (t: seq<Byte>)
    ensures |t| == low + 4 + high
  {
    Zeros(low) + FourBytes(n) + Zeros(high)
  }

  lemma FourBytesValue(n: nat)
    requires n < SIZE_UNIT
    ensures Little(FourBytes(n)) == n
  {
    hide Little, FourBytes;
    DivDiv(n, 0x100, 0x100);
    DivDiv(n, 0x1_0000, 0x100);
    OfFourBytes(n % 0x100, n / 0x100 % 0x100, n / 0x1_0000 % 0x100, n / 0x100_0000 % 0x100);
    FourBytesAre(n);
  }

  lemma FourBytesAre(n: nat)
    ensures FourBytes(n) == [n % 0x100, n / 0x100 % 0x100, n / 0x1_0000 % 0x100, n / 0x100_0000 % 0x100]
  {
  }

  lemma OfFourBytes(a: Byte, b: Byte, c: Byte, d: Byte)
    ensures Little([a, b, c, d]) == a + 0x100 * b + 0x1_0000 * c + 0x100_0000 * d
  {
    hide Little;
    LittleByte([a, b, c, d], 0);
    LittleByte([a, b, c, d], 1);
    LittleByte([a, b, c, d], 2);
    LittleByte([a, b, c, d], 3);
    LittleNothing();
    assert [a, b, c, d][0..] == [a, b, c, d] && [a, b, c, d][4..] == [];
  }

  lemma TargetValue(mantissa: nat, size: nat)
    requires mantissa < SIZE_UNIT && size <= MAX_SIZE
    ensures Little(TargetBytes(mantissa, size)) == Expand(mantissa, size)
  {
    hide Layout, Little, CutBytes;
    PowZero();
    CutNothing(mantissa);
    if size > 3 {
      LayoutValue(size - 3, mantissa, 31 - size);
    } else {
      LayoutValue(0, CutBytes(mantissa, 3 - size), 28);
    }
  }

  lemma CutNothing(n: nat)
    ensures CutBytes(n, 0) == n
  {
  }

  lemma PowZero()
    ensures Pow256(0) == 1
  {
  }

  lemma LayoutValue(low: nat, n: nat, high: nat)
    requires n < SIZE_UNIT
    ensures Little(Layout(low, n, high)) == n * Pow256(low)
  {
    hide FourBytes, Little, Pow256;
    var f, z := FourBytes(n), Zeros(high);
    assert Zeros(low) + f + z == Zeros(low) + (f + z);
    LittleConcat(Zeros(low), f + z);
    LittleConcat(f, z);
    LittleZeros(low);
    LittleZeros(high);
    FourBytesValue(n);
  }

  /** The proof-of-work comparison of BRMerkleBlockIsValid: byte by byte from the top, it accepts a block hash exactly
      if the target is in range and the hash, as a number, does not exceed it. */
  method MeetsTarget(hash: seq<Byte>, bits: nat) returns (r: bool)
    requires |hash| == 32 && bits < U32
    ensures r <==> && InRange(bits % SIZE_UNIT, bits / SIZE_UNIT)
                   && Little(hash) <= Expand(bits % SIZE_UNIT, bits / SIZE_UNIT)
  {
    hide Little, Expand;
    var size, target := bits / SIZE_UNIT, bits % SIZE_UNIT;
    r := !(target == 0 || target >= 0x80_0000 || size > MAX_SIZE || (size == MAX_SIZE && target > MAX_MANTISSA));
    if r {
      var t := TargetBytes(target, size);
      TargetValue(target, size);
      assert hash[32..] == t[32..];
      var i := 31;
      while r && i >= 0
        invariant -1 <= i <= 31
        invariant r ==> hash[i + 1..] == t[i + 1..]
        invariant !r ==> Little(hash) > Little(t)
      {
        if hash[i] < t[i] {
          LittleCompare(hash, t, i);
          break;
        }
        if hash[i] > t[i] {
          LittleCompare(t, hash, i);
          r := false;
        }
        assert hash[i..] == [hash[i]] + hash[i + 1..] && t[i..] == [t[i]] + t[i + 1..];
        i := i - 1;
      }
      assert i == -1 && r ==> hash == t by { assert hash[0..] == hash && t[0..] == t; }
    }
  }
}
