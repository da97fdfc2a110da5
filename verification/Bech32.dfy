/** Segwit addresses of BRBech32.c: the checksum and the regrouping of bytes into five-bit values and back. */
module Bech32 {
  import opened Prelude

  // ---------- the checksum ----------

  function Xor(a: bv32, b: bv32): bv32 { a ^ b }

  function Low(x: bv32): bv32 { (x & 0x1ffffff) << 5 }

  function Top(x: bv32): bv32 { (x >> 25) & 0x1f }

  // What the five bits that fall out at the top add back.
  function Gen(t: bv32): bv32 {
    ((t & 1) * 0x3b6a57b2) ^ (((t >> 1) & 1) * 0x26508e6d) ^ (((t >> 2) & 1) * 0x1ea119fa) ^
    (((t >> 3) & 1) * 0x3d4233dd) ^ (((t >> 4) & 1) * 0x2a1462b3)
  }

  // The macro polymod: multiply by x, modulo the generator of BIP 173.
  function Polymod(x: bv32): bv32 { Xor(Low(x), Gen(Top(x))) }

  // One value enters the checksum.
  function Feed(s: bv32, v: bv32): bv32 { Xor(Polymod(s), v) }

  function Run(s: bv32, vs: seq<bv32>): bv32 {
    if vs == [] then s else Feed(Run(s, vs[..|vs| - 1]), vs[|vs| - 1])
  }

  lemma LowAdds(a: bv32, b: bv32)
    ensures Low(Xor(a, b)) == Xor(Low(a), Low(b))
  {
  }

  lemma TopAdds(a: bv32, b: bv32)
    ensures Top(Xor(a, b)) == Xor(Top(a), Top(b)) && Top(a) < 32
  {
  }

  lemma GenAdds(a: bv32, b: bv32)
    requires a < 32 && b < 32
    ensures Gen(Xor(a, b)) == Xor(Gen(a), Gen(b))
  {
  }

  lemma Reorder(a: bv32, b: bv32, c: bv32, d: bv32)
    ensures Xor(a ^ b, c ^ d) == Xor(a ^ c, b ^ d)
  {
  }

  lemma Interchange(a: bv32, b: bv32, c: bv32, d: bv32)
    ensures Xor(Xor(a, b), Xor(c, d)) == Xor(Xor(a, c), Xor(b, d))
  {
    Reorder(a, b, c, d);
  }

  /** The checksum step is linear over bits. */
  lemma PolymodAdds(a: bv32, b: bv32)
    ensures Polymod(Xor(a, b)) == Xor(Polymod(a), Polymod(b))
  {
    hide Xor, Low, Top, Gen;
    LowAdds(a, b);
    TopAdds(a, b);
    TopAdds(b, a);
    GenAdds(Top(a), Top(b));
    Interchange(Low(a), Low(b), Gen(Top(a)), Gen(Top(b)));
  }

  lemma PolymodShifts(g: bv32)
    requires g < 0x200_0000
    ensures Polymod(g) == g << 5
  {
  }

  lemma PolymodInjective(x: bv32)
    requires x < 0x4000_0000 && Polymod(x) == 0
    ensures x == 0
  {
  }

  lemma PolymodSmall(x: bv32)
    ensures Polymod(x) < 0x4000_0000
  {
  }

  lemma Associate(a: bv32, b: bv32, c: bv32)
    ensures Xor(Xor(a, b), c) == Xor(a, Xor(b, c)) && Xor(Xor(a, b), b) == a && Xor(a, a) == 0 && Xor(a, 0) == a
    ensures Xor(a, b) == Xor(b, a) && (Xor(a, b) == 0 ==> a == b)
  {
  }

  // ---------- six closing values ----------

  function Times6(s: bv32): bv32 { Polymod(Polymod(Polymod(Polymod(Polymod(Polymod(s)))))) }

  // Five-bit value j of a thirty-bit word, from the top.
  function Slice(t: bv32, j: nat): bv32
    requires j < 6
  {
    match j
    case 0 => (t >> 25) & 0x1f
    case 1 => (t >> 20) & 0x1f
    case 2 => (t >> 15) & 0x1f
    case 3 => (t >> 10) & 0x1f
    case 4 => (t >> 5) & 0x1f
    case _ => t & 0x1f
  }

  // ---------- the generator of BIP 173 ----------

  // Multiplication by a in GF(32), where a^5 = a^3 + 1.
  function Xt(v: bv32): bv32 { ((v << 1) & 0x1f) ^ (((v >> 4) & 1) * 0x09) }

  // The product of two elements of GF(32), a bit of w at a time.
  function Times(v: bv32, w: bv32): bv32 {
    var v1 := Xt(v);
    var v2 := Xt(v1);
    var v3 := Xt(v2);
    var v4 := Xt(v3);
    ((w & 1) * v) ^ (((w >> 1) & 1) * v1) ^ (((w >> 2) & 1) * v2) ^ (((w >> 3) & 1) * v3) ^ (((w >> 4) & 1) * v4)
  }

  // The generator x^6 + 29 x^5 + 22 x^4 + 20 x^3 + 21 x^2 + 29 x + 18 without its first term.
  const GENERATOR: seq<bv32> := [29, 22, 20, 21, 29, 18]

  /** One step multiplies the polynomial whose six coefficients in GF(32) are the five-bit values of the state, the
      first one at the top, by x modulo the generator. */
  lemma PolymodIsGenerator(s: bv32, i: nat)
    requires i < 6
    ensures Slice(Polymod(s), i) == Xor(if i < 5 then Slice(s, i + 1) else 0, Times(Slice(s, 0), GENERATOR[i]))
  {
    match i
    case 0 => Coefficient0(s);
    case 1 => Coefficient1(s);
    case 2 => Coefficient2(s);
    case 3 => Coefficient3(s);
    case 4 => Coefficient4(s);
    case _ => Coefficient5(s);
  }

  lemma Coefficient0(s: bv32)
    ensures (Polymod(s) >> 25) & 0x1f == Xor((s >> 20) & 0x1f, Times((s >> 25) & 0x1f, 29))
  {
  }

  lemma Coefficient1(s: bv32)
    ensures (Polymod(s) >> 20) & 0x1f == Xor((s >> 15) & 0x1f, Times((s >> 25) & 0x1f, 22))
  {
  }

  lemma Coefficient2(s: bv32)
    ensures (Polymod(s) >> 15) & 0x1f == Xor((s >> 10) & 0x1f, Times((s >> 25) & 0x1f, 20))
  {
  }

  lemma Coefficient3(s: bv32)
    ensures (Polymod(s) >> 10) & 0x1f == Xor((s >> 5) & 0x1f, Times((s >> 25) & 0x1f, 21))
  {
  }

  lemma Coefficient4(s: bv32)
    ensures (Polymod(s) >> 5) & 0x1f == Xor(s & 0x1f, Times((s >> 25) & 0x1f, 29))
  {
  }

  lemma Coefficient5(s: bv32)
    ensures Polymod(s) & 0x1f == Xor(0, Times((s >> 25) & 0x1f, 18))
  {
  }

  // The first j + 1 of the six values as one word.
  function Prefix(t: bv32, j: nat): bv32
    requires j < 6
  {
    match j
    case 0 => (t >> 25) & 0x1f
    case 1 => (t >> 20) & 0x3ff
    case 2 => (t >> 15) & 0x7fff
    case 3 => (t >> 10) & 0xf_ffff
    case 4 => (t >> 5) & 0x1ff_ffff
    case _ => t & 0x3fff_ffff
  }

  function Up(g: bv32): bv32 { g << 5 }

  lemma Prefix0(t: bv32)
    ensures Prefix(t, 0) == Slice(t, 0)
  {
  }

  lemma Prefix1(t: bv32)
    ensures Prefix(t, 1) == Xor(Up(Prefix(t, 0)), Slice(t, 1))
  {
  }

  lemma Prefix2(t: bv32)
    ensures Prefix(t, 2) == Xor(Up(Prefix(t, 1)), Slice(t, 2))
  {
  }

  lemma Prefix3(t: bv32)
    ensures Prefix(t, 3) == Xor(Up(Prefix(t, 2)), Slice(t, 3))
  {
  }

  lemma Prefix4(t: bv32)
    ensures Prefix(t, 4) == Xor(Up(Prefix(t, 3)), Slice(t, 4))
  {
  }

  lemma Prefix5(t: bv32)
    ensures Prefix(t, 5) == Xor(Up(Prefix(t, 4)), Slice(t, 5))
  {
  }

  lemma PrefixBelow(t: bv32, j: nat)
    requires j < 5
    ensures Prefix(t, j) < 0x200_0000
  {
  }

  // Feeding a value into Xor(state, word): the word moves up by five bits and takes it in.
  lemma FeedPrefix(p: bv32, t: bv32, j: nat)
    requires 0 < j < 6 && Prefix(t, j) == Xor(Up(Prefix(t, j - 1)), Slice(t, j))
    ensures Feed(Xor(p, Prefix(t, j - 1)), Slice(t, j)) == Xor(Polymod(p), Prefix(t, j))
  {
    var g, v := Prefix(t, j - 1), Slice(t, j);
    PrefixBelow(t, j - 1);
    PolymodShifts(g);
    hide Xor, Polymod, Slice, Prefix, Up;
    PolymodAdds(p, g);
    Associate(Polymod(p), Up(g), v);
  }

  /** The six values cut from any word t end up added to what six empty steps make of the state. */
  lemma FeedSlices(s: bv32, t: bv32)
    ensures
      var f := Feed(Feed(Feed(Feed(s, Slice(t, 0)), Slice(t, 1)), Slice(t, 2)), Slice(t, 3));
      Feed(Feed(f, Slice(t, 4)), Slice(t, 5)) == Xor(Times6(s), Prefix(t, 5))
  {
    hide Xor, Polymod, Slice, Prefix, Up;
    var p1 := Polymod(s);
    var p2 := Polymod(p1);
    var p3 := Polymod(p2);
    var p4 := Polymod(p3);
    var p5 := Polymod(p4);
    Prefix0(t);
    Prefix1(t);
    FeedPrefix(p1, t, 1);
    Prefix2(t);
    FeedPrefix(p2, t, 2);
    Prefix3(t);
    FeedPrefix(p3, t, 3);
    Prefix4(t);
    FeedPrefix(p4, t, 4);
    Prefix5(t);
    FeedPrefix(p5, t, 5);
  }

  /** So the checksum that the encoder appends drives the state to 1. */
  lemma ChecksumClosesTo1(s: bv32)
    ensures
      var t := Xor(Times6(s), 1);
      Feed(Feed(Feed(Feed(Feed(Feed(s, Slice(t, 0)), Slice(t, 1)), Slice(t, 2)), Slice(t, 3)), Slice(t, 4)),
           Slice(t, 5)) == 1
  {
    hide Polymod, Slice;
    var u := Times6(s);
    PolymodSmall(Polymod(Polymod(Polymod(Polymod(Polymod(s))))));
    WholeWord(u);
    hide Xor, Prefix;
    FeedSlices(s, Xor(u, 1));
    Cancel(u);
  }

  lemma WholeWord(u: bv32)
    requires u < 0x4000_0000
    ensures Prefix(Xor(u, 1), 5) == Xor(u, 1)
  {
  }

  lemma Cancel(u: bv32)
    ensures Xor(u, Xor(u, 1)) == 1
  {
  }

  // ---------- runs ----------

  lemma RunSnoc(s: bv32, vs: seq<bv32>, v: bv32)
    ensures Run(s, vs + [v]) == Feed(Run(s, vs), v) && Run(s, []) == s
  {
  }

  lemma {:induction false} RunConcat(s: bv32, a: seq<bv32>, b: seq<bv32>)
    ensures Run(s, a + b) == Run(Run(s, a), b)
  {
    hide Feed;
    if b == [] {
      assert a + b == a;
    } else {
      var m := |b| - 1;
      RunConcat(s, a, b[..m]);
      RunSnoc(s, a + b[..m], b[m]);
      RunSnoc(Run(s, a), b[..m], b[m]);
      assert a + b == (a + b[..m]) + [b[m]] && b == b[..m] + [b[m]];
    }
  }

  /** Two runs over the same values from states that differ end in states that differ. */
  lemma {:induction false} RunInjective(s: bv32, t: bv32, vs: seq<bv32>)
    requires s < 0x4000_0000 && t < 0x4000_0000 && forall i :: 0 <= i < |vs| ==> vs[i] < 32
    ensures Run(s, vs) == Run(t, vs) ==> s == t
    ensures Run(s, vs) < 0x4000_0000 && Run(t, vs) < 0x4000_0000
  {
    if vs != [] {
      var m := |vs| - 1;
      RunInjective(s, t, vs[..m]);
      hide Run;
      RunSnoc(s, vs[..m], vs[m]);
      RunSnoc(t, vs[..m], vs[m]);
      assert vs == vs[..m] + [vs[m]];
      FeedInjective(Run(s, vs[..m]), Run(t, vs[..m]), vs[m]);
    }
  }

  lemma FeedInjective(s: bv32, t: bv32, v: bv32)
    requires s < 0x4000_0000 && t < 0x4000_0000 && v < 32
    ensures Feed(s, v) == Feed(t, v) ==> s == t
    ensures Feed(s, v) < 0x4000_0000 && Feed(t, v) < 0x4000_0000
  {
    FeedBelow(s, v);
    FeedBelow(t, v);
    XorBelow(s, t);
    if Feed(s, v) == Feed(t, v) {
      hide Xor, Polymod;
      var p, q := Polymod(s), Polymod(t);
      Associate(p, v, v);
      Associate(q, v, v);
      assert p == q;
      Associate(p, q, q);
      PolymodAdds(s, t);
      PolymodInjective(Xor(s, t));
      Associate(s, t, t);
    }
  }

  lemma XorBelow(s: bv32, t: bv32)
    requires s < 0x4000_0000 && t < 0x4000_0000
    ensures Xor(s, t) < 0x4000_0000
  {
  }

  lemma FeedBelow(s: bv32, v: bv32)
    requires v < 32
    ensures Feed(s, v) < 0x4000_0000
  {
  }

  /** Changing any one value of an accepted string to another is always noticed. */
  lemma SingleErrorDetected(s: bv32, a: seq<bv32>, v: bv32, w: bv32, b: seq<bv32>)
    requires s < 0x4000_0000 && v < 32 && w < 32 && v != w
    requires forall i :: 0 <= i < |b| ==> b[i] < 32
    ensures Run(s, a + [v] + b) != Run(s, a + [w] + b)
  {
    hide Run;
    RunConcat(s, a + [v], b);
    RunConcat(s, a + [w], b);
    RunSnoc(s, a, v);
    RunSnoc(s, a, w);
    var r := Run(s, a);
    FeedBelow(r, v);
    FeedBelow(r, w);
    RunInjective(Feed(r, v), Feed(r, w), b);
    hide Xor, Polymod;
    Associate(Polymod(r), v, w);
    if Feed(r, v) == Feed(r, w) {
      Associate(v, Polymod(r), Polymod(r));
      Associate(w, Polymod(r), Polymod(r));
      Associate(Polymod(r), w, w);
    }
  }

  // ---------- regrouping bits ----------

  // The five bits from bit 5 * k on of a byte string that goes on with zeros.
  function Group(bs: seq<bv8>, k: nat): bv8 {
    var i := 5 * k / 8;
    var a, b := At(bs, i), At(bs, i + 1);
    match k % 8
    case 0 => a >> 3
    case 1 => ((a << 2) | (b >> 6)) & 0x1f
    case 2 => (a >> 1) & 0x1f
    case 3 => ((a << 4) | (b >> 4)) & 0x1f
    case 4 => ((a << 1) | (b >> 7)) & 0x1f
    case 5 => (a >> 2) & 0x1f
    case 6 => ((a << 3) | (b >> 5)) & 0x1f
    case _ => a & 0x1f
  }

  function Join0(c: bv8, d: bv8): bv8 { (c << 3) | (d >> 2) }

  function Join1(c: bv8, d: bv8, e: bv8): bv8 { (c << 6) | (d << 1) | (e >> 4) }

  function Join2(c: bv8, d: bv8): bv8 { (c << 4) | (d >> 1) }

  function Join3(c: bv8, d: bv8, e: bv8): bv8 { (c << 7) | (d << 2) | (e >> 3) }

  function Join4(c: bv8, d: bv8): bv8 { (c << 5) | d }

  function Or(a: bv8, b: bv8): bv8 { a | b }

  // The byte from bit 8 * m on of a string of five-bit values that goes on with zeros.
  function ByteAt(cs: seq<bv8>, m: nat): bv8 {
    var k := 8 * m / 5;
    var c, d, e := At(cs, k), At(cs, k + 1), At(cs, k + 2);
    match m % 5
    case 0 => Join0(c, d)
    case 1 => Join1(c, d, e)
    case 2 => Join2(c, d)
    case 3 => Join3(c, d, e)
    case _ => Join4(c, d)
  }

  function GroupCount(n: nat): nat { (8 * n + 4) / 5 }

  function Groups(bs: seq<bv8>): seq<bv8> { seq(GroupCount(|bs|), k requires 0 <= k => Group(bs, k)) }

  // The eight groups of a block of five bytes.
  lemma BlockGroups(bs: seq<bv8>, q: nat)
    ensures
      var b0, b1, b2, b3, b4 := At(bs, 5 * q), At(bs, 5 * q + 1), At(bs, 5 * q + 2), At(bs, 5 * q + 3),
                                At(bs, 5 * q + 4);
      && Group(bs, 8 * q) == b0 >> 3 && Group(bs, 8 * q + 1) == ((b0 << 2) | (b1 >> 6)) & 0x1f
      && Group(bs, 8 * q + 2) == (b1 >> 1) & 0x1f && Group(bs, 8 * q + 3) == ((b1 << 4) | (b2 >> 4)) & 0x1f
      && Group(bs, 8 * q + 4) == ((b2 << 1) | (b3 >> 7)) & 0x1f && Group(bs, 8 * q + 5) == (b3 >> 2) & 0x1f
      && Group(bs, 8 * q + 6) == ((b3 << 3) | (b4 >> 5)) & 0x1f && Group(bs, 8 * q + 7) == b4 & 0x1f
  {
    hide At;
    Residues(q);
  }

  lemma Residues(q: nat)
    ensures (8 * q) % 8 == 0 && (8 * q + 1) % 8 == 1 && (8 * q + 2) % 8 == 2 && (8 * q + 3) % 8 == 3
    ensures (8 * q + 4) % 8 == 4 && (8 * q + 5) % 8 == 5 && (8 * q + 6) % 8 == 6 && (8 * q + 7) % 8 == 7
    ensures 5 * (8 * q) / 8 == 5 * q && 5 * (8 * q + 1) / 8 == 5 * q && 5 * (8 * q + 2) / 8 == 5 * q + 1
    ensures 5 * (8 * q + 3) / 8 == 5 * q + 1 && 5 * (8 * q + 4) / 8 == 5 * q + 2 && 5 * (8 * q + 5) / 8 == 5 * q + 3
    ensures 5 * (8 * q + 6) / 8 == 5 * q + 3 && 5 * (8 * q + 7) / 8 == 5 * q + 4
  {
  }

  lemma ByteResidues(q: nat)
    ensures (5 * q) % 5 == 0 && (5 * q + 1) % 5 == 1 && (5 * q + 2) % 5 == 2
    ensures (5 * q + 3) % 5 == 3 && (5 * q + 4) % 5 == 4
    ensures 8 * (5 * q) / 5 == 8 * q && 8 * (5 * q + 1) / 5 == 8 * q + 1 && 8 * (5 * q + 2) / 5 == 8 * q + 3
    ensures 8 * (5 * q + 3) / 5 == 8 * q + 4 && 8 * (5 * q + 4) / 5 == 8 * q + 6
  {
  }

  // The five bytes of a block of eight values.
  lemma BlockBytes(cs: seq<bv8>, q: nat)
    ensures
      var c0, c1, c2, c3 := At(cs, 8 * q), At(cs, 8 * q + 1), At(cs, 8 * q + 2), At(cs, 8 * q + 3);
      var c4, c5, c6, c7 := At(cs, 8 * q + 4), At(cs, 8 * q + 5), At(cs, 8 * q + 6), At(cs, 8 * q + 7);
      && ByteAt(cs, 5 * q) == Join0(c0, c1) && ByteAt(cs, 5 * q + 1) == Join1(c1, c2, c3)
      && ByteAt(cs, 5 * q + 2) == Join2(c3, c4) && ByteAt(cs, 5 * q + 3) == Join3(c4, c5, c6)
      && ByteAt(cs, 5 * q + 4) == Join4(c6, c7)
  {
    hide At, Join0, Join1, Join2, Join3, Join4;
    ByteResidues(q);
  }

  lemma Meet0(a: bv8, b: bv8)
    ensures Join0(a >> 3, ((a << 2) | (b >> 6)) & 0x1f) == a
  {
  }

  lemma Meet1(a: bv8, b: bv8, c: bv8)
    ensures Join1(((a << 2) | (b >> 6)) & 0x1f, (b >> 1) & 0x1f, ((b << 4) | (c >> 4)) & 0x1f) == b
  {
  }

  lemma Meet2(b: bv8, c: bv8, d: bv8)
    ensures Join2(((b << 4) | (c >> 4)) & 0x1f, ((c << 1) | (d >> 7)) & 0x1f) == c
  {
  }

  lemma Meet3(c: bv8, d: bv8, e: bv8)
    ensures Join3(((c << 1) | (d >> 7)) & 0x1f, (d >> 2) & 0x1f, ((d << 3) | (e >> 5)) & 0x1f) == d
  {
  }

  lemma Meet4(d: bv8, e: bv8)
    ensures Join4(((d << 3) | (e >> 5)) & 0x1f, e & 0x1f) == e
  {
  }

  lemma BlockMeets(bs: seq<bv8>, q: nat, t: nat)
    requires t < 5 && 5 * q + t < |bs|
    ensures ByteAt(Groups(bs), 5 * q + t) == bs[5 * q + t]
  {
    hide Group, ByteAt, Groups, At, Join0, Join1, Join2, Join3, Join4;
    var b0, b1, b2, b3, b4 := At(bs, 5 * q), At(bs, 5 * q + 1), At(bs, 5 * q + 2), At(bs, 5 * q + 3), At(bs, 5 * q + 4);
    BlockGroups(bs, q);
    BlockBytes(Groups(bs), q);
    InRange(bs, 5 * q + t);
    GroupsReach(bs, q, t);
    match t
    case 0 => Meet0(b0, b1);
    case 1 => Meet1(b0, b1, b2);
    case 2 => Meet2(b1, b2, b3);
    case 3 => Meet3(b2, b3, b4);
    case _ => Meet4(b3, b4);
  }

  lemma InRange(bs: seq<bv8>, i: nat)
    requires i < |bs|
    ensures At(bs, i) == bs[i]
  {
  }

  // All groups that byte 5 * q + t needs are there.
  lemma GroupsReach(bs: seq<bv8>, q: nat, t: nat)
    requires t < 5 && 5 * q + t < |bs|
    ensures forall k :: 8 * q <= k && 5 * k < 8 * (5 * q + t + 1) ==> At(Groups(bs), k) == Group(bs, k)
  {
  }

  /** Cutting bytes into five-bit groups and joining them again gives the bytes. */
  lemma BytesOfGroups(bs: seq<bv8>, m: nat)
    requires m < |bs|
    ensures ByteAt(Groups(bs), m) == bs[m]
  {
    BlockMeets(bs, m / 5, m % 5);
  }

  // What value r of a block adds to byte t of the block.
  function Contribution(r: nat, t: nat, c: bv8): bv8 {
    if r == 0 && t == 0 then c << 3
    else if r == 1 && t == 0 then c >> 2
    else if r == 1 && t == 1 then c << 6
    else if r == 2 && t == 1 then c << 1
    else if r == 3 && t == 1 then c >> 4
    else if r == 3 && t == 2 then c << 4
    else if r == 4 && t == 2 then c >> 1
    else if r == 4 && t == 3 then c << 7
    else if r == 5 && t == 3 then c << 2
    else if r == 6 && t == 3 then c >> 3
    else if r == 6 && t == 4 then c << 5
    else if r == 7 && t == 4 then c
    else 0
  }

  // Value i of a block before and after value r arrives.
  predicate Arrives(r: nat, i: nat, before: bv8, after: bv8, c: bv8) {
    after == (if i == r then c else before) && (r <= i ==> before == 0)
  }

  lemma More0(r: nat, c: bv8, x0: bv8, x1: bv8, y0: bv8, y1: bv8)
    requires Arrives(r, 0, x0, y0, c) && Arrives(r, 1, x1, y1, c)
    ensures Join0(y0, y1) == Or(Join0(x0, x1), Contribution(r, 0, c))
  {
  }

  lemma More1(r: nat, c: bv8, x1: bv8, x2: bv8, x3: bv8, y1: bv8, y2: bv8, y3: bv8)
    requires Arrives(r, 1, x1, y1, c) && Arrives(r, 2, x2, y2, c) && Arrives(r, 3, x3, y3, c)
    ensures Join1(y1, y2, y3) == Or(Join1(x1, x2, x3), Contribution(r, 1, c))
  {
  }

  lemma More2(r: nat, c: bv8, x3: bv8, x4: bv8, y3: bv8, y4: bv8)
    requires Arrives(r, 3, x3, y3, c) && Arrives(r, 4, x4, y4, c)
    ensures Join2(y3, y4) == Or(Join2(x3, x4), Contribution(r, 2, c))
  {
  }

  lemma More3(r: nat, c: bv8, x4: bv8, x5: bv8, x6: bv8, y4: bv8, y5: bv8, y6: bv8)
    requires Arrives(r, 4, x4, y4, c) && Arrives(r, 5, x5, y5, c) && Arrives(r, 6, x6, y6, c)
    ensures Join3(y4, y5, y6) == Or(Join3(x4, x5, x6), Contribution(r, 3, c))
  {
  }

  lemma More4(r: nat, c: bv8, x6: bv8, x7: bv8, y6: bv8, y7: bv8)
    requires Arrives(r, 6, x6, y6, c) && Arrives(r, 7, x7, y7, c)
    ensures Join4(y6, y7) == Or(Join4(x6, x7), Contribution(r, 4, c))
  {
  }

  lemma Arrival(cs: seq<bv8>, c: bv8, q: nat, r: nat, i: nat)
    requires |cs| == 8 * q + r && r < 8 && i < 8
    ensures Arrives(r, i, At(cs, 8 * q + i), At(cs + [c], 8 * q + i), c)
  {
  }

  lemma SameBlock(cs: seq<bv8>, c: bv8, q: nat, t: nat, r: nat)
    requires |cs| == 8 * q + r && r < 8 && t < 5
    ensures ByteAt(cs + [c], 5 * q + t) == Or(ByteAt(cs, 5 * q + t), Contribution(r, t, c))
  {
    hide At, ByteAt, Contribution, Arrives, Or, Join0, Join1, Join2, Join3, Join4;
    var ds := cs + [c];
    BlockBytes(cs, q);
    BlockBytes(ds, q);
    Arrival(cs, c, q, r, 0);
    Arrival(cs, c, q, r, 1);
    Arrival(cs, c, q, r, 2);
    Arrival(cs, c, q, r, 3);
    Arrival(cs, c, q, r, 4);
    Arrival(cs, c, q, r, 5);
    Arrival(cs, c, q, r, 6);
    Arrival(cs, c, q, r, 7);
    var x0, x1, x2, x3 := At(cs, 8 * q), At(cs, 8 * q + 1), At(cs, 8 * q + 2), At(cs, 8 * q + 3);
    var x4, x5, x6, x7 := At(cs, 8 * q + 4), At(cs, 8 * q + 5), At(cs, 8 * q + 6), At(cs, 8 * q + 7);
    var y0, y1, y2, y3 := At(ds, 8 * q), At(ds, 8 * q + 1), At(ds, 8 * q + 2), At(ds, 8 * q + 3);
    var y4, y5, y6, y7 := At(ds, 8 * q + 4), At(ds, 8 * q + 5), At(ds, 8 * q + 6), At(ds, 8 * q + 7);
    More0(r, c, x0, x1, y0, y1);
    More1(r, c, x1, x2, x3, y1, y2, y3);
    More2(r, c, x3, x4, y3, y4);
    More3(r, c, x4, x5, x6, y4, y5, y6);
    More4(r, c, x6, x7, y6, y7);
  }

  lemma OtherBlock(cs: seq<bv8>, c: bv8, m: nat)
    requires m / 5 != |cs| / 8
    ensures ByteAt(cs + [c], m) == ByteAt(cs, m)
  {
  }

  /** What one more value changes in the bytes read so far: it is or-ed into the bytes of its block. */
  lemma OrStep(cs: seq<bv8>, c: bv8, m: nat)
    ensures ByteAt(cs + [c], m) ==
            if m / 5 == |cs| / 8 then Or(ByteAt(cs, m), Contribution(|cs| % 8, m % 5, c)) else ByteAt(cs, m)
  {
    hide ByteAt, Contribution, Or;
    if m / 5 == |cs| / 8 {
      SameBlock(cs, c, m / 5, m % 5, |cs| % 8);
    } else {
      OtherBlock(cs, c, m);
    }
  }

  // Where in its byte value j begins: the x of the decoder.
  method BitOffset(j: nat) returns (x: nat)
    ensures x == [0, 5, 2, 7, 4, 1, 6, 3][j % 8]
  {
    x := (j % 8) * 5 - ((j % 8) * 5 / 8) * 8;
  }

  // The two bytes of a block that a value is or-ed into.
  method SpreadFirst(j: nat, c: bv8, x: nat) returns (first: bv8)
    requires c < 32 && x == [0, 5, 2, 7, 4, 1, 6, 3][j % 8]
    ensures first == Contribution(j % 8, 5 * (j % 8) / 8, c)
  {
    first := (c << 3) >> x;
  }

  method SpreadSecond(j: nat, c: bv8, x: nat) returns (second: bv8)
    requires c < 32 && x == [0, 5, 2, 7, 4, 1, 6, 3][j % 8] && x > 3
    ensures second == Contribution(j % 8, 5 * (j % 8) / 8 + 1, c)
  {
    second := c << (11 - x);
  }

  lemma TouchesTwo(r: nat, t: nat, c: bv8)
    requires r < 8 && t < 5 && t != 5 * r / 8 && (t != 5 * r / 8 + 1 || [0, 5, 2, 7, 4, 1, 6, 3][r] <= 3)
    ensures Contribution(r, t, c) == 0
  {
  }

  // ---------- letters ----------

  // The table of the encoder.
  const CHARS0: string := "qpzry9x8"
  const CHARS1: string := "gf2tvdw0"
  const CHARS2: string := "s3jn54kh"
  const CHARS3: string := "ce6mua7l"
  const CHARS: string := CHARS0 + CHARS1 + CHARS2 + CHARS3

  function Lower(c: char): char { if 'A' <= c <= 'Z' then c - 'A' + 'a' else c }

  // The switch of the decoder, on a lower-case letter.
  function CharValue(c: char): Option<bv8> {
    match c
    case 'q' => Some(0)
    case 'p' => Some(1)
    case 'z' => Some(2)
    case 'r' => Some(3)
    case 'y' => Some(4)
    case '9' => Some(5)
    case 'x' => Some(6)
    case '8' => Some(7)
    case 'g' => Some(8)
    case 'f' => Some(9)
    case '2' => Some(10)
    case 't' => Some(11)
    case 'v' => Some(12)
    case 'd' => Some(13)
    case 'w' => Some(14)
    case '0' => Some(15)
    case 's' => Some(16)
    case '3' => Some(17)
    case 'j' => Some(18)
    case 'n' => Some(19)
    case '5' => Some(20)
    case '4' => Some(21)
    case 'k' => Some(22)
    case 'h' => Some(23)
    case 'c' => Some(24)
    case 'e' => Some(25)
    case '6' => Some(26)
    case 'm' => Some(27)
    case 'u' => Some(28)
    case 'a' => Some(29)
    case '7' => Some(30)
    case 'l' => Some(31)
    case _ => None
  }

  function CharOf(v: bv8): char
    requires v < 32
  {
    CHARS[v as int]
  }

  lemma Table0(i: nat)
    requires i < 8
    ensures CharValue(CHARS0[i]) == Some((i + 0) as bv8) && Plain(CHARS0[i])
  {
  }

  lemma Table1(i: nat)
    requires i < 8
    ensures CharValue(CHARS1[i]) == Some((i + 8) as bv8) && Plain(CHARS1[i])
  {
  }

  lemma Table2(i: nat)
    requires i < 8
    ensures CharValue(CHARS2[i]) == Some((i + 16) as bv8) && Plain(CHARS2[i])
  {
  }

  lemma Table3(i: nat)
    requires i < 8
    ensures CharValue(CHARS3[i]) == Some((i + 24) as bv8) && Plain(CHARS3[i])
  {
  }

  // A character of an address that is neither the separator nor upper case.
  predicate Plain(c: char) { 33 <= c as int <= 126 && c != '1' && Lower(c) == c }

  /** The encoder's table and the decoder's switch agree. */
  lemma TablesAgree(v: bv8)
    requires v < 32
    ensures CharValue(CharOf(v)) == Some(v) && Plain(CharOf(v))
  {
    hide CharValue, Plain;
    var i := v as int;
    if i < 8 { Table0(i); } else if i < 16 { Table1(i - 8); }
    else if i < 24 { Table2(i - 16); } else { Table3(i - 24); }
  }

  predicate Five(vs: seq<bv8>) { forall i :: 0 <= i < |vs| ==> vs[i] < 32 }

  function CharsOf(vs: seq<bv8>): string
    requires Five(vs)
  {
    seq(|vs|, i requires 0 <= i < |vs| => CharOf(vs[i]))
  }

  function Wide(vs: seq<bv8>): seq<bv32> { seq(|vs|, i requires 0 <= i < |vs| => Widen(vs[i])) }

  function Widen(v: bv8): bv32 { v as bv32 }

  // ---------- the human-readable prefix ----------

  function HighBits(c: char): bv32
    requires c as int < 128
  {
    AsBits(Lower(c) as int) >> 5
  }

  // c & 0x1f
  function LowBits(c: char): bv32
    requires c as int < 128
  {
    AsBits((c as int) % 32)
  }

  function AsBits(n: nat): bv32
    requires n < 128
  {
    n as bv32
  }

  predicate Printable(s: string) { forall i :: 0 <= i < |s| ==> 33 <= s[i] as int <= 126 }

  predicate IsUpper(c: char) { 'A' <= c <= 'Z' }

  predicate IsLower(c: char) { 'a' <= c <= 'z' }

  // The values a prefix feeds to the checksum.
  function PrefixValues(hrp: string): seq<bv32>
    requires Printable(hrp)
  {
    seq(|hrp|, i requires 0 <= i < |hrp| => HighBits(hrp[i])) + [0] +
    seq(|hrp|, i requires 0 <= i < |hrp| => LowBits(hrp[i]))
  }

  // ---------- what is computed ----------

  const OP_1: bv8 := 0x51

  function Checksum(s: bv32): (vs: seq<bv8>)
    ensures |vs| == 6 && Five(vs)
  {
    var t := Xor(Times6(s), 1);
    seq(6, j requires 0 <= j < 6 => Slice5(t, j))
  }

  function Slice5(t: bv32, j: nat): (v: bv8)
    requires j < 6
    ensures v < 32 && Widen(v) == Slice(t, j)
  {
    Slice(t, j) as bv8
  }

  predicate GoodPrefix(hrp: string) {
    |hrp| <= 84 && Printable(hrp) && forall i :: 0 <= i < |hrp| ==> !IsUpper(hrp[i])
  }

  function VersionOf(op: bv8): bv8 { if op >= OP_1 then op - 0x50 else 0 }

  // The values after the separator, without the checksum.
  function Payload(data: seq<bv8>): seq<bv8>
    requires |data| >= 2 && |data| >= 2 + data[1] as int
  {
    [VersionOf(data[0])] + Groups(data[2..2 + data[1] as int])
  }

  lemma GroupsFive(bs: seq<bv8>)
    ensures Five(Groups(bs))
  {
  }

  // What the encoder makes of its input: an address, nothing, or characters beyond the end of its buffer.
  datatype Encoding = Refused | Overrun | Address(text: string)

  const BUFFER: nat := 91     // characters of an address with its terminator

  predicate IsProgram(data: seq<bv8>) { |data| >= 2 && |data| >= 2 + data[1] as int }

  // The tests of the encoder.  The last one counts the program bytes, not the groups they make.
  predicate Passes(hrp: string, data: seq<bv8>)
    requires IsProgram(data)
  {
    && GoodPrefix(hrp) && !(0 < data[0] < OP_1) && VersionOf(data[0]) <= 16
    && 2 <= data[1] as int <= 40 && |hrp| + 1 + 1 + data[1] as int + 6 < BUFFER
  }

  // The characters that the encoder goes on to write, without the terminator.
  function Text(hrp: string, data: seq<bv8>): string
    requires IsProgram(data) && Passes(hrp, data)
  {
    var vs := Payload(data);
    GroupsFive(data[2..2 + data[1] as int]);
    hrp + "1" + CharsOf(vs + Checksum(Run(1, PrefixValues(hrp) + Wide(vs))))
  }

  function Encoded(hrp: string, data: seq<bv8>): Encoding
    requires IsProgram(data)
  {
    if !Passes(hrp, data) then Refused
    else if |hrp| + 8 + GroupCount(data[1] as int) > 90 then Overrun
    else Address(Text(hrp, data))
  }

  // The position of the last separator, or 0.
  function LastOne(s: string): nat {
    if s == "" then 0 else if s[|s| - 1] == '1' then |s| - 1 else LastOne(s[..|s| - 1])
  }

  predicate AllValues(s: string) { forall i :: 0 <= i < |s| ==> CharValue(Lower(s[i])).Some? }

  function ValuesOf(s: string): (vs: seq<bv8>)
    requires AllValues(s)
    ensures |vs| == |s|
  {
    seq(|s|, i requires 0 <= i < |s| => CharValue(Lower(s[i])).value)
  }

  function LowerAll(s: string): (t: string)
    ensures |t| == |s|
  {
    seq(|s|, i requires 0 <= i < |s| => Lower(s[i]))
  }

  predicate MixedCase(s: string) {
    (exists i :: 0 <= i < |s| && IsUpper(s[i])) && (exists i :: 0 <= i < |s| && IsLower(s[i]))
  }

  // The tests of the decoder before it looks at the values.
  predicate Shaped(addr: string) {
    var sep := LastOne(addr);
    && Printable(addr) && 8 <= |addr| <= 90 && 1 <= sep && sep + 2 + 6 <= |addr| && !MixedCase(addr)
    && AllValues(addr[sep + 1..])
  }

  // The values of an address, the version first and the checksum last.
  function AddressValues(addr: string): (vs: seq<bv8>)
    requires Shaped(addr)
    ensures |vs| >= 7 && LastOne(addr) + 1 + |vs| == |addr| <= 90
  {
    ValuesOf(addr[LastOne(addr) + 1..])
  }

  // The values between the version and the checksum.
  function Middle(vs: seq<bv8>): (cs: seq<bv8>)
    requires |vs| >= 7
    ensures |vs| == |cs| + 7
  {
    vs[1..|vs| - 6]
  }

  function Decoded(addr: string): Option<(string, seq<bv8>)> {
    if !Shaped(addr) then None
    else
      var hrp := addr[..LastOne(addr)];
      Checked(LowerAll(hrp), PrefixValues(hrp), AddressValues(addr))
  }

  // The tests of the values, after a prefix that feeds fed to the checksum.
  function Checked(hrp: string, fed: seq<bv32>, vs: seq<bv8>): Option<(string, seq<bv8>)>
    requires 7 <= |vs| <= 90
  {
    var len := |Middle(vs)| * 5 / 8;
    if Run(1, fed + Wide(vs)) != 1 || vs[0] > 16 || len < 2 || len > 40 then None
    else Some((hrp, Program(vs[0], BytesOf(Middle(vs)))))
  }

  // The whole bytes that a string of five-bit values makes.
  function BytesOf(cs: seq<bv8>): seq<bv8> { seq(|cs| * 5 / 8, m requires 0 <= m => ByteAt(cs, m)) }

  lemma BytesOfWhole(bs: seq<bv8>)
    ensures BytesOf(Groups(bs)) == bs
  {
    hide ByteAt, Groups;
    GroupsLength(bs);
    assert GroupCount(|bs|) * 5 / 8 == |bs|;
    forall m | 0 <= m < |bs|
      ensures ByteAt(Groups(bs), m) == bs[m]
    {
      BytesOfGroups(bs, m);
    }
  }

  // ---------- decoding undoes encoding ----------

  lemma {:induction false} LastOneAt(s: string, i: nat)
    requires i < |s| && s[i] == '1' && forall j :: i < j < |s| ==> s[j] != '1'
    ensures LastOne(s) == i
  {
    if i < |s| - 1 { LastOneAt(s[..|s| - 1], i); }
  }

  lemma CharsRead(vs: seq<bv8>)
    requires Five(vs)
    ensures AllValues(CharsOf(vs)) && ValuesOf(CharsOf(vs)) == vs
    ensures forall i :: 0 <= i < |vs| ==> Plain(CharsOf(vs)[i])
  {
    hide CharValue, Plain;
    forall i | 0 <= i < |vs|
      ensures CharValue(Lower(CharsOf(vs)[i])) == Some(vs[i]) && Plain(CharsOf(vs)[i])
    {
      TablesAgree(vs[i]);
      PlainStays(CharOf(vs[i]));
    }
  }

  lemma PlainStays(c: char)
    requires Plain(c)
    ensures Lower(c) == c
  {
  }

  lemma WideConcat(a: seq<bv8>, b: seq<bv8>)
    ensures Wide(a + b) == Wide(a) + Wide(b)
  {
  }

  /** Appending its checksum drives any run to 1. */
  lemma ChecksumAccepted(values: seq<bv32>)
    ensures Run(1, values + Wide(Checksum(Run(1, values)))) == 1
  {
    hide Polymod, Xor, Slice, Times6, Run, Feed, Checksum, Wide;
    var s := Run(1, values);
    var t := Xor(Times6(s), 1);
    var w := Wide(Checksum(s));
    ChecksumWide(s);
    RunSix(s, Slice(t, 0), Slice(t, 1), Slice(t, 2), Slice(t, 3), Slice(t, 4), Slice(t, 5));
    RunConcat(1, values, w);
    ChecksumClosesTo1(s);
  }

  lemma ChecksumWide(s: bv32)
    ensures
      var t := Xor(Times6(s), 1);
      Wide(Checksum(s)) == [Slice(t, 0), Slice(t, 1), Slice(t, 2), Slice(t, 3), Slice(t, 4), Slice(t, 5)]
  {
  }

  lemma RunSix(s: bv32, a: bv32, b: bv32, c: bv32, d: bv32, e: bv32, f: bv32)
    ensures Run(s, [a, b, c, d, e, f]) == Feed(Feed(Feed(Feed(Feed(Feed(s, a), b), c), d), e), f)
  {
    hide Feed, Run;
    RunSnoc(s, [], a);
    RunSnoc(s, [a], b);
    RunSnoc(s, [a, b], c);
    RunSnoc(s, [a, b, c], d);
    RunSnoc(s, [a, b, c, d], e);
    RunSnoc(s, [a, b, c, d, e], f);
    assert [] + [a] == [a] && [a] + [b] == [a, b] && [a, b] + [c] == [a, b, c] && [a, b, c] + [d] == [a, b, c, d];
    assert [a, b, c, d] + [e] == [a, b, c, d, e] && [a, b, c, d, e] + [f] == [a, b, c, d, e, f];
  }

  lemma LowerPrefix(hrp: string)
    requires GoodPrefix(hrp)
    ensures LowerAll(hrp) == hrp
  {
  }

  lemma PlainNotUpper(c: char)
    requires Plain(c)
    ensures !IsUpper(c) && c != '1' && 33 <= c as int <= 126
  {
  }

  // The address is the prefix, the separator and plain letters, so it is read back piece by piece.
  lemma Pieces(hrp: string, letters: string)
    requires GoodPrefix(hrp) && forall i :: 0 <= i < |letters| ==> Plain(letters[i])
    ensures
      var addr := hrp + "1" + letters;
      && Printable(addr) && !MixedCase(addr) && LastOne(addr) == |hrp|
      && addr[..|hrp|] == hrp && addr[|hrp| + 1..] == letters
  {
    hide Plain;
    var addr := hrp + "1" + letters;
    forall i | 0 <= i < |addr|
      ensures 33 <= addr[i] as int <= 126 && !IsUpper(addr[i]) && (i > |hrp| ==> addr[i] != '1')
    {
      if i > |hrp| {
        assert addr[i] == letters[i - |hrp| - 1];
        PlainNotUpper(addr[i]);
      }
    }
    LastOneAt(addr, |hrp|);
  }

  lemma TextParts(hrp: string, data: seq<bv8>)
    requires IsProgram(data) && Passes(hrp, data)
    ensures Five(Payload(data)) && |Payload(data)| == 1 + GroupCount(data[1] as int)
    ensures
      var vs := Payload(data);
      Text(hrp, data) == hrp + "1" + CharsOf(vs + Checksum(Run(1, PrefixValues(hrp) + Wide(vs))))
    ensures |Text(hrp, data)| == |hrp| + 8 + GroupCount(data[1] as int)
  {
    hide Groups, Checksum, Run, Wide, PrefixValues;
    GroupsFive(data[2..2 + data[1] as int]);
    GroupsLength(data[2..2 + data[1] as int]);
  }

  /** The tests of the encoder keep it inside its buffer for every program exactly if the prefix has at most 18
      characters; a prefix of 42 characters passes them with a program that makes an address of 114. */
  lemma GuardHoldsExactly(hrp: string)
    requires GoodPrefix(hrp)
    ensures (forall data :: IsProgram(data) ==> Encoded(hrp, data) != Overrun) <==> |hrp| <= 18 || |hrp| > 80
    ensures |hrp| == 42 ==> exists data :: IsProgram(data) && Passes(hrp, data) && |Text(hrp, data)| == 114
  {
    hide Text;
    if 18 < |hrp| <= 80 {
      var len := if 82 - |hrp| < 40 then 82 - |hrp| else 40;
      var data: seq<bv8> := [0, LengthByte(len)] + seq(len, _ => 0);
      assert data[1] as int == len;
      assert IsProgram(data);
      if |hrp| == 42 { TextParts(hrp, data); }
      assert Encoded(hrp, data) == Overrun;
    }
  }

  /** An address is read back as its prefix and program exactly when the prefix is not empty, and else refused. */
  lemma DecodeUndoesEncode(hrp: string, data: seq<bv8>)
    requires IsProgram(data) && Encoded(hrp, data).Address?
    ensures
      var addr := Encoded(hrp, data).text;
      && |addr| == |hrp| + 8 + GroupCount(data[1] as int) <= 90
      && Decoded(addr) == if 1 <= |hrp| then Some((hrp, data[..2 + data[1] as int])) else None
  {
    hide Text, Decoded, Passes;
    TextParts(hrp, data);
    TextReadsBack(hrp, data);
  }

  lemma TextReadsBack(hrp: string, data: seq<bv8>)
    requires IsProgram(data) && Passes(hrp, data) && |hrp| + 8 + GroupCount(data[1] as int) <= 90
    ensures Decoded(Text(hrp, data)) == if 1 <= |hrp| then Some((hrp, data[..2 + data[1] as int])) else None
  {
    hide Text, Decoded, BytesOf, Groups, Spelled, Shaped;
    var program := data[2..2 + data[1] as int];
    TextParts(hrp, data);
    GroupsFive(program);
    TextSpelled(hrp, data);
    BytesOfWhole(program);
    BytesLength(Groups(program));
    GroupsLength(program);
    OpReadsBack(data);
    ValuesReadBack(hrp, VersionOf(data[0]), Groups(program));
  }

  lemma OpReadsBack(data: seq<bv8>)
    requires IsProgram(data) && !(0 < data[0] < OP_1)
    ensures data[..2 + data[1] as int] == Program(VersionOf(data[0]), data[2..2 + data[1] as int])
  {
    hide OpOf, VersionOf, LengthByte;
    OpOfVersion(data[0]);
    SameByte(LengthByte(data[1] as int), data[1]);
    assert data[..2 + data[1] as int] == [data[0], data[1]] + data[2..2 + data[1] as int];
  }

  lemma OpOfVersion(op: bv8)
    requires !(0 < op < OP_1)
    ensures OpOf(VersionOf(op)) == op
  {
  }

  lemma SameByte(a: bv8, b: bv8)
    requires a as int == b as int
    ensures a == b
  {
  }

  // A version and the bytes of a program as the opcode, the length and the bytes.
  function Program(ver: bv8, bytes: seq<bv8>): seq<bv8>
    requires |bytes| < 256
  {
    [OpOf(ver), LengthByte(|bytes|)] + bytes
  }

  function OpOf(ver: bv8): bv8 { if ver == 0 then 0 else ver + 0x50 }

  function LengthByte(n: nat): (b: bv8)
    requires n < 256
    ensures b as int == n
  {
    if n == 0 then 0
    else
      CountsUp(LengthByte(n - 1));
      LengthByte(n - 1) + 1
  }

  lemma CountsUp(b: bv8)
    ensures b as int < 255 ==> (b + 1) as int == b as int + 1
  {
  }

  lemma OpVersion(ver: bv8)
    requires ver <= 16
    ensures VersionOf(OpOf(ver)) == ver && !(0 < OpOf(ver) < OP_1)
  {
  }

  // The values that make an address of at most 90 characters with a program the decoder takes.
  predicate Spellable(hrp: string, ver: bv8, cs: seq<bv8>) {
    && GoodPrefix(hrp) && 1 <= |hrp| && ver <= 16 && Five(cs) && 2 <= |cs| * 5 / 8 <= 40 && |hrp| + 8 + |cs| <= 90
  }

  // The lower-case address of a version and values, whatever their padding.
  function Spelled(hrp: string, ver: bv8, cs: seq<bv8>): string
    requires Printable(hrp) && ver < 32 && Five(cs)
  {
    hrp + "1" + CharsOf([ver] + cs + Checksum(Run(1, PrefixValues(hrp) + Wide([ver] + cs))))
  }

  lemma TextSpelled(hrp: string, data: seq<bv8>)
    requires IsProgram(data) && Passes(hrp, data)
    ensures Five(Groups(data[2..2 + data[1] as int]))
    ensures Text(hrp, data) == Spelled(hrp, VersionOf(data[0]), Groups(data[2..2 + data[1] as int]))
  {
    GroupsFive(data[2..2 + data[1] as int]);
    hide Groups, Run, Wide, PrefixValues, CharsOf, Checksum;
  }

  /** Any version and values of the right length are accepted with their checksum. */
  lemma ValuesReadBack(hrp: string, ver: bv8, cs: seq<bv8>)
    requires Printable(hrp) && ver <= 16 && Five(cs) && GoodPrefix(hrp)
    requires 2 <= |cs| * 5 / 8 <= 40 && |hrp| + 8 + |cs| <= 90
    ensures |BytesOf(cs)| == |cs| * 5 / 8
    ensures Decoded(Spelled(hrp, ver, cs)) == if 1 <= |hrp| then Some((hrp, Program(ver, BytesOf(cs)))) else None
  {
    hide Run, Checksum, BytesOf, CharsOf, LowerAll, PrefixValues, Shaped, AddressValues, Printable, IsUpper, LastOne,
         Wide;
    var head := [ver] + cs;
    var sum := Checksum(Run(1, PrefixValues(hrp) + Wide(head)));
    TextShaped(hrp, head + sum);
    LowerPrefix(hrp);
    BytesLength(cs);
    WideConcat(head, sum);
    ChecksumAccepted(PrefixValues(hrp) + Wide(head));
    assert PrefixValues(hrp) + Wide(head + sum) == PrefixValues(hrp) + Wide(head) + Wide(sum);
    assert Middle(head + sum) == cs;
  }

  lemma TextShaped(hrp: string, vs: seq<bv8>)
    requires GoodPrefix(hrp) && Five(vs) && |vs| >= 7 && |hrp| + 1 + |vs| <= 90
    ensures
      var addr := hrp + "1" + CharsOf(vs);
      && LastOne(addr) == |hrp| && addr[..|hrp|] == hrp && (Shaped(addr) <==> 1 <= |hrp|)
      && (Shaped(addr) ==> AddressValues(addr) == vs)
  {
    hide CharsOf, Plain, MixedCase, LastOne, CharValue, Lower;
    CharsRead(vs);
    CharsLength(vs);
    Pieces(hrp, CharsOf(vs));
  }

  lemma GroupsLength(bs: seq<bv8>)
    ensures |Groups(bs)| == GroupCount(|bs|)
  {
  }

  lemma CharsLength(vs: seq<bv8>)
    requires Five(vs)
    ensures |CharsOf(vs)| == |vs|
  {
  }

  // ---------- encoding what was decoded ----------

  // How many bits of n values are left over by whole bytes.
  function PadBits(n: nat): nat { 5 * n - 8 * (5 * n / 8) }

  predicate LowZero(v: bv8, p: nat) {
    match p
    case 0 => true
    case 1 => v & 1 == 0
    case 2 => v & 3 == 0
    case 3 => v & 7 == 0
    case 4 => v & 15 == 0
    case _ => false
  }

  // Fewer than five bits are left over, and they are zero: no value is surplus, and the padding is empty.
  predicate Canonical(cs: seq<bv8>) {
    PadBits(|cs|) < 5 && (cs != [] ==> LowZero(cs[|cs| - 1], PadBits(|cs|)))
  }

  lemma Back0(c0: bv8, c1: bv8)
    requires c0 < 32 && c1 < 32
    ensures Join0(c0, c1) >> 3 == c0
  {
  }

  lemma Back1(c0: bv8, c1: bv8, c2: bv8, c3: bv8)
    requires c0 < 32 && c1 < 32 && c2 < 32 && c3 < 32
    ensures ((Join0(c0, c1) << 2) | (Join1(c1, c2, c3) >> 6)) & 0x1f == c1
    ensures ((Join0(c0, c1) << 2) | (0 >> 6)) & 0x1f == c1 <==> c1 & 3 == 0
  {
  }

  lemma Back2(c1: bv8, c2: bv8, c3: bv8)
    requires c1 < 32 && c2 < 32 && c3 < 32
    ensures (Join1(c1, c2, c3) >> 1) & 0x1f == c2
  {
  }

  lemma Back3(c1: bv8, c2: bv8, c3: bv8, c4: bv8)
    requires c1 < 32 && c2 < 32 && c3 < 32 && c4 < 32
    ensures ((Join1(c1, c2, c3) << 4) | (Join2(c3, c4) >> 4)) & 0x1f == c3
    ensures ((Join1(c1, c2, c3) << 4) | (0 >> 4)) & 0x1f == c3 <==> c3 & 15 == 0
  {
  }

  lemma Back4(c3: bv8, c4: bv8, c5: bv8, c6: bv8)
    requires c3 < 32 && c4 < 32 && c5 < 32 && c6 < 32
    ensures ((Join2(c3, c4) << 1) | (Join3(c4, c5, c6) >> 7)) & 0x1f == c4
    ensures ((Join2(c3, c4) << 1) | (0 >> 7)) & 0x1f == c4 <==> c4 & 1 == 0
  {
  }

  lemma Back5(c4: bv8, c5: bv8, c6: bv8)
    requires c4 < 32 && c5 < 32 && c6 < 32
    ensures (Join3(c4, c5, c6) >> 2) & 0x1f == c5
  {
  }

  lemma Back6(c4: bv8, c5: bv8, c6: bv8, c7: bv8)
    requires c4 < 32 && c5 < 32 && c6 < 32 && c7 < 32
    ensures ((Join3(c4, c5, c6) << 3) | (Join4(c6, c7) >> 5)) & 0x1f == c6
    ensures ((Join3(c4, c5, c6) << 3) | (0 >> 5)) & 0x1f == c6 <==> c6 & 7 == 0
  {
  }

  lemma Back7(c6: bv8, c7: bv8)
    requires c6 < 32 && c7 < 32
    ensures Join4(c6, c7) & 0x1f == c7
  {
  }

  lemma AtFive(cs: seq<bv8>, i: nat)
    requires Five(cs)
    ensures At(cs, i) < 32
  {
  }

  lemma BytesAt(cs: seq<bv8>, m: nat)
    ensures |BytesOf(cs)| == |cs| * 5 / 8 && At(BytesOf(cs), m) == if m < |cs| * 5 / 8 then ByteAt(cs, m) else 0
  {
  }

  /** Cutting the bytes that values make gives value k back, but for the bits of the last value that made no byte. */
  lemma GroupBack(cs: seq<bv8>, q: nat, r: nat)
    requires Five(cs) && r < 8 && 8 * q + r < |cs| && PadBits(|cs|) < 5
    ensures
      var k := 8 * q + r;
      if k + 1 < |cs| then Group(BytesOf(cs), k) == cs[k]
      else Group(BytesOf(cs), k) == cs[k] <==> LowZero(cs[k], PadBits(|cs|))
  {
    hide Group, ByteAt, At, Join0, Join1, Join2, Join3, Join4, BytesOf;
    var n := |cs| * 5 / 8;
    AtFive(cs, 8 * q);
    AtFive(cs, 8 * q + 1);
    AtFive(cs, 8 * q + 2);
    AtFive(cs, 8 * q + 3);
    AtFive(cs, 8 * q + 4);
    AtFive(cs, 8 * q + 5);
    AtFive(cs, 8 * q + 6);
    AtFive(cs, 8 * q + 7);
    BlockGroups(BytesOf(cs), q);
    BlockBytes(cs, q);
    BytesAt(cs, 5 * q);
    BytesAt(cs, 5 * q + 1);
    BytesAt(cs, 5 * q + 2);
    BytesAt(cs, 5 * q + 3);
    BytesAt(cs, 5 * q + 4);
    InRange(cs, 8 * q + r);
    var c0, c1, c2, c3 := At(cs, 8 * q), At(cs, 8 * q + 1), At(cs, 8 * q + 2), At(cs, 8 * q + 3);
    var c4, c5, c6, c7 := At(cs, 8 * q + 4), At(cs, 8 * q + 5), At(cs, 8 * q + 6), At(cs, 8 * q + 7);
    match r
    case 0 => Back0(c0, c1);
    case 1 => Back1(c0, c1, c2, c3);
    case 2 => Back2(c1, c2, c3);
    case 3 => Back3(c1, c2, c3, c4);
    case 4 => Back4(c3, c4, c5, c6);
    case 5 => Back5(c4, c5, c6);
    case 6 => Back6(c4, c5, c6, c7);
    case _ => Back7(c6, c7);
  }

  /** Values come back from the bytes they make exactly if none is surplus and the padding is empty. */
  lemma GroupsOfBytes(cs: seq<bv8>)
    requires Five(cs)
    ensures Groups(BytesOf(cs)) == cs <==> Canonical(cs)
  {
    hide Group, ByteAt, LowZero;
    var bs := BytesOf(cs);
    assert |Groups(bs)| == GroupCount(|cs| * 5 / 8);
    assert |Groups(bs)| == |cs| <==> PadBits(|cs|) < 5;
    if PadBits(|cs|) < 5 {
      forall k | 0 <= k < |cs|
        ensures if k + 1 < |cs| then Groups(bs)[k] == cs[k]
                else Groups(bs)[k] == cs[k] <==> LowZero(cs[k], PadBits(|cs|))
      {
        GroupBack(cs, k / 8, k % 8);
      }
    }
  }

  // Six values as one word.
  function Pack(c0: bv32, c1: bv32, c2: bv32, c3: bv32, c4: bv32, c5: bv32): bv32 {
    (c0 << 25) | (c1 << 20) | (c2 << 15) | (c3 << 10) | (c4 << 5) | c5
  }

  lemma PackSlice0(c0: bv32, c1: bv32, c2: bv32, c3: bv32, c4: bv32, c5: bv32)
    requires c0 < 32 && c1 < 32 && c2 < 32 && c3 < 32 && c4 < 32 && c5 < 32
    ensures Slice(Pack(c0, c1, c2, c3, c4, c5), 0) == c0
  {
  }

  lemma PackSlice1(c0: bv32, c1: bv32, c2: bv32, c3: bv32, c4: bv32, c5: bv32)
    requires c0 < 32 && c1 < 32 && c2 < 32 && c3 < 32 && c4 < 32 && c5 < 32
    ensures Slice(Pack(c0, c1, c2, c3, c4, c5), 1) == c1
  {
  }

  lemma PackSlice2(c0: bv32, c1: bv32, c2: bv32, c3: bv32, c4: bv32, c5: bv32)
    requires c0 < 32 && c1 < 32 && c2 < 32 && c3 < 32 && c4 < 32 && c5 < 32
    ensures Slice(Pack(c0, c1, c2, c3, c4, c5), 2) == c2
  {
  }

  lemma PackSlice3(c0: bv32, c1: bv32, c2: bv32, c3: bv32, c4: bv32, c5: bv32)
    requires c0 < 32 && c1 < 32 && c2 < 32 && c3 < 32 && c4 < 32 && c5 < 32
    ensures Slice(Pack(c0, c1, c2, c3, c4, c5), 3) == c3
  {
  }

  lemma PackSlice4(c0: bv32, c1: bv32, c2: bv32, c3: bv32, c4: bv32, c5: bv32)
    requires c0 < 32 && c1 < 32 && c2 < 32 && c3 < 32 && c4 < 32 && c5 < 32
    ensures Slice(Pack(c0, c1, c2, c3, c4, c5), 4) == c4
  {
  }

  lemma PackSlice5(c0: bv32, c1: bv32, c2: bv32, c3: bv32, c4: bv32, c5: bv32)
    requires c0 < 32 && c1 < 32 && c2 < 32 && c3 < 32 && c4 < 32 && c5 < 32
    ensures Slice(Pack(c0, c1, c2, c3, c4, c5), 5) == c5
  {
  }

  lemma PackPrefix(c0: bv32, c1: bv32, c2: bv32, c3: bv32, c4: bv32, c5: bv32)
    requires c0 < 32 && c1 < 32 && c2 < 32 && c3 < 32 && c4 < 32 && c5 < 32
    ensures Prefix(Pack(c0, c1, c2, c3, c4, c5), 5) == Pack(c0, c1, c2, c3, c4, c5)
  {
  }

  lemma Widens(v: bv8, w: bv8)
    ensures Widen(v) == Widen(w) ==> v == w
    ensures v < 32 ==> Widen(v) < 32
  {
  }

  lemma OnlyOne(u: bv32, t: bv32)
    requires Xor(u, t) == 1
    ensures t == Xor(u, 1)
  {
  }

  /** Six values that drive a state to 1 are its checksum. */
  lemma ChecksumUnique(s: bv32, six: seq<bv8>)
    requires |six| == 6 && Five(six) && Run(s, Wide(six)) == 1
    ensures six == Checksum(s)
  {
    hide Run, Slice, Prefix, Times6, Feed, Pack, Xor, Widen;
    var c0, c1, c2, c3, c4, c5 :=
      Widen(six[0]), Widen(six[1]), Widen(six[2]), Widen(six[3]), Widen(six[4]), Widen(six[5]);
    forall j | 0 <= j < 6
      ensures Widen(six[j]) < 32
    {
      Widens(six[j], six[j]);
    }
    assert Wide(six) == [c0, c1, c2, c3, c4, c5];
    RunSix(s, c0, c1, c2, c3, c4, c5);
    var t := Pack(c0, c1, c2, c3, c4, c5);
    PackSlice0(c0, c1, c2, c3, c4, c5);
    PackSlice1(c0, c1, c2, c3, c4, c5);
    PackSlice2(c0, c1, c2, c3, c4, c5);
    PackSlice3(c0, c1, c2, c3, c4, c5);
    PackSlice4(c0, c1, c2, c3, c4, c5);
    PackSlice5(c0, c1, c2, c3, c4, c5);
    PackPrefix(c0, c1, c2, c3, c4, c5);
    FeedSlices(s, t);
    OnlyOne(Times6(s), t);
    forall j | 0 <= j < 6
      ensures six[j] == Checksum(s)[j]
    {
      Widens(six[j], Checksum(s)[j]);
    }
  }

  lemma CharValueOnce(c: char, d: char)
    requires CharValue(c).Some? && CharValue(c) == CharValue(d)
    ensures c == d
  {
  }

  lemma LettersOfValues(s: string)
    requires AllValues(s)
    ensures Five(ValuesOf(s)) && CharsOf(ValuesOf(s)) == LowerAll(s)
  {
    hide CharValue, Lower, CharOf, Plain;
    forall i | 0 <= i < |s|
      ensures ValuesOf(s)[i] < 32 && CharOf(ValuesOf(s)[i]) == Lower(s[i])
    {
      ValueFive(Lower(s[i]));
      TablesAgree(ValuesOf(s)[i]);
      CharValueOnce(CharOf(ValuesOf(s)[i]), Lower(s[i]));
    }
  }

  lemma LowerKeepsBits(c: char)
    requires 33 <= c as int <= 126
    ensures 33 <= Lower(c) as int <= 126 && !IsUpper(Lower(c))
    ensures HighBits(Lower(c)) == HighBits(c) && LowBits(Lower(c)) == LowBits(c)
  {
    hide AsBits;
    assert (Lower(c) as int) % 32 == (c as int) % 32;
  }

  lemma LowerKeepsValues(s: string)
    requires Printable(s)
    ensures Printable(LowerAll(s)) && PrefixValues(LowerAll(s)) == PrefixValues(s)
    ensures forall i :: 0 <= i < |s| ==> !IsUpper(LowerAll(s)[i])
  {
    hide HighBits, LowBits, Lower, IsUpper;
    forall i | 0 <= i < |s|
      ensures 33 <= LowerAll(s)[i] as int <= 126 && !IsUpper(LowerAll(s)[i])
      ensures HighBits(LowerAll(s)[i]) == HighBits(s[i]) && LowBits(LowerAll(s)[i]) == LowBits(s[i])
    {
      LowerKeepsBits(s[i]);
    }
  }

  /** What was decoded can be encoded again, and gives the address back in lower case exactly if the address had no
      surplus value and empty padding. */
  lemma EncodeUndoesDecode(addr: string, hrp: string, data: seq<bv8>)
    requires Decoded(addr) == Some((hrp, data))
    ensures IsProgram(data) && Encoded(hrp, data).Address? && Shaped(addr)
    ensures Encoded(hrp, data).text == LowerAll(addr) <==> Canonical(Middle(AddressValues(addr)))
  {
    hide Canonical, Decoded, Passes, Text, CharsOf, LowerAll, AddressValues, Shaped, Printable, Middle, Payload, Groups,
         Checksum, Run, Wide, PrefixValues, BytesOf, VersionOf;
    DecodedParts(addr, hrp, data);
    var vs := AddressValues(addr);
    MiddleFive(vs);
    GroupsOfBytes(Middle(vs));
    TextParts(hrp, data);
    SameText(hrp, Payload(data) + Checksum(Run(1, PrefixValues(hrp) + Wide(Payload(data)))), vs);
    SamePayload(PrefixValues(hrp), vs, data);
  }

  /** Letters of both cases are refused together; otherwise the case does not matter. */
  lemma CaseIgnored(addr: string)
    ensures Decoded(addr) == if MixedCase(addr) then None else Decoded(LowerAll(addr))
  {
    if !MixedCase(addr) {
      hide Checked, CharsOf, MixedCase, LowerAll, PrefixValues, Printable, AddressValues, LastOne, Five;
      SameShape(addr);
      if Shaped(addr) {
        ShapedParts(addr);
        hide Shaped;
        var hrp := LowerAll(addr[..LastOne(addr)]);
        TextShaped(hrp, AddressValues(addr));
        LowerPrefix(hrp);
      }
    }
  }

  lemma SameShape(addr: string)
    requires !MixedCase(addr)
    ensures Shaped(addr) <==> Shaped(LowerAll(addr))
  {
    hide MixedCase, LastOne, Printable, AllValues;
    var sep, low := LastOne(addr), LowerAll(addr);
    LowerIsOneCase(addr);
    SameSeparator(addr);
    LowerPrintable(addr);
    if sep < |addr| {
      LowerAllValues(addr[sep + 1..]);
      assert low[sep + 1..] == LowerAll(addr[sep + 1..]);
    }
  }

  lemma LowerAllValues(s: string)
    ensures AllValues(s) <==> AllValues(LowerAll(s))
  {
    hide Lower, CharValue;
    forall i | 0 <= i < |s|
      ensures Lower(LowerAll(s)[i]) == Lower(s[i])
    {
      LowerTwice(s[i]);
    }
  }

  lemma LowerTwice(c: char)
    ensures Lower(Lower(c)) == Lower(c) && !IsUpper(Lower(c)) && (Lower(c) == '1' <==> c == '1')
    ensures 33 <= c as int <= 126 <==> 33 <= Lower(c) as int <= 126
  {
  }

  lemma LowerPrintable(s: string)
    ensures Printable(s) <==> Printable(LowerAll(s))
  {
    hide Lower;
    forall i | 0 <= i < |s|
      ensures 33 <= s[i] as int <= 126 <==> 33 <= LowerAll(s)[i] as int <= 126
    {
      LowerTwice(s[i]);
    }
  }

  lemma LowerIsOneCase(s: string)
    ensures !MixedCase(LowerAll(s))
  {
    hide Lower, IsUpper;
    forall i | 0 <= i < |s|
      ensures !IsUpper(LowerAll(s)[i])
    {
      LowerTwice(s[i]);
    }
  }

  lemma {:induction false} SameSeparator(s: string)
    ensures LastOne(LowerAll(s)) == LastOne(s)
  {
    if s != "" {
      LowerTwice(s[|s| - 1]);
      SameSeparator(s[..|s| - 1]);
      assert LowerAll(s)[..|s| - 1] == LowerAll(s[..|s| - 1]);
    }
  }

  // The address says hrp and data with some version and values.
  ghost predicate Says(addr: string, hrp: string, data: seq<bv8>, ver: bv8, cs: seq<bv8>) {
    && Spellable(hrp, ver, cs) && LowerAll(addr) == Spelled(hrp, ver, cs)
    && |BytesOf(cs)| < 256 && data == Program(ver, BytesOf(cs))
  }

  /** What exactly is accepted: strings of one case that are, in lower case, a prefix with a version, values and their
      checksum.  The padding of the values is not looked at. */
  lemma AcceptedExactly(addr: string, hrp: string, data: seq<bv8>)
    ensures Decoded(addr) == Some((hrp, data)) <==> !MixedCase(addr) && exists ver, cs :: Says(addr, hrp, data, ver, cs)
  {
    CaseIgnored(addr);
    hide Decoded, MixedCase, Spelled, LowerAll, BytesOf;
    if !MixedCase(addr) {
      if ver, cs :| Says(addr, hrp, data, ver, cs) { ValuesReadBack(hrp, ver, cs); }
      if Decoded(addr) == Some((hrp, data)) { SaysIts(addr, hrp, data); }
    }
  }

  lemma SaysIts(addr: string, hrp: string, data: seq<bv8>)
    requires Decoded(addr) == Some((hrp, data))
    ensures exists ver, cs :: Says(addr, hrp, data, ver, cs)
  {
    hide Run, Checksum, Wide, CharsOf, LowerAll, BytesOf, PrefixValues, Shaped, AddressValues;
    DecodedParts(addr, hrp, data);
    var vs := AddressValues(addr);
    var ver, cs, six := vs[0], Middle(vs), vs[|vs| - 6..];
    assert vs == [ver] + cs + six;
    WideConcat([ver] + cs, six);
    RunConcat(1, PrefixValues(hrp) + Wide([ver] + cs), Wide(six));
    assert PrefixValues(hrp) + Wide(vs) == PrefixValues(hrp) + Wide([ver] + cs) + Wide(six);
    ChecksumUnique(Run(1, PrefixValues(hrp) + Wide([ver] + cs)), six);
    BytesLength(cs);
    assert Says(addr, hrp, data, ver, cs);
  }

  /** For example, four values whose last one differs in its padding give two addresses of one program. */
  lemma PaddingIgnored(hrp: string, v: bv8)
    requires GoodPrefix(hrp) && 1 <= |hrp| <= 78 && v < 16
    ensures Decoded(Spelled(hrp, 0, [0, 0, 0, v])) == Some((hrp, [0, 2, 0, 0]))
  {
    hide Decoded, Spelled;
    ValuesReadBack(hrp, 0, [0, 0, 0, v]);
    assert LengthByte(2) == 2;
    assert ByteAt([0, 0, 0, v], 0) == 0 && ByteAt([0, 0, 0, v], 1) == 0;
    assert BytesOf([0, 0, 0, v]) == [0, 0];
    assert Program(0, [0, 0]) == [0, 2, 0, 0];
  }

  // The pieces of an accepted address.
  lemma DecodedParts(addr: string, hrp: string, data: seq<bv8>)
    requires Decoded(addr) == Some((hrp, data))
    ensures Shaped(addr) && IsProgram(data) && Passes(hrp, data) && |hrp| + 8 + GroupCount(data[1] as int) <= 90
    ensures
      var vs := AddressValues(addr);
      && Five(vs) && vs[0] == VersionOf(data[0]) && data[2..2 + data[1] as int] == BytesOf(Middle(vs))
      && Printable(hrp) && Run(1, PrefixValues(hrp) + Wide(vs)) == 1 && LowerAll(addr) == hrp + "1" + CharsOf(vs)
      && |BytesOf(Middle(vs))| < 256 && data == Program(vs[0], BytesOf(Middle(vs)))
      && 1 <= |hrp| && |hrp| + 1 + |vs| <= 90
  {
    hide Checked, Run, BytesOf, CharsOf, LowerAll, PrefixValues, Wide, AddressValues, Shaped, IsUpper, LastOne, Five,
         VersionOf, Printable, Middle, Program;
    ShapedParts(addr);
    var sep, vs := LastOne(addr), AddressValues(addr);
    CheckedParts(LowerAll(addr[..sep]), PrefixValues(addr[..sep]), vs);
    BytesLength(Middle(vs));
    ProgramParts(vs[0], BytesOf(Middle(vs)));
  }

  lemma CheckedParts(hrp: string, fed: seq<bv32>, vs: seq<bv8>)
    requires 7 <= |vs| <= 90 && Checked(hrp, fed, vs).Some?
    ensures Run(1, fed + Wide(vs)) == 1 && vs[0] <= 16 && 2 <= |BytesOf(Middle(vs))| <= 40
    ensures Checked(hrp, fed, vs) == Some((hrp, Program(vs[0], BytesOf(Middle(vs)))))
  {
    hide Run, BytesOf, Wide;
    BytesLength(Middle(vs));
  }

  lemma ProgramParts(ver: bv8, bytes: seq<bv8>)
    requires ver <= 16 && |bytes| <= 40
    ensures
      var data := Program(ver, bytes);
      && data[1] as int == |bytes| && IsProgram(data) && data[2..2 + data[1] as int] == bytes
      && VersionOf(data[0]) == ver && !(0 < data[0] < OP_1)
  {
    hide OpOf, VersionOf, LengthByte;
    OpVersion(ver);
    var data := Program(ver, bytes);
    assert data[0] == OpOf(ver) && data[1] == LengthByte(|bytes|);
    assert forall i :: 0 <= i < |bytes| ==> data[2..][i] == bytes[i];
    assert data[2..] == bytes;
  }

  lemma ShapedParts(addr: string)
    requires Shaped(addr)
    ensures
      var hrp, vs := addr[..LastOne(addr)], AddressValues(addr);
      && 1 <= |hrp| && Five(vs) && Printable(hrp) && Printable(LowerAll(hrp))
      && PrefixValues(LowerAll(hrp)) == PrefixValues(hrp)
      && (forall i :: 0 <= i < |hrp| ==> !IsUpper(LowerAll(hrp)[i]))
      && LowerAll(addr) == LowerAll(hrp) + "1" + CharsOf(vs)
  {
    hide LowerAll, PrefixValues, MixedCase, LastOne, ValuesOf, AllValues, IsUpper, CharsOf;
    var sep := LastOne(addr);
    LastOneIs(addr);
    LettersOfValues(addr[sep + 1..]);
    LowerKeepsValues(addr[..sep]);
    LowerParts(addr, sep);
  }

  lemma MiddleFive(vs: seq<bv8>)
    requires |vs| >= 7 && Five(vs)
    ensures Five(Middle(vs))
  {
  }

  lemma BytesLength(cs: seq<bv8>)
    ensures |BytesOf(cs)| == |cs| * 5 / 8 && GroupCount(|cs| * 5 / 8) <= |cs|
  {
  }

  // With its version and its groups, the accepted values are those of the program exactly if the groups are.
  lemma SamePayload(fed: seq<bv32>, vs: seq<bv8>, data: seq<bv8>)
    requires IsProgram(data) && Five(vs) && |vs| >= 7 && vs[0] == VersionOf(data[0])
    requires Five(Payload(data)) && Run(1, fed + Wide(vs)) == 1
    ensures Payload(data) + Checksum(Run(1, fed + Wide(Payload(data)))) == vs
       <==> Groups(data[2..2 + data[1] as int]) == Middle(vs)
  {
    hide Run, Checksum, Groups, Wide;
    var head, sum := Payload(data), Checksum(Run(1, fed + Wide(Payload(data))));
    if Groups(data[2..2 + data[1] as int]) == Middle(vs) {
      var six := vs[|vs| - 6..];
      assert vs == head + six;
      WideConcat(head, six);
      RunConcat(1, fed + Wide(head), Wide(six));
      assert fed + Wide(vs) == fed + Wide(head) + Wide(six);
      ChecksumUnique(Run(1, fed + Wide(head)), six);
    }
    if head + sum == vs {
      assert |head| == |vs| - 6;
      assert (head + sum)[1..|head|] == Groups(data[2..2 + data[1] as int]);
    }
  }

  lemma {:induction false} LastOneIs(s: string)
    requires LastOne(s) > 0
    ensures LastOne(s) < |s| && s[LastOne(s)] == '1'
  {
    if s != "" && s[|s| - 1] != '1' { LastOneIs(s[..|s| - 1]); }
  }

  lemma LowerParts(addr: string, sep: nat)
    requires sep < |addr| && addr[sep] == '1'
    ensures LowerAll(addr) == LowerAll(addr[..sep]) + "1" + LowerAll(addr[sep + 1..])
  {
    assert Lower('1') == '1';
  }

  lemma SameText(hrp: string, a: seq<bv8>, b: seq<bv8>)
    requires Five(a) && Five(b)
    ensures hrp + "1" + CharsOf(a) == hrp + "1" + CharsOf(b) <==> a == b
  {
    hide CharsOf;
    CharsRead(a);
    CharsRead(b);
    if hrp + "1" + CharsOf(a) == hrp + "1" + CharsOf(b) {
      assert CharsOf(a) == (hrp + "1" + CharsOf(a))[|hrp| + 1..];
      assert CharsOf(b) == (hrp + "1" + CharsOf(b))[|hrp| + 1..];
    }
  }

  // ---------- the code ----------

  lemma FeedZero(s: bv32)
    ensures Feed(s, 0) == Polymod(s)
  {
  }

  // Both directions feed the prefix to the checksum twice, high bits and low bits.
  method PrefixChecksum(hrp: string) returns (chk: bv32)
    requires Printable(hrp)
    ensures chk == Run(1, PrefixValues(hrp))
  {
    hide Run, Polymod, HighBits, LowBits;
    chk := 1;
    ghost var fed: seq<bv32> := [];
    RunSnoc(1, fed, 0);
    for i := 0 to |hrp|
      invariant chk == Run(1, fed) && |fed| == i && forall k :: 0 <= k < i ==> fed[k] == HighBits(hrp[k])
    {
      RunSnoc(1, fed, HighBits(hrp[i]));
      chk := Feed(chk, HighBits(hrp[i]));
      fed := fed + [HighBits(hrp[i])];
    }
    FeedZero(chk);
    RunSnoc(1, fed, 0);
    chk := Polymod(chk);
    ghost var high := fed + [0];
    fed := [];
    assert high + fed == high;
    for i := 0 to |hrp|
      invariant chk == Run(1, high + fed) && |fed| == i && forall k :: 0 <= k < i ==> fed[k] == LowBits(hrp[k])
    {
      RunSnoc(1, high + fed, LowBits(hrp[i]));
      assert (high + fed) + [LowBits(hrp[i])] == high + (fed + [LowBits(hrp[i])]);
      chk := Feed(chk, LowBits(hrp[i]));
      fed := fed + [LowBits(hrp[i])];
    }
    assert high + fed == PrefixValues(hrp);
  }

  method CheckPrefix(hrp: string) returns (ok: bool)
    ensures ok == GoodPrefix(hrp)
  {
    var i := 0;
    while i < |hrp|
      invariant i <= |hrp| && i <= 84 && forall k :: 0 <= k < i ==> 33 <= hrp[k] as int <= 126 && !IsUpper(hrp[k])
    {
      if i > 83 || hrp[i] as int < 33 || hrp[i] as int > 126 || 'A' <= hrp[i] <= 'Z' { return false; }
      i := i + 1;
    }
    return true;
  }

  // What the encoder makes of the last byte a and this byte b, in the order it comes out.
  method EmitFirst(j: nat, a: bv8, b: bv8, x: nat, ghost bs: seq<bv8>) returns (c: bv8)
    requires x == [0, 3, 1, 4, 2][j % 5] && b == At(bs, j) && a == (if j == 0 then 0 else At(bs, j - 1))
    ensures c == Group(bs, 8 * j / 5)
  {
    hide Group, At;
    c := ((a << (5 - x)) | (b >> (3 + x))) & 0x1f;
    BlockGroups(bs, j / 5);
    FirstIndex(j);
  }

  method EmitSecond(j: nat, b: bv8, x: nat, ghost bs: seq<bv8>) returns (c: bv8)
    requires x == [0, 3, 1, 4, 2][j % 5] && b == At(bs, j) && x >= 2
    ensures c == Group(bs, 8 * j / 5 + 1)
  {
    hide Group, At;
    c := (b >> (x - 2)) & 0x1f;
    BlockGroups(bs, j / 5);
    FirstIndex(j);
  }

  lemma FirstIndex(j: nat)
    ensures 8 * j / 5 == 8 * (j / 5) + [0, 1, 3, 4, 6][j % 5]
  {
  }

  // How many groups the first j bytes complete.
  lemma Complete(j: nat)
    ensures 8 * (j + 1) / 5 == 8 * j / 5 + (if [0, 3, 1, 4, 2][j % 5] >= 2 then 2 else 1)
    ensures GroupCount(j) == 8 * j / 5 + (if j % 5 > 0 then 1 else 0)
  {
  }

  method GroupOffset(j: nat) returns (x: nat)
    ensures x == [0, 3, 1, 4, 2][j % 5]
  {
    x := (j % 5) * 8 - ((j % 5) * 8 / 5) * 5;
  }

  // The characters of s have been written from the start of the buffer, as far as it reaches.
  ghost predicate Wrote(addr: seq<char>, i: nat, s: string) {
    |addr| == BUFFER && i == |s| && forall k :: 0 <= k < i && k < BUFFER ==> addr[k] == s[k]
  }

  // addr[i++] = c.  A write beyond the buffer is lost here; i tells that it happened.
  method PutChar(addr: array<char>, i: nat, c: char, ghost s: string) returns (next: nat)
    requires Wrote(addr[..], i, s)
    modifies addr
    ensures Wrote(addr[..], next, s + [c])
  {
    if i < addr.Length { addr[i] := c; }
    next := i + 1;
  }

  // One value of the address: fed to the checksum and written.
  method Emit(addr: array<char>, i: nat, c: bv8, chk0: bv32, ghost s: string, ghost start: bv32, ghost vs: seq<bv8>)
    returns (next: nat, chk: bv32)
    requires Five(vs) && c < 32 && Wrote(addr[..], i, s + CharsOf(vs)) && chk0 == Run(start, Wide(vs))
    modifies addr
    ensures Five(vs + [c]) && Wrote(addr[..], next, s + CharsOf(vs + [c])) && chk == Run(start, Wide(vs + [c]))
  {
    hide Run, Feed, Wide, Wrote;
    WideSnoc(start, vs, c);
    chk := Feed(chk0, Widen(c));
    assert s + CharsOf(vs + [c]) == s + CharsOf(vs) + [CharOf(c)];
    next := PutChar(addr, i, CHARS[c as int], s + CharsOf(vs));
  }

  /** The regrouping loop of BRBech32Encode, which feeds every value to the checksum and writes it as it comes out. */
  method EmitGroups(addr: array<char>, i0: nat, bs: seq<bv8>, chk0: bv32, ghost s: string) returns (i: nat, chk: bv32)
    requires Wrote(addr[..], i0, s)
    modifies addr
    ensures Five(Groups(bs)) && Wrote(addr[..], i, s + CharsOf(Groups(bs))) && chk == Run(chk0, Wide(Groups(bs)))
  {
    hide Run, Group, Wide, Wrote, CharsOf;
    ghost var vs: seq<bv8> := [];
    i, chk := i0, chk0;
    NothingFed(chk0);
    NoChars();
    assert s + "" == s;
    var b: bv8 := 0;
    for j := 0 to |bs| + 1
      invariant b == if j == 0 then 0 else At(bs, j - 1)
      invariant |vs| == (if j <= |bs| then 8 * j / 5 else GroupCount(|bs|))
      invariant forall k :: 0 <= k < |vs| ==> vs[k] == Group(bs, k)
      invariant Five(vs) && Wrote(addr[..], i, s + CharsOf(vs)) && chk == Run(chk0, Wide(vs))
    {
      var a := b;
      b := if j < |bs| then bs[j] else 0;
      var x := GroupOffset(j);
      Complete(j);
      var c := EmitFirst(j, a, b, x, bs);
      if j < |bs| || j % 5 > 0 {
        GroupFive(bs, |vs|);
        i, chk := Emit(addr, i, c, chk, s, chk0, vs);
        vs := vs + [c];
      }
      if x >= 2 {
        c := EmitSecond(j, b, x, bs);
      }
      if x >= 2 && j < |bs| {
        GroupFive(bs, |vs|);
        i, chk := Emit(addr, i, c, chk, s, chk0, vs);
        vs := vs + [c];
      }
    }
    assert vs == Groups(bs);
  }

  lemma GroupFive(bs: seq<bv8>, k: nat)
    ensures Group(bs, k) < 32
  {
  }

  lemma NoChars()
    ensures CharsOf([]) == ""
  {
  }

  lemma NothingFed(s: bv32)
    ensures Run(s, Wide([])) == s
  {
  }

  lemma WideSnoc(s: bv32, vs: seq<bv8>, c: bv8)
    ensures Run(s, Wide(vs + [c])) == Feed(Run(s, Wide(vs)), Widen(c))
  {
    hide Run, Feed;
    assert Wide(vs + [c]) == Wide(vs) + [Widen(c)];
    RunSnoc(s, Wide(vs), Widen(c));
  }

  method PutString(addr: array<char>, i0: nat, t: string, ghost s: string) returns (i: nat)
    requires Wrote(addr[..], i0, s)
    modifies addr
    ensures Wrote(addr[..], i, s + t)
  {
    hide Wrote;
    i := i0;
    assert s + t[..0] == s;
    for k := 0 to |t|
      invariant Wrote(addr[..], i, s + t[..k])
    {
      assert s + t[..k + 1] == s + t[..k] + [t[k]];
      i := PutChar(addr, i, t[k], s + t[..k]);
    }
    assert t[..|t|] == t;
  }

  /** BRBech32Encode, in its buffer of 91 characters. */
  method Encode(hrp: string, data: seq<bv8>) returns (r: Encoding)
    requires IsProgram(data)
    ensures r == Encoded(hrp, data)
  {
    hide Run, PrefixValues, Wrote, Text;
    var good := CheckPrefix(hrp);
    if !good { return Refused; }
    var chk := PrefixChecksum(hrp);
    var addr := new char[BUFFER];
    Untouched(addr[..]);
    var i := PutString(addr, 0, hrp, "");
    assert "" + hrp == hrp;
    i := PutChar(addr, i, '1', hrp);
    WroteLength(addr[..], i, hrp + "1");
    if data[0] > 0 && data[0] < OP_1 { return Refused; }
    var ver: bv8 := if data[0] >= OP_1 then data[0] - 0x50 else 0;
    var len := data[1] as int;
    if ver > 16 || len < 2 || len > 40 || i + 1 + len + 6 >= 91 { return Refused; }
    r := WriteProgram(addr, i, hrp, ver, data, chk);
    TextParts(hrp, data);
  }

  lemma WroteLength(addr: seq<char>, i: nat, s: string)
    requires Wrote(addr, i, s)
    ensures i == |s|
  {
  }

  // The values of the version and the program, the checksum and the terminator.
  method WriteProgram(addr: array<char>, i0: nat, ghost hrp: string, ver: bv8, data: seq<bv8>, chk0: bv32)
    returns (r: Encoding)
    requires IsProgram(data) && Passes(hrp, data) && ver == VersionOf(data[0]) <= 16 && Printable(hrp)
    requires Wrote(addr[..], i0, hrp + "1") && chk0 == Run(1, PrefixValues(hrp))
    modifies addr
    ensures r == if |Text(hrp, data)| > 90 then Overrun else Address(Text(hrp, data))
  {
    hide Run, Feed, PrefixValues, Groups, Wide, CharsOf, Checksum, Wrote, Text, Passes;
    var bs := data[2..2 + data[1] as int];
    ghost var s := hrp + "1";
    var chk := Feed(chk0, Widen(ver));
    var i := PutChar(addr, i0, CHARS[ver as int], s);
    i, chk := EmitGroups(addr, i, bs, chk, s + [CharOf(ver)]);
    FedAll(PrefixValues(hrp), ver, Groups(bs));
    var sum := CloseChecksum(chk);
    i := PutString(addr, i, CharsOf(sum), s + [CharOf(ver)] + CharsOf(Groups(bs)));
    TextParts(hrp, data);
    CharsJoin(ver, Groups(bs), sum);
    assert s + [CharOf(ver)] + CharsOf(Groups(bs)) + CharsOf(sum) == Text(hrp, data);
    i := PutChar(addr, i, '\0', Text(hrp, data));
    r := Finished(addr, i, Text(hrp, data));
  }

  lemma Untouched(addr: seq<char>)
    requires |addr| == BUFFER
    ensures Wrote(addr, 0, "")
  {
  }

  lemma CharsJoin(ver: bv8, vs: seq<bv8>, sum: seq<bv8>)
    requires ver < 32 && Five(vs) && Five(sum)
    ensures Five([ver] + vs + sum) && CharsOf([ver] + vs + sum) == [CharOf(ver)] + CharsOf(vs) + CharsOf(sum)
  {
  }

  // Copies the address out, unless its terminator lies beyond the buffer.
  method Finished(addr: array<char>, i: nat, ghost s: string) returns (r: Encoding)
    requires Wrote(addr[..], i, s + ['\0'])
    ensures r == if |s| > 90 then Overrun else Address(s)
  {
    if i > BUFFER { return Overrun; }
    assert addr[..i - 1] == s;
    r := Address(addr[..i - 1]);
  }

  lemma FedAll(fed: seq<bv32>, ver: bv8, vs: seq<bv8>)
    ensures Run(Feed(Run(1, fed), Widen(ver)), Wide(vs)) == Run(1, fed + Wide([ver] + vs))
  {
    hide Run, Feed;
    RunSnoc(1, fed, Widen(ver));
    RunConcat(1, fed + [Widen(ver)], Wide(vs));
    assert fed + Wide([ver] + vs) == fed + [Widen(ver)] + Wide(vs);
  }

  // Six empty steps, then the six values from the top.
  method CloseChecksum(chk0: bv32) returns (sum: seq<bv8>)
    ensures sum == Checksum(chk0)
  {
    hide Polymod, Slice;
    var chk := Polymod(Polymod(Polymod(Polymod(Polymod(Polymod(chk0))))));
    chk := Xor(chk, 1);
    sum := [];
    for j := 0 to 6
      invariant sum == Checksum(chk0)[..j]
    {
      sum := sum + [Slice5(chk, j)];
    }
  }

  method FindSeparator(addr: string) returns (sep: nat)
    ensures sep == LastOne(addr)
  {
    sep := |addr|;
    assert addr[..|addr|] == addr;
    while sep > 0 && (sep == |addr| || addr[sep] != '1')
      invariant sep <= |addr|
      invariant LastOne(addr) == if sep < |addr| && addr[sep] == '1' then sep else LastOne(addr[..sep])
    {
      assert addr[..sep][..sep - 1] == addr[..sep - 1];
      sep := sep - 1;
    }
  }

  // The first loop of BRBech32Decode.
  method ScanAddress(addr: string) returns (ok: bool, mixed: bool)
    ensures ok == Printable(addr) && (ok ==> mixed == MixedCase(addr))
  {
    var upper, lower := false, false;
    for i := 0 to |addr|
      invariant forall k :: 0 <= k < i ==> 33 <= addr[k] as int <= 126
      invariant upper == exists k :: 0 <= k < i && IsUpper(addr[k])
      invariant lower == exists k :: 0 <= k < i && IsLower(addr[k])
    {
      if addr[i] as int < 33 || addr[i] as int > 126 { return false, false; }
      if 'a' <= addr[i] <= 'z' { lower := true; }
      if 'A' <= addr[i] <= 'Z' { upper := true; }
    }
    return true, upper && lower;
  }

  // The buffer holds the bytes of the values read so far.
  ghost predicate Holds(buf: seq<bv8>, cs: seq<bv8>) {
    |buf| == 52 && forall m :: 0 <= m < 52 ==> buf[m] == ByteAt(cs, m)
  }

  lemma HoldsNothing(buf: seq<bv8>)
    requires |buf| == 52 && forall m :: 0 <= m < 52 ==> buf[m] == 0
    ensures Holds(buf, [])
  {
  }

  lemma OrZero(a: bv8)
    ensures Or(a, 0) == a
  {
  }

  // Byte m after value j was or-ed into the buffer.
  function Joined(was: bv8, j: nat, m: nat, c: bv8): bv8 {
    var r, i := j % 8, 5 * j / 8;
    if m == i then Or(was, Contribution(r, 5 * r / 8, c))
    else if m == i + 1 && [0, 5, 2, 7, 4, 1, 6, 3][r] > 3 then Or(was, Contribution(r, 5 * r / 8 + 1, c))
    else was
  }

  lemma HoldsMore(buf: seq<bv8>, cs: seq<bv8>, c: bv8, now: seq<bv8>)
    requires Holds(buf, cs) && |now| == 52
    requires forall m :: 0 <= m < 52 ==> now[m] == Joined(buf[m], |cs|, m, c)
    ensures Holds(now, cs + [c])
  {
    hide ByteAt, Contribution, Or, Joined;
    forall m: nat | m < 52
      ensures now[m] == ByteAt(cs + [c], m)
    {
      HoldsOne(buf[m], cs, c, m);
    }
  }

  lemma HoldsOne(was: bv8, cs: seq<bv8>, c: bv8, m: nat)
    requires was == ByteAt(cs, m)
    ensures ByteAt(cs + [c], m) == Joined(was, |cs|, m, c)
  {
    hide ByteAt, Contribution, Or;
    var r, i, q, t := |cs| % 8, 5 * |cs| / 8, m / 5, m % 5;
    assert i == 5 * (|cs| / 8) + 5 * r / 8 && 5 * r / 8 + (if [0, 5, 2, 7, 4, 1, 6, 3][r] > 3 then 1 else 0) < 5;
    OrStep(cs, c, m);
    OrZero(was);
    if q == |cs| / 8 && t != 5 * r / 8 && (t != 5 * r / 8 + 1 || [0, 5, 2, 7, 4, 1, 6, 3][r] <= 3) {
      TouchesTwo(r, t, c);
    }
  }

  method OrInto(buf: array<bv8>, c: bv8, ghost cs: seq<bv8>, j: nat)
    requires buf.Length == 52 && Holds(buf[..], cs) && j == |cs| && j <= 80 && c < 32
    modifies buf
    ensures Holds(buf[..], cs + [c])
  {
    hide ByteAt, Contribution, Holds, Or;
    ghost var was := buf[..];
    var x := BitOffset(j);
    var i := (j / 8) * 5 + (j % 8) * 5 / 8;
    assert i == 5 * j / 8;
    var first := SpreadFirst(j, c, x);
    buf[i] := Or(buf[i], first);
    if x > 3 {
      var second := SpreadSecond(j, c, x);
      buf[i + 1] := Or(buf[i + 1], second);
    }
    HoldsMore(was, cs, c, buf[..]);
  }

  // The values that have been read as data when n characters after the separator have been.
  function DataRead(tail: string, n: nat): seq<bv8>
    requires n <= |tail| && |tail| >= 7 && AllValues(tail[..n])
  {
    if n <= 1 then [] else ValuesOf(tail[..n])[1..if n <= |tail| - 6 then n else |tail| - 6]
  }

  lemma ReadOne(tail: string, n: nat)
    requires n < |tail| && |tail| >= 7 && AllValues(tail[..n]) && CharValue(Lower(tail[n])).Some?
    ensures AllValues(tail[..n + 1])
    ensures ValuesOf(tail[..n + 1]) == ValuesOf(tail[..n]) + [CharValue(Lower(tail[n])).value]
    ensures DataRead(tail, n + 1) ==
            if 1 <= n < |tail| - 6 then DataRead(tail, n) + [CharValue(Lower(tail[n])).value] else DataRead(tail, n)
    ensures 1 <= n < |tail| - 6 ==> |DataRead(tail, n)| == n - 1
  {
    hide CharValue, Lower;
    assert tail[..n + 1] == tail[..n] + [tail[n]];
  }

  lemma ValueFive(c: char)
    requires CharValue(c).Some?
    ensures CharValue(c).value < 32
  {
  }

  // The loop of BRBech32Decode over the characters after the separator.
  method ReadValues(tail: string, chk0: bv32, buf: array<bv8>) returns (ok: bool, ver: bv8, chk: bv32)
    requires 7 <= |tail| <= 88 && buf.Length == 52 && forall m :: 0 <= m < 52 ==> buf[m] == 0
    modifies buf
    ensures ok == AllValues(tail)
    ensures ok ==> ver == ValuesOf(tail)[0] && chk == Run(chk0, Wide(ValuesOf(tail)))
                   && Holds(buf[..], ValuesOf(tail)[1..|tail| - 6])
  {
    hide CharValue, Lower, Run, Feed, Wide, Holds, ByteAt;
    ok, ver, chk := true, 0xff, chk0;
    NothingFed(chk0);
    HoldsNothing(buf[..]);
    assert ValuesOf(tail[..0]) == [];
    for i := 0 to |tail|
      invariant AllValues(tail[..i]) && (i > 0 ==> ver == ValuesOf(tail[..i])[0])
      invariant chk == Run(chk0, Wide(ValuesOf(tail[..i])))
      invariant Holds(buf[..], DataRead(tail, i))
    {
      var v := CharValue(Lower(tail[i]));
      if v.None? { return false, ver, chk; }
      var c := v.value;
      ReadOne(tail, i);
      ValueFive(Lower(tail[i]));
      WideSnoc(chk0, ValuesOf(tail[..i]), c);
      chk := Feed(chk, Widen(c));
      if i == 0 { ver := c; }
      if 1 <= i && i + 6 < |tail| {
        OrInto(buf, c, DataRead(tail, i), i - 1);
      }
    }
    assert tail[..|tail|] == tail;
    NoDataLeft(tail);
  }

  lemma NoDataLeft(tail: string)
    requires |tail| >= 7 && AllValues(tail)
    ensures AllValues(tail[..|tail|]) && DataRead(tail, |tail|) == ValuesOf(tail)[1..|tail| - 6]
  {
  }

  /** BRBech32Decode */
  method Decode(addr: string) returns (r: Option<(string, seq<bv8>)>)
    ensures r == Decoded(addr)
  {
    hide Run, PrefixValues, Wide, LastOne, MixedCase, AllValues, ValuesOf, Lower, Checked, Holds;
    var ok, mixed := ScanAddress(addr);
    if !ok { return None; }
    var sep := FindSeparator(addr);
    if |addr| < 8 || |addr| > 90 || sep < 1 || sep + 2 + 6 > |addr| || mixed { return None; }
    var chk := PrefixChecksum(addr[..sep]);
    var buf := new bv8[52](_ => 0);
    var tail := addr[sep + 1..];
    var ver;
    ok, ver, chk := ReadValues(tail, chk, buf);
    if !ok { return None; }
    ghost var fed, vs := PrefixValues(addr[..sep]), ValuesOf(tail);
    RunConcat(1, fed, Wide(vs));
    var bufLen := (|addr| - (sep + 2 + 6)) * 5 / 8;
    r := Conclude(LowerAll(addr[..sep]), chk, ver, buf, bufLen, fed, vs);
  }

  // The tests of BRBech32Decode after its loops, and the copy of what it read.
  method Conclude(hrp: string, chk: bv32, ver: bv8, buf: array<bv8>, bufLen: nat, ghost fed: seq<bv32>,
                  ghost vs: seq<bv8>)
    returns (r: Option<(string, seq<bv8>)>)
    requires 7 <= |vs| <= 90 && chk == Run(1, fed + Wide(vs)) && ver == vs[0]
    requires bufLen == |Middle(vs)| * 5 / 8 && Holds(buf[..], Middle(vs))
    ensures r == Checked(hrp, fed, vs)
  {
    hide Run, Wide, ByteAt;
    if chk != 1 || ver > 16 || bufLen < 2 || bufLen > 40 { return None; }
    var op: bv8 := if ver == 0 then 0 else ver + 0x50;
    r := Some((hrp, [op, LengthByte(bufLen)] + buf[..bufLen]));
    assert buf[..bufLen] == BytesOf(Middle(vs));
  }
}
