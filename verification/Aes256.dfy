/** The in-place AES-256 block cipher of BRBIP38Key.c: decryption expands the key seven times and then un-expands it
    round by round, so that it never stores a key schedule. */
module Aes256 {

  // ---------- substitution tables, sixteen bytes a row ----------

  function SboxRow(h: bv8): bv128 {
    if h & 8 == 0 then
      if h & 4 == 0 then
        if h & 2 == 0 then
          if h & 1 == 0 then 0x637c777bf26b6fc53001672bfed7ab76 else 0xca82c97dfa5947f0add4a2af9ca472c0
        else
          if h & 1 == 0 then 0xb7fd9326363ff7cc34a5e5f171d83115 else 0x04c723c31896059a071280e2eb27b275
      else
        if h & 2 == 0 then
          if h & 1 == 0 then 0x09832c1a1b6e5aa0523bd6b329e32f84 else 0x53d100ed20fcb15b6acbbe394a4c58cf
        else
          if h & 1 == 0 then 0xd0efaafb434d338545f9027f503c9fa8 else 0x51a3408f929d38f5bcb6da2110fff3d2
    else
      if h & 4 == 0 then
        if h & 2 == 0 then
          if h & 1 == 0 then 0xcd0c13ec5f974417c4a77e3d645d1973 else 0x60814fdc222a908846eeb814de5e0bdb
        else
          if h & 1 == 0 then 0xe0323a0a4906245cc2d3ac629195e479 else 0xe7c8376d8dd54ea96c56f4ea657aae08
      else
        if h & 2 == 0 then
          if h & 1 == 0 then 0xba78252e1ca6b4c6e8dd741f4bbd8b8a else 0x703eb5664803f60e613557b986c11d9e
        else
          if h & 1 == 0 then 0xe1f8981169d98e949b1e87e9ce5528df else 0x8ca1890dbfe6426841992d0fb054bb16
  }

  function InverseRow(h: bv8): bv128 {
    if h & 8 == 0 then
      if h & 4 == 0 then
        if h & 2 == 0 then
          if h & 1 == 0 then 0x52096ad53036a538bf40a39e81f3d7fb else 0x7ce339829b2fff87348e4344c4dee9cb
        else
          if h & 1 == 0 then 0x547b9432a6c2233dee4c950b42fac34e else 0x082ea16628d924b2765ba2496d8bd125
      else
        if h & 2 == 0 then
          if h & 1 == 0 then 0x72f8f66486689816d4a45ccc5d65b692 else 0x6c704850fdedb9da5e154657a78d9d84
        else
          if h & 1 == 0 then 0x90d8ab008cbcd30af7e45805b8b34506 else 0xd02c1e8fca3f0f02c1afbd0301138a6b
    else
      if h & 4 == 0 then
        if h & 2 == 0 then
          if h & 1 == 0 then 0x3a9111414f67dcea97f2cfcef0b4e673 else 0x96ac7422e7ad3585e2f937e81c75df6e
        else
          if h & 1 == 0 then 0x47f11a711d29c5896fb7620eaa18be1b else 0xfc563e4bc6d279209adbc0fe78cd5af4
      else
        if h & 2 == 0 then
          if h & 1 == 0 then 0x1fdda8338807c731b11210592780ec5f else 0x60517fa919b54a0d2de57a9f93c99cef
        else
          if h & 1 == 0 then 0xa0e03b4dae2af5b0c8ebbb3c83539961 else 0x172b047eba77d626e169146355210c7d
  }

  // Byte c of a row, counted from the left.
  function Cell(row: bv128, c: bv8): bv8 { ((row >> (8 * (15 - (c as bv128 & 0xf)))) & 0xff) as bv8 }

  function Sub(v: bv8): bv8 { Cell(SboxRow(v >> 4), v & 0xf) }

  function Unsub(v: bv8): bv8 { Cell(InverseRow(v >> 4), v & 0xf) }

  // Addition in the field of section 4.1 of FIPS 197. Most proofs keep it hidden and rely on lemmas about it.
  function Plus(a: bv8, b: bv8): bv8 { a ^ b }

  // Multiplication by x in the field of section 4.2 of FIPS 197: the macro xt.
  function Xt(v: bv8): bv8 { (v << 1) ^ (((v >> 7) & 1) * 0x1b) }

  // Division by x: how the round constant is run backwards.
  function Unxt(v: bv8): bv8 { (v >> 1) ^ ((v & 1) * 0x8d) }

  // The product a * b in the field, a bit of b at a time.
  function Times(a: bv8, b: bv8): bv8 {
    var a1 := Xt(a);
    var a2 := Xt(a1);
    var a3 := Xt(a2);
    var a4 := Xt(a3);
    var a5 := Xt(a4);
    var a6 := Xt(a5);
    var a7 := Xt(a6);
    ((b & 1) * a) ^ (((b >> 1) & 1) * a1) ^ (((b >> 2) & 1) * a2) ^ (((b >> 3) & 1) * a3) ^
    (((b >> 4) & 1) * a4) ^ (((b >> 5) & 1) * a5) ^ (((b >> 6) & 1) * a6) ^ (((b >> 7) & 1) * a7)
  }

  function Rotate(v: bv8, n: bv8): bv8
    requires n < 8
  {
    (v << n) | (v >> (8 - n))
  }

  // The affine map of section 5.1.1 of FIPS 197 and its inverse.
  function Affine(v: bv8): bv8 { v ^ Rotate(v, 1) ^ Rotate(v, 2) ^ Rotate(v, 3) ^ Rotate(v, 4) ^ 0x63 }

  function Unaffine(v: bv8): bv8 { Rotate(v, 1) ^ Rotate(v, 3) ^ Rotate(v, 6) ^ 0x05 }

  lemma AffineUnaffine(s: bv8)
    ensures Affine(Unaffine(s)) == s
  {
  }

  /** The table is what section 5.1.1 of FIPS 197 defines: the inverse in the field (0 for 0), then the affine map. */
  lemma SubIsFieldInverse(v: bv8)
    ensures Sub(v) == Affine(Unaffine(Sub(v)))
    ensures if v == 0 then Unaffine(Sub(v)) == 0 else Times(v, Unaffine(Sub(v))) == 1
  {
    hide Affine;
    AffineUnaffine(Sub(v));
  }

  lemma UnsubSub(v: bv8)
    ensures Unsub(Sub(v)) == v
  {
  }

  // ---------- mixing a column ----------

  // One byte of a mixed column; the other three have the column rotated.
  function Mix(a: bv8, b: bv8, c: bv8, d: bv8): bv8 {
    var e := Plus(Plus(a, b), Plus(c, d));
    Plus(Plus(a, e), Xt(Plus(a, b)))
  }

  function Unmix(a: bv8, b: bv8, c: bv8, d: bv8): bv8 {
    var e := Plus(Plus(a, b), Plus(c, d));
    var f := Plus(e, Xt(Xt(Plus(Xt(e), Plus(a, c)))));
    Plus(Plus(a, f), Xt(Plus(a, b)))
  }

  lemma XtAdds(a: bv8, b: bv8)
    ensures Xt(Plus(a, b)) == Plus(Xt(a), Xt(b))
  {
  }

  lemma XtAddsFour(a: bv8, b: bv8, c: bv8, d: bv8)
    ensures Xt(Plus(Plus(a, b), Plus(c, d))) == Plus(Plus(Xt(a), Xt(b)), Plus(Xt(c), Xt(d)))
  {
    hide Xt, Plus;
    XtAdds(a, b);
    XtAdds(c, d);
    XtAdds(Plus(a, b), Plus(c, d));
  }

  lemma Turn(a: bv8, b: bv8, c: bv8, d: bv8)
    ensures Plus(Plus(b, c), Plus(d, a)) == Plus(Plus(a, b), Plus(c, d))
  {
  }

  lemma Interchange(a: bv8, b: bv8, c: bv8, d: bv8)
    ensures Plus(Plus(a, b), Plus(c, d)) == Plus(Plus(a, c), Plus(b, d))
    ensures Plus(Plus(a, b), Plus(c, d)) == Plus(a, Plus(b, Plus(c, d)))
  {
  }

  lemma Regroup(a: bv8, b: bv8, c: bv8)
    ensures Plus(Plus(a, b), c) == Plus(a, Plus(b, c)) == Plus(b, Plus(a, c))
  {
  }

  lemma CancelRight(a: bv8, b: bv8, c: bv8)
    ensures Plus(Plus(a, c), Plus(b, c)) == Plus(a, b)
  {
  }

  lemma CancelShared(a: bv8, b: bv8, e: bv8, u: bv8, v: bv8)
    ensures Plus(Plus(Plus(a, e), u), Plus(Plus(b, e), v)) == Plus(Plus(a, b), Plus(u, v))
  {
    hide Plus;
    Interchange(Plus(a, e), u, Plus(b, e), v);
    CancelRight(a, b, e);
  }

  lemma CancelMiddle(u: bv8, v: bv8, w: bv8)
    ensures Plus(Plus(u, v), Plus(v, w)) == Plus(u, w)
    ensures Plus(u, Plus(v, u)) == v
  {
  }

  lemma CancelPairs(a: bv8, e: bv8, u: bv8, v: bv8)
    ensures Plus(Plus(Plus(Plus(a, e), u), Plus(e, v)), Plus(u, v)) == a
    ensures Plus(Plus(a, Plus(u, v)), Plus(e, Plus(v, u))) == Plus(a, e)
  {
  }

  lemma MixSums(a: bv8, b: bv8, c: bv8, d: bv8)
    ensures Plus(Mix(a, b, c, d), Mix(b, c, d, a)) == Plus(Plus(a, b), Plus(Xt(a), Xt(c)))
    ensures Plus(Mix(a, b, c, d), Mix(c, d, a, b)) == Plus(Plus(a, c), Xt(Plus(Plus(a, b), Plus(c, d))))
  {
    hide Xt, Plus;
    var e := Plus(Plus(a, b), Plus(c, d));
    Turn(a, b, c, d);
    Turn(b, c, d, a);
    XtAdds(a, b);
    XtAdds(b, c);
    XtAdds(c, d);
    XtAddsFour(a, b, c, d);
    CancelShared(a, b, e, Xt(Plus(a, b)), Xt(Plus(b, c)));
    CancelMiddle(Xt(a), Xt(b), Xt(c));
    CancelShared(a, c, e, Xt(Plus(a, b)), Xt(Plus(c, d)));
  }

  lemma MixExplicit(a: bv8, b: bv8, c: bv8, d: bv8)
    ensures Mix(a, b, c, d) == Plus(Plus(a, Plus(Plus(a, b), Plus(c, d))), Plus(Xt(a), Xt(b)))
  {
  }

  /** Each byte of a column survives mixing and unmixing; the other three follow by rotating the column. */
  lemma UnmixMix(a: bv8, b: bv8, c: bv8, d: bv8)
    ensures Unmix(Mix(a, b, c, d), Mix(b, c, d, a), Mix(c, d, a, b), Mix(d, a, b, c)) == a
  {
    hide Xt, Plus, Mix;
    var p, q, r, s := Mix(a, b, c, d), Mix(b, c, d, a), Mix(c, d, a, b), Mix(d, a, b, c);
    var e, u, v := Plus(Plus(a, b), Plus(c, d)), Plus(Xt(a), Xt(b)), Plus(Xt(Xt(a)), Xt(Xt(c)));
    MixSums(a, b, c, d);
    MixSums(c, d, a, b);
    CancelPairs(Plus(a, b), Plus(c, d), Xt(a), Xt(c));
    assert Plus(Plus(p, q), Plus(r, s)) == e;
    CancelMiddle(Xt(e), Plus(a, c), Xt(e));
    assert Plus(Xt(e), Plus(p, r)) == Plus(a, c);
    XtAdds(a, c);
    XtAdds(Xt(a), Xt(c));
    XtAddsFour(a, b, Xt(a), Xt(c));
    MixExplicit(a, b, c, d);
    CancelPairs(a, e, u, v);
  }

  lemma SmallProducts(a: bv8)
    ensures Times(a, 2) == Xt(a) && Times(a, 3) == Plus(Xt(a), a)
  {
  }

  lemma TimesFourteen(a: bv8)
    ensures Times(a, 0xe) == Plus(Xt(Xt(Xt(a))), Plus(Xt(Xt(a)), Xt(a)))
  {
  }

  lemma TimesEleven(a: bv8)
    ensures Times(a, 0xb) == Plus(Xt(Xt(Xt(a))), Plus(Xt(a), a))
  {
  }

  lemma TimesThirteen(a: bv8)
    ensures Times(a, 0xd) == Plus(Xt(Xt(Xt(a))), Plus(Xt(Xt(a)), a))
  {
  }

  lemma TimesNine(a: bv8)
    ensures Times(a, 9) == Plus(Xt(Xt(Xt(a))), a)
  {
  }

  // The bytes and their multiples by x, x^2 and x^3, gathered by byte.
  lemma Gather(a: bv8, b: bv8, c: bv8, d: bv8, a1: bv8, b1: bv8, a2: bv8, c2: bv8, t: bv8)
    ensures
      var e := Plus(Plus(a, b), Plus(c, d));
      Plus(Plus(a, Plus(e, Plus(t, Plus(a2, c2)))), Plus(a1, b1)) ==
      Plus(t, Plus(Plus(Plus(a2, a1), Plus(b1, b)), Plus(Plus(c2, c), d)))
  {
    hide Plus;
    var w, y, z := Plus(a1, b1), Plus(a2, c2), Plus(b, Plus(c, d));
    calc {
      Plus(Plus(a, Plus(Plus(Plus(a, b), Plus(c, d)), Plus(t, y))), w);
      { DropFirst(a, b, Plus(c, d), Plus(t, y)); }
      Plus(Plus(z, Plus(t, y)), w);
      { Regroup(z, t, y); Regroup(t, Plus(z, y), w); }
      Plus(t, Plus(Plus(z, y), w));
    }
    calc {
      Plus(Plus(Plus(a2, a1), Plus(b1, b)), Plus(Plus(c2, c), d));
      { Regroup(Plus(a2, a1), b1, b); Regroup(a2, a1, b1); }
      Plus(Plus(Plus(a2, w), b), Plus(Plus(c2, c), d));
      { Interchange(Plus(a2, w), b, Plus(c2, c), d); Interchange(a2, w, c2, c); }
      Plus(Plus(y, Plus(w, c)), Plus(b, d));
      { Last(y, w, c, Plus(b, d)); Regroup(c, b, d); }
      Plus(Plus(z, y), w);
    }
  }

  lemma DropFirst(a: bv8, b: bv8, c: bv8, d: bv8)
    ensures Plus(a, Plus(Plus(Plus(a, b), c), d)) == Plus(Plus(b, c), d)
  {
  }

  lemma Last(a: bv8, b: bv8, c: bv8, d: bv8)
    ensures Plus(Plus(a, Plus(b, c)), d) == Plus(Plus(Plus(c, d), a), b)
  {
  }

  /** The shortcuts are the matrices of sections 5.1.3 and 5.3.3 of FIPS 197. */
  lemma MixIsMatrix(a: bv8, b: bv8, c: bv8, d: bv8)
    ensures Mix(a, b, c, d) == Plus(Plus(Times(a, 2), Times(b, 3)), Plus(c, d))
    ensures Unmix(a, b, c, d) == Plus(Plus(Times(a, 0xe), Times(b, 0xb)), Plus(Times(c, 0xd), Times(d, 9)))
  {
    hide Xt, Times, Plus;
    var a1, b1, c1, d1 := Xt(a), Xt(b), Xt(c), Xt(d);
    var a2, b2, c2, d2 := Xt(a1), Xt(b1), Xt(c1), Xt(d1);
    var a3, b3, c3, d3 := Xt(a2), Xt(b2), Xt(c2), Xt(d2);
    SmallProducts(a);
    SmallProducts(b);
    MixExplicit(a, b, c, d);
    MixGathers(a, b, c, d, a1, b1);
    TimesFourteen(a);
    TimesEleven(b);
    TimesThirteen(c);
    TimesNine(d);
    XtAdds(a, b);
    XtAddsFour(a, b, c, d);
    XtAddsFour(a1, b1, c1, d1);
    XtAddsFour(a2, b2, c2, d2);
    XtAdds(a, c);
    XtAdds(a1, c1);
    XtAdds(Xt(Plus(Plus(a, b), Plus(c, d))), Plus(a, c));
    XtAdds(Plus(Plus(a2, b2), Plus(c2, d2)), Plus(a1, c1));
    Gather(a, b, c, d, a1, b1, a2, c2, Plus(Plus(a3, b3), Plus(c3, d3)));
    Interchange(a3, Plus(a2, a1), b3, Plus(b1, b));
    Interchange(c3, Plus(c2, c), d3, d);
    Interchange(Plus(a3, b3), Plus(Plus(a2, a1), Plus(b1, b)), Plus(c3, d3), Plus(Plus(c2, c), d));
  }

  lemma MixGathers(a: bv8, b: bv8, c: bv8, d: bv8, a1: bv8, b1: bv8)
    ensures Plus(Plus(a, Plus(Plus(a, b), Plus(c, d))), Plus(a1, b1)) == Plus(Plus(a1, Plus(b1, b)), Plus(c, d))
  {
    hide Plus;
    var y := Plus(c, d);
    DropOne(a, b, y);
    Regroup(a1, b1, b);
    Swap(Plus(a1, b1), b, y);
  }

  lemma DropOne(a: bv8, b: bv8, c: bv8)
    ensures Plus(a, Plus(Plus(a, b), c)) == Plus(b, c)
  {
  }

  lemma Swap(a: bv8, b: bv8, c: bv8)
    ensures Plus(Plus(b, c), a) == Plus(Plus(a, b), c)
  {
  }

  // ---------- the key, expanded in place ----------

  // Byte j of the key that follows key k in the schedule.
  function NextByte(k: seq<bv8>, r: bv8, j: nat): bv8
    requires |k| == 32 && j < 32
  {
    if j == 0 then Plus(k[0], Plus(Sub(k[29]), r))
    else if j < 4 then Plus(k[j], Sub(k[28 + (j + 1) % 4]))
    else if 16 <= j < 20 then Plus(k[j], Sub(NextByte(k, r, j - 4)))
    else Plus(k[j], NextByte(k, r, j - 4))
  }

  function Expand(k: seq<bv8>, r: bv8): seq<bv8>
    requires |k| == 32
  {
    seq(32, j requires 0 <= j < 32 => NextByte(k, r, j))
  }

  // Byte j of the key before key k in the schedule.
  function LastByte(k: seq<bv8>, r: bv8, j: nat): bv8
    requires |k| == 32 && j < 32
    decreases 32 - j
  {
    if j == 0 then Plus(k[0], Plus(Sub(LastByte(k, r, 29)), r))
    else if j < 4 then Plus(k[j], Sub(LastByte(k, r, 28 + (j + 1) % 4)))
    else if 16 <= j < 20 then Plus(k[j], Sub(k[j - 4]))
    else Plus(k[j], k[j - 4])
  }

  function Unexpand(k: seq<bv8>, r: bv8): seq<bv8>
    requires |k| == 32
  {
    seq(32, j requires 0 <= j < 32 => LastByte(k, r, j))
  }

  lemma PlusTwice(a: bv8, b: bv8)
    ensures Plus(Plus(a, b), b) == a
  {
  }

  lemma UnexpandExpand(k: seq<bv8>, r: bv8)
    requires |k| == 32
    ensures Unexpand(Expand(k, r), r) == k
  {
    hide Sub, Plus;
    var n := Expand(k, r);
    forall j: nat | j < 32
      ensures LastByte(n, r, j) == k[j]
    {
      LastByteOfExpanded(k, r, j);
    }
  }

  lemma {:induction false} LastByteOfExpanded(k: seq<bv8>, r: bv8, j: nat)
    requires |k| == 32 && j < 32
    ensures LastByte(Expand(k, r), r, j) == k[j]
    decreases 32 - j
  {
    hide Sub, Plus;
    var n := Expand(k, r);
    if j < 4 {
      var z := 28 + (j + 1) % 4;
      LastByteOfExpanded(k, r, z);
      PlusTwice(k[j], if j == 0 then Plus(Sub(k[29]), r) else Sub(k[z]));
    } else {
      PlusTwice(k[j], if 16 <= j < 20 then Sub(n[j - 4]) else n[j - 4]);
    }
  }

  // The round constant after n expansions.
  function Rcon(n: nat): bv8 { if n == 0 then 1 else Xt(Rcon(n - 1)) }

  /** The round constants of section 5.2 of FIPS 197. */
  lemma RoundConstants()
    ensures Rcon(0) == 0x01 && Rcon(1) == 0x02 && Rcon(2) == 0x04 && Rcon(3) == 0x08
    ensures Rcon(4) == 0x10 && Rcon(5) == 0x20 && Rcon(6) == 0x40
  {
    assert Rcon(3) == 0x08;
  }

  // The 32 key bytes after n expansions.
  function KeyAt(key: seq<bv8>, n: nat): (k: seq<bv8>)
    requires |key| == 32
    ensures |k| == 32
  {
    if n == 0 then key else Expand(KeyAt(key, n - 1), Rcon(n - 1))
  }

  // The sixteen bytes of round key n.
  function RoundKey(key: seq<bv8>, n: nat): (k: seq<bv8>)
    requires |key| == 32
    ensures |k| == 16
  {
    KeyAt(key, n / 2)[16 * (n % 2)..16 * (n % 2) + 16]
  }

  // Byte p of the key schedule of section 5.2 of FIPS 197: the first bytes of every eighth word are rotated,
  // substituted and get the round constant, and the fourth word after it is substituted.
  function ScheduleByte(key: seq<bv8>, p: nat): bv8
    requires |key| == 32
  {
    if p < 32 then key[p]
    else
      var j := p % 32;
      var temp :=
        if j == 0 then Plus(Sub(ScheduleByte(key, p - 3)), Rcon(p / 32 - 1))
        else if j < 4 then Sub(ScheduleByte(key, p - 4 - j + (j + 1) % 4))
        else if 16 <= j < 20 then Sub(ScheduleByte(key, p - 4))
        else ScheduleByte(key, p - 4);
      Plus(ScheduleByte(key, p - 32), temp)
  }

  lemma KeyByte(key: seq<bv8>, n: nat, j: nat)
    requires |key| == 32 && j < 32 && n > 0
    ensures KeyAt(key, n)[j] == NextByte(KeyAt(key, n - 1), Rcon(n - 1), j)
    ensures
      var k, next := KeyAt(key, n - 1), KeyAt(key, n);
      var temp :=
        if j == 0 then Plus(Sub(k[29]), Rcon(n - 1)) else if j < 4 then Sub(k[28 + (j + 1) % 4])
        else if 16 <= j < 20 then Sub(next[j - 4]) else next[j - 4];
      next[j] == Plus(k[j], temp)
  {
  }

  lemma ScheduleOnce(key: seq<bv8>, n: nat, j: nat)
    requires |key| == 32 && j < 32 && n > 0
    ensures
      var was, now := 32 * (n - 1), 32 * n;
      var temp :=
        if j == 0 then Plus(Sub(ScheduleByte(key, was + 29)), Rcon(n - 1))
        else if j < 4 then Sub(ScheduleByte(key, was + (28 + (j + 1) % 4)))
        else if 16 <= j < 20 then Sub(ScheduleByte(key, now + (j - 4)))
        else ScheduleByte(key, now + (j - 4));
      ScheduleByte(key, now + j) == Plus(ScheduleByte(key, was + j), temp)
  {
    hide Sub, Plus, Rcon;
    var p := 32 * n + j;
    assert p / 32 == n && p % 32 == j;
    assert p - 4 - j + (j + 1) % 4 == 32 * (n - 1) + (28 + (j + 1) % 4);
  }

  /** Expanding the 32 bytes in place runs through the key schedule of FIPS 197, eight words at a time. */
  lemma {:induction false} KeysAreSchedule(key: seq<bv8>, n: nat, j: nat)
    requires |key| == 32 && j < 32
    ensures KeyAt(key, n)[j] == ScheduleByte(key, 32 * n + j)
    decreases n, j
  {
    hide Sub, Plus, KeyAt, NextByte, Expand, Rcon, ScheduleByte;
    if n == 0 {
      KeyAtStart(key);
      ScheduleStart(key, j);
    } else {
      KeysAreSchedule(key, n - 1, j);
      KeyByte(key, n, j);
      ScheduleOnce(key, n, j);
      if j < 4 {
        KeysAreSchedule(key, n - 1, 28 + (j + 1) % 4);
      } else {
        KeysAreSchedule(key, n, j - 4);
      }
    }
  }

  lemma ScheduleStart(key: seq<bv8>, j: nat)
    requires |key| == 32 && j < 32
    ensures ScheduleByte(key, j) == key[j]
  {
  }

  lemma KeyAtStart(key: seq<bv8>)
    requires |key| == 32
    ensures KeyAt(key, 0) == key
  {
  }

  lemma RoundKeysAreSchedule(key: seq<bv8>, n: nat, j: nat)
    requires |key| == 32 && j < 16
    ensures RoundKey(key, n)[j] == ScheduleByte(key, 16 * n + j)
  {
    KeysAreSchedule(key, n / 2, 16 * (n % 2) + j);
  }

  // ---------- rounds ----------

  type Block = x: seq<bv8> | |x| == 16 witness seq(16, j => 0)

  function AddKey(x: Block, k: Block): Block { seq(16, j requires 0 <= j < 16 => Plus(x[j], k[j])) }

  function SubBytes(x: Block): Block { seq(16, j requires 0 <= j < 16 => Sub(x[j])) }

  function UnsubBytes(x: Block): Block { seq(16, j requires 0 <= j < 16 => Unsub(x[j])) }

  function ShiftRows(x: Block): Block {
    [x[0], x[5], x[10], x[15], x[4], x[9], x[14], x[3], x[8], x[13], x[2], x[7], x[12], x[1], x[6], x[11]]
  }

  function UnshiftRows(x: Block): Block {
    [x[0], x[13], x[10], x[7], x[4], x[1], x[14], x[11], x[8], x[5], x[2], x[15], x[12], x[9], x[6], x[3]]
  }

  /** Byte r + 4 * c is row r of column c, and row r moves r columns to the left: section 5.1.2 of FIPS 197. */
  lemma RowsRotate(x: Block, r: nat, c: nat)
    requires r < 4 && c < 4
    ensures ShiftRows(x)[r + 4 * c] == x[r + 4 * ((c + r) % 4)]
  {
  }

  function MixColumn(x: Block, q: nat): (y: seq<bv8>)
    requires q <= 12
    ensures |y| == 4
  {
    var a, b, c, d := x[q], x[q + 1], x[q + 2], x[q + 3];
    [Mix(a, b, c, d), Mix(b, c, d, a), Mix(c, d, a, b), Mix(d, a, b, c)]
  }

  function UnmixColumn(x: Block, q: nat): (y: seq<bv8>)
    requires q <= 12
    ensures |y| == 4
  {
    var a, b, c, d := x[q], x[q + 1], x[q + 2], x[q + 3];
    [Unmix(a, b, c, d), Unmix(b, c, d, a), Unmix(c, d, a, b), Unmix(d, a, b, c)]
  }

  function MixColumns(x: Block): Block { MixColumn(x, 0) + MixColumn(x, 4) + MixColumn(x, 8) + MixColumn(x, 12) }

  function UnmixColumns(x: Block): Block {
    hide UnmixColumn;
    UnmixColumn(x, 0) + UnmixColumn(x, 4) + UnmixColumn(x, 8) + UnmixColumn(x, 12)
  }

  lemma LayersInvert(x: Block, k: Block)
    ensures AddKey(AddKey(x, k), k) == x
    ensures UnsubBytes(SubBytes(x)) == x
    ensures UnshiftRows(ShiftRows(x)) == x
  {
    hide Sub, Unsub, Plus;
    forall j | 0 <= j < 16
      ensures Plus(Plus(x[j], k[j]), k[j]) == x[j] && Unsub(Sub(x[j])) == x[j]
    {
      PlusTwice(x[j], k[j]);
      UnsubSub(x[j]);
    }
  }

  lemma UnmixMixColumn(x: Block, y: Block, q: nat)
    requires q <= 12 && y[q..q + 4] == MixColumn(x, q)
    ensures UnmixColumn(y, q) == x[q..q + 4]
  {
    hide Mix, Unmix;
    var a, b, c, d := x[q], x[q + 1], x[q + 2], x[q + 3];
    assert y[q] == y[q..q + 4][0] && y[q + 1] == y[q..q + 4][1]
           && y[q + 2] == y[q..q + 4][2] && y[q + 3] == y[q..q + 4][3];
    UnmixMix(a, b, c, d);
    UnmixMix(b, c, d, a);
    UnmixMix(c, d, a, b);
    UnmixMix(d, a, b, c);
  }

  lemma UnmixMixColumns(x: Block)
    ensures UnmixColumns(MixColumns(x)) == x
  {
    var y := MixColumns(x);
    hide MixColumn, UnmixColumn;
    UnmixMixColumn(x, y, 0);
    UnmixMixColumn(x, y, 4);
    UnmixMixColumn(x, y, 8);
    UnmixMixColumn(x, y, 12);
    assert x == x[0..4] + x[4..8] + x[8..12] + x[12..16];
  }

  // The block after n rounds of the cipher of section 5.1 of FIPS 197; the last round does not mix columns.
  function Rounds(key: seq<bv8>, x: Block, n: nat): Block
    requires |key| == 32 && n <= 14
  {
    if n == 0 then x
    else
      var y := ShiftRows(SubBytes(AddKey(Rounds(key, x, n - 1), RoundKey(key, n - 1))));
      if n < 14 then MixColumns(y) else y
  }

  function Encrypted(key: seq<bv8>, x: Block): Block
    requires |key| == 32
  {
    AddKey(Rounds(key, x, 14), RoundKey(key, 14))
  }

  // What round n + 1 brings to row r of column c before mixing: the substituted sum of a byte and its key byte, from
  // the same row r columns to the right.
  function Brought(key: seq<bv8>, x: Block, n: nat, r: nat, c: nat): bv8
    requires |key| == 32 && n < 14 && r < 4 && c < 4
  {
    var i := r + 4 * ((c + r) % 4);
    Sub(Plus(Rounds(key, x, n)[i], ScheduleByte(key, 16 * n + i)))
  }

  /** The cipher byte by byte, as section 5.1 of FIPS 197 has it: every round but the last mixes the four bytes brought
      to a column with the coefficients 2, 3, 1, 1. */
  lemma RoundBytes(key: seq<bv8>, x: Block, n: nat, r: nat, c: nat)
    requires |key| == 32 && n < 14 && r < 4 && c < 4
    ensures Rounds(key, x, n + 1)[r + 4 * c] ==
            if n == 13 then Brought(key, x, n, r, c)
            else Plus(Plus(Times(Brought(key, x, n, r, c), 2), Times(Brought(key, x, n, (r + 1) % 4, c), 3)),
                      Plus(Brought(key, x, n, (r + 2) % 4, c), Brought(key, x, n, (r + 3) % 4, c)))
  {
    hide Sub, Plus, Times, Mix, RoundKey, ScheduleByte, ShiftRows, MixColumns;
    var z := SubBytes(AddKey(Rounds(key, x, n), RoundKey(key, n)));
    var y := ShiftRows(z);
    forall q: nat | q < 4
      ensures y[q + 4 * c] == Brought(key, x, n, q, c)
    {
      RowsRotate(z, q, c);
      RoundKeysAreSchedule(key, n, q + 4 * ((c + q) % 4));
    }
    if n < 13 {
      MixedByte(y, r, c);
    }
  }

  lemma MixedByte(y: Block, r: nat, c: nat)
    requires r < 4 && c < 4
    ensures MixColumns(y)[r + 4 * c] ==
            Plus(Plus(Times(y[r + 4 * c], 2), Times(y[(r + 1) % 4 + 4 * c], 3)),
                 Plus(y[(r + 2) % 4 + 4 * c], y[(r + 3) % 4 + 4 * c]))
  {
    hide Plus, Times, Mix;
    var q := 4 * c;
    MixIsMatrix(y[r + q], y[(r + 1) % 4 + q], y[(r + 2) % 4 + q], y[(r + 3) % 4 + q]);
    MixColumnAt(y, r, c);
  }

  lemma MixColumnAt(y: Block, r: nat, c: nat)
    requires r < 4 && c < 4
    ensures MixColumns(y)[r + 4 * c] ==
            Mix(y[r + 4 * c], y[(r + 1) % 4 + 4 * c], y[(r + 2) % 4 + 4 * c], y[(r + 3) % 4 + 4 * c])
  {
    hide *;
    ColumnsApart(y);
    MixColumnRow(y, 4 * c, r);
    var z := MixColumns(y);
    match c
    case 0 => assert z[r] == z[0..4][r];
    case 1 => assert z[r + 4] == z[4..8][r];
    case 2 => assert z[r + 8] == z[8..12][r];
    case _ => assert z[r + 12] == z[12..16][r];
  }

  lemma MixColumnRow(y: Block, q: nat, r: nat)
    requires q <= 12 && r < 4
    ensures MixColumn(y, q)[r] == Mix(y[r + q], y[(r + 1) % 4 + q], y[(r + 2) % 4 + q], y[(r + 3) % 4 + q])
  {
    hide Mix;
    assert r == 0 || r == 1 || r == 2 || r == 3;
  }

  /** And the last key is added byte by byte to what the rounds leave; the first starts from the block itself. */
  lemma EncryptedBytes(key: seq<bv8>, x: Block, j: nat)
    requires |key| == 32 && j < 16
    ensures Rounds(key, x, 0) == x
    ensures Encrypted(key, x)[j] == Plus(Rounds(key, x, 14)[j], ScheduleByte(key, 224 + j))
  {
    hide Plus, RoundKey, ScheduleByte;
    RoundKeysAreSchedule(key, 14, j);
  }

  // The block after n rounds of decryption, which takes the round keys backwards.
  function RoundsBack(key: seq<bv8>, y: Block, n: nat): Block
    requires |key| == 32 && n <= 14
  {
    if n == 0 then y
    else
      var x := AddKey(RoundsBack(key, y, n - 1), RoundKey(key, 15 - n));
      UnsubBytes(UnshiftRows(if n > 1 then UnmixColumns(x) else x))
  }

  function Decrypted(key: seq<bv8>, y: Block): Block
    requires |key| == 32
  {
    AddKey(RoundsBack(key, y, 14), RoundKey(key, 0))
  }

  lemma {:induction false} RoundsUndone(key: seq<bv8>, x: Block, n: nat)
    requires |key| == 32 && n <= 14
    ensures RoundsBack(key, Encrypted(key, x), n) == AddKey(Rounds(key, x, 14 - n), RoundKey(key, 14 - n))
  {
    hide AddKey, SubBytes, UnsubBytes, ShiftRows, UnshiftRows, MixColumns, UnmixColumns, RoundKey;
    if n > 0 {
      RoundsUndone(key, x, n - 1);
      var before, k := Rounds(key, x, 14 - n), RoundKey(key, 14 - n);
      LayersInvert(Rounds(key, x, 15 - n), RoundKey(key, 15 - n));
      LayersInvert(AddKey(before, k), k);
      LayersInvert(SubBytes(AddKey(before, k)), k);
      UnmixMixColumns(ShiftRows(SubBytes(AddKey(before, k))));
    }
  }

  /** Decryption undoes encryption, for every key and every block. */
  lemma DecryptUndoesEncrypt(key: seq<bv8>, x: Block)
    requires |key| == 32
    ensures Decrypted(key, Encrypted(key, x)) == x
  {
    hide AddKey, RoundsBack, RoundKey;
    RoundsUndone(key, x, 14);
    LayersInvert(x, RoundKey(key, 0));
  }

  // ---------- the code ----------

  // The first four key bytes take in the last word, rotated and substituted, and the round constant.
  method CrossEnds(k: array<bv8>, r: bv8)
    requires k.Length == 32
    modifies k
    ensures forall j | 4 <= j < 32 :: k[j] == old(k[j])
    ensures k[0] == Plus(old(k[0]), Plus(Sub(old(k[29])), r)) && k[1] == Plus(old(k[1]), Sub(old(k[30])))
    ensures k[2] == Plus(old(k[2]), Sub(old(k[31]))) && k[3] == Plus(old(k[3]), Sub(old(k[28])))
  {
    hide Sub, Plus;
    k[0] := Plus(k[0], Plus(Sub(k[29]), r));
    k[1] := Plus(k[1], Sub(k[30]));
    k[2] := Plus(k[2], Sub(k[31]));
    k[3] := Plus(k[3], Sub(k[28]));
  }

  method CrossMiddle(k: array<bv8>)
    requires k.Length == 32
    modifies k
    ensures forall j | 0 <= j < 32 ::
      k[j] == if 16 <= j < 20 then Plus(old(k[j]), Sub(old(k[j - 4]))) else old(k[j])
  {
    hide Sub, Plus;
    k[16] := Plus(k[16], Sub(k[12]));
    k[17] := Plus(k[17], Sub(k[13]));
    k[18] := Plus(k[18], Sub(k[14]));
    k[19] := Plus(k[19], Sub(k[15]));
  }

  // For lo <= j < hi, upwards, k[j] takes in k[j - 4].
  method XorAhead(k: array<bv8>, lo: nat, hi: nat, ghost was: seq<bv8>, r: bv8)
    requires k.Length == 32 && |was| == 32 && ((lo == 4 && hi == 16) || (lo == 20 && hi == 32))
    requires forall j | 0 <= j < 32 :: k[j] == if j < lo then NextByte(was, r, j) else was[j]
    modifies k
    ensures forall j | 0 <= j < 32 :: k[j] == if j < hi then NextByte(was, r, j) else was[j]
  {
    hide Sub, Plus;
    for j := lo to hi
      invariant forall i | 0 <= i < 32 :: k[i] == if i < j then NextByte(was, r, i) else was[i]
    {
      k[j] := Plus(k[j], k[j - 4]);
    }
  }

  method ExpandKey(k: array<bv8>, r: bv8)
    requires k.Length == 32
    modifies k
    ensures k[..] == Expand(old(k[..]), r)
  {
    hide Sub, Plus;
    ghost var was := k[..];
    CrossEnds(k, r);
    XorAhead(k, 4, 16, was, r);
    CrossMiddle(k);
    XorAhead(k, 20, 32, was, r);
  }

  // For lo <= j < hi, downwards, k[j] takes in k[j - 4].
  method XorBehind(k: array<bv8>, lo: nat, hi: nat, ghost was: seq<bv8>, r: bv8)
    requires k.Length == 32 && |was| == 32 && ((lo == 4 && hi == 16) || (lo == 20 && hi == 32))
    requires forall j | 0 <= j < 32 :: k[j] == if j < hi then was[j] else LastByte(was, r, j)
    modifies k
    ensures forall j | 0 <= j < 32 :: k[j] == if j < lo then was[j] else LastByte(was, r, j)
  {
    hide Sub, Plus;
    var j := hi - 4;
    while j > lo - 4
      invariant lo - 4 <= j <= hi - 4
      invariant forall i | 0 <= i < 32 :: k[i] == if i < j + 4 then was[i] else LastByte(was, r, i)
    {
      k[j + 3] := Plus(k[j + 3], k[j - 1]);
      j := j - 1;
    }
  }

  lemma LastByteCases(k: seq<bv8>, r: bv8)
    requires |k| == 32
    ensures forall j | 16 <= j < 20 :: LastByte(k, r, j) == Plus(k[j], Sub(k[j - 4]))
    ensures LastByte(k, r, 0) == Plus(k[0], Plus(Sub(LastByte(k, r, 29)), r))
    ensures LastByte(k, r, 1) == Plus(k[1], Sub(LastByte(k, r, 30)))
    ensures LastByte(k, r, 2) == Plus(k[2], Sub(LastByte(k, r, 31)))
    ensures LastByte(k, r, 3) == Plus(k[3], Sub(LastByte(k, r, 28)))
  {
    hide Sub, Plus;
  }

  method UnexpandKey(k: array<bv8>, r: bv8)
    requires k.Length == 32
    modifies k
    ensures k[..] == Unexpand(old(k[..]), r)
  {
    hide Sub, Plus, LastByte;
    ghost var was := k[..];
    LastByteCases(was, r);
    XorBehind(k, 20, 32, was, r);
    CrossMiddle(k);
    XorBehind(k, 4, 16, was, r);
    CrossEnds(k, r);
  }

  // The code works on four words; this is the same exclusive or a byte at a time.
  method AddRoundKey(x: array<bv8>, k: array<bv8>, half: nat)
    requires x.Length == 16 && k.Length == 32 && half < 2
    modifies x
    ensures x[..] == AddKey(old(x[..]), k[16 * half..16 * half + 16])
  {
    hide Plus;
    for j := 0 to 16
      invariant forall i | 0 <= i < 16 :: x[i] == if i < j then Plus(old(x[i]), k[16 * half + i]) else old(x[i])
    {
      x[j] := Plus(x[j], k[16 * half + j]);
    }
  }

  method Substitute(x: array<bv8>)
    requires x.Length == 16
    modifies x
    ensures x[..] == SubBytes(old(x[..]))
  {
    hide Sub;
    for j := 0 to 16
      invariant forall i | 0 <= i < 16 :: x[i] == if i < j then Sub(old(x[i])) else old(x[i])
    {
      x[j] := Sub(x[j]);
    }
  }

  method Unsubstitute(x: array<bv8>)
    requires x.Length == 16
    modifies x
    ensures x[..] == UnsubBytes(old(x[..]))
  {
    hide Unsub;
    for j := 0 to 16
      invariant forall i | 0 <= i < 16 :: x[i] == if i < j then Unsub(old(x[i])) else old(x[i])
    {
      x[j] := Unsub(x[j]);
    }
  }

  // Each of the four bytes takes the value of the next one.
  method Cycle(x: array<bv8>, i: nat, j: nat, k: nat, l: nat)
    requires x.Length == 16 && |{i, j, k, l}| == 4 && i < 16 && j < 16 && k < 16 && l < 16
    modifies x
    ensures x[..] == old(x[..])[i := old(x[j])][j := old(x[k])][k := old(x[l])][l := old(x[i])]
  {
    var a := x[i];
    x[i] := x[j];
    x[j] := x[k];
    x[k] := x[l];
    x[l] := a;
  }

  method Shift(x: array<bv8>)
    requires x.Length == 16
    modifies x
    ensures x[..] == ShiftRows(old(x[..]))
  {
    Cycle(x, 1, 5, 9, 13);
    x[10], x[2] := x[2], x[10];
    Cycle(x, 3, 15, 11, 7);
    x[14], x[6] := x[6], x[14];
  }

  method Unshift(x: array<bv8>)
    requires x.Length == 16
    modifies x
    ensures x[..] == UnshiftRows(old(x[..]))
  {
    Cycle(x, 1, 13, 9, 5);
    x[2], x[10] := x[10], x[2];
    Cycle(x, 3, 7, 11, 15);
    x[6], x[14] := x[14], x[6];
  }

  lemma ColumnsApart(y: Block)
    ensures MixColumns(y)[0..4] == MixColumn(y, 0) && MixColumns(y)[4..8] == MixColumn(y, 4)
    ensures MixColumns(y)[8..12] == MixColumn(y, 8) && MixColumns(y)[12..16] == MixColumn(y, 12)
    ensures UnmixColumns(y)[0..4] == UnmixColumn(y, 0) && UnmixColumns(y)[4..8] == UnmixColumn(y, 4)
    ensures UnmixColumns(y)[8..12] == UnmixColumn(y, 8) && UnmixColumns(y)[12..16] == UnmixColumn(y, 12)
  {
    hide MixColumn, UnmixColumn;
  }

  lemma ColumnAt(x: Block, y: Block, j: nat)
    requires (j == 0 || j == 4 || j == 8 || j == 12) && x[j..] == y[j..]
    ensures MixColumn(x, j) == MixColumn(y, j) == MixColumns(y)[j..j + 4]
    ensures UnmixColumn(x, j) == UnmixColumn(y, j) == UnmixColumns(y)[j..j + 4]
  {
    hide Mix, Unmix, MixColumns, UnmixColumns;
    assert x[j] == x[j..][0] && x[j + 1] == x[j..][1] && x[j + 2] == x[j..][2] && x[j + 3] == x[j..][3];
    assert y[j] == y[j..][0] && y[j + 1] == y[j..][1] && y[j + 2] == y[j..][2] && y[j + 3] == y[j..][3];
    ColumnsApart(y);
  }

  method MixAll(x: array<bv8>)
    requires x.Length == 16
    modifies x
    ensures x[..] == MixColumns(old(x[..]))
  {
    hide MixColumn;
    ghost var was := x[..];
    var j := 0;
    while j < 16
      invariant j % 4 == 0 && j <= 16
      invariant x[j..] == was[j..]
      invariant x[..j] == MixColumns(was)[..j]
    {
      ColumnAt(x[..], was, j);
      MixOne(x, j);
      j := j + 4;
    }
  }

  method MixOne(x: array<bv8>, j: nat)
    requires x.Length == 16 && j <= 12
    modifies x
    ensures x[..] == old(x[..j]) + MixColumn(old(x[..]), j) + old(x[j + 4..])
  {
    hide Xt, Plus;
    var a, b, c, d := x[j], x[j + 1], x[j + 2], x[j + 3];
    var e := Plus(Plus(a, b), Plus(c, d));
    Turn(a, b, c, d);
    Turn(b, c, d, a);
    Turn(c, d, a, b);
    x[j], x[j + 1] := Plus(Plus(a, e), Xt(Plus(a, b))), Plus(Plus(b, e), Xt(Plus(b, c)));
    x[j + 2], x[j + 3] := Plus(Plus(c, e), Xt(Plus(c, d))), Plus(Plus(d, e), Xt(Plus(d, a)));
  }

  method UnmixAll(x: array<bv8>)
    requires x.Length == 16
    modifies x
    ensures x[..] == UnmixColumns(old(x[..]))
  {
    hide UnmixColumn;
    ghost var was := x[..];
    var j := 0;
    while j < 16
      invariant j % 4 == 0 && j <= 16
      invariant x[j..] == was[j..]
      invariant x[..j] == UnmixColumns(was)[..j]
    {
      ColumnAt(x[..], was, j);
      UnmixOne(x, j);
      j := j + 4;
    }
  }

  method UnmixOne(x: array<bv8>, j: nat)
    requires x.Length == 16 && j <= 12
    modifies x
    ensures x[..] == old(x[..j]) + UnmixColumn(old(x[..]), j) + old(x[j + 4..])
  {
    hide Xt, Plus;
    var a, b, c, d := x[j], x[j + 1], x[j + 2], x[j + 3];
    var e := Plus(Plus(a, b), Plus(c, d));
    Turn(a, b, c, d);
    Turn(b, c, d, a);
    Turn(c, d, a, b);
    Commute(a, c);
    Commute(b, d);
    var h := Xt(e);
    var f, g := Plus(e, Xt(Xt(Plus(h, Plus(a, c))))), Plus(e, Xt(Xt(Plus(h, Plus(b, d)))));
    x[j], x[j + 1] := Plus(Plus(a, f), Xt(Plus(a, b))), Plus(Plus(b, g), Xt(Plus(b, c)));
    x[j + 2], x[j + 3] := Plus(Plus(c, f), Xt(Plus(c, d))), Plus(Plus(d, g), Xt(Plus(d, a)));
  }

  lemma Commute(a: bv8, b: bv8)
    ensures Plus(a, b) == Plus(b, a)
  {
  }

  // What round i of encryption does to the block.
  method EncryptRound(x: array<bv8>, k: array<bv8>, i: nat, ghost key: seq<bv8>, ghost block: Block)
    requires x.Length == 16 && k.Length == 32 && |key| == 32 && i < 14
    requires k[..] == KeyAt(key, i / 2) && x[..] == Rounds(key, block, i)
    modifies x
    ensures x[..] == Rounds(key, block, i + 1)
  {
    hide AddKey, SubBytes, ShiftRows, MixColumns, KeyAt;
    assert k[16 * (i % 2)..16 * (i % 2) + 16] == RoundKey(key, i);
    AddRoundKey(x, k, i % 2);
    Substitute(x);
    Shift(x);
    if i < 13 {
      MixAll(x);
    }
  }

  /** _BRAES256ECBEncrypt: the key runs forwards, one expansion every second round. */
  method Encrypt(key32: array<bv8>, buf16: array<bv8>)
    requires key32.Length == 32 && buf16.Length == 16
    modifies buf16
    ensures buf16[..] == Encrypted(key32[..], old(buf16[..]))
  {
    hide AddKey, SubBytes, ShiftRows, MixColumns, Expand, Xt;
    ghost var key, block := key32[..], buf16[..];
    var k := Copy(key32);
    var x := Copy(buf16);
    var r: bv8 := 1;
    for i := 0 to 14
      invariant k.Length == 32 && k[..] == KeyAt(key, i / 2) && r == Rcon(i / 2)
      invariant x.Length == 16 && x[..] == Rounds(key, block, i)
    {
      EncryptRound(x, k, i, key, block);
      if i % 2 != 0 {
        ExpandKey(k, r);
        r := Xt(r);
      }
    }
    assert k[0..16] == RoundKey(key, 14);
    AddRoundKey(x, k, 0);
    forall j | 0 <= j < 16 {
      buf16[j] := x[j];
    }
    assert buf16[..] == x[..] && key32[..] == key;
  }

  method Copy(a: array<bv8>) returns (b: array<bv8>)
    ensures fresh(b) && b[..] == a[..]
  {
    b := new bv8[a.Length];
    forall j | 0 <= j < a.Length {
      b[j] := a[j];
    }
  }

  method ExpandSeven(k: array<bv8>, r0: bv8) returns (r: bv8)
    requires k.Length == 32 && r0 == 1
    modifies k
    ensures k[..] == KeyAt(old(k[..]), 7) && r == Rcon(7)
  {
    hide Expand, Xt;
    r := r0;
    for i := 0 to 7
      invariant k[..] == KeyAt(old(k[..]), i) && r == Rcon(i)
    {
      ExpandKey(k, r);
      r := Xt(r);
    }
  }

  // What round i of decryption does to the block.
  method DecryptRound(x: array<bv8>, k: array<bv8>, i: nat, ghost key: seq<bv8>, ghost block: Block)
    requires x.Length == 16 && k.Length == 32 && |key| == 32 && i < 14
    requires k[..] == KeyAt(key, 7 - (i + 1) / 2) && x[..] == RoundsBack(key, block, i)
    modifies x
    ensures x[..] == RoundsBack(key, block, i + 1)
  {
    hide AddKey, UnsubBytes, UnshiftRows, UnmixColumns, KeyAt;
    assert k[16 * (i % 2)..16 * (i % 2) + 16] == RoundKey(key, 14 - i);
    AddRoundKey(x, k, i % 2);
    if i > 0 {
      UnmixAll(x);
    }
    Unshift(x);
    Unsubstitute(x);
  }

  lemma NoRounds(key: seq<bv8>, block: Block)
    requires |key| == 32
    ensures RoundsBack(key, block, 0) == block
  {
  }

  /** _BRAES256ECBDecrypt: seven expansions, then un-expansion on the even rounds. */
  method Decrypt(key32: array<bv8>, buf16: array<bv8>)
    requires key32.Length == 32 && buf16.Length == 16
    modifies buf16
    ensures buf16[..] == Decrypted(key32[..], old(buf16[..]))
  {
    hide AddKey, Expand, Unexpand, Xt, Unxt, KeyAt, Rcon, RoundsBack;
    ghost var key, block := key32[..], buf16[..];
    var k := Copy(key32);
    var x := Copy(buf16);
    var r := ExpandSeven(k, 1);
    assert x[..] == block == RoundsBack(key, block, 0) by { NoRounds(key, block); }
    for i := 0 to 14
      invariant k.Length == 32 && k[..] == KeyAt(key, 7 - (i + 1) / 2) && r == Rcon(7 - (i + 1) / 2)
      invariant x.Length == 16 && x[..] == RoundsBack(key, block, i)
    {
      DecryptRound(x, k, i, key, block);
      if i % 2 == 0 {
        StepBack(key, 7 - i / 2);
        r := Unxt(r);
        UnexpandKey(k, r);
      }
    }
    assert k[0..16] == RoundKey(key, 0);
    AddRoundKey(x, k, 0);
    forall j | 0 <= j < 16 {
      buf16[j] := x[j];
    }
    assert buf16[..] == x[..] && key32[..] == key;
  }

  /** Un-expanding replays the round keys of encryption in reverse. */
  lemma StepBack(key: seq<bv8>, n: nat)
    requires |key| == 32 && 0 < n
    ensures Unxt(Rcon(n)) == Rcon(n - 1)
    ensures Unexpand(KeyAt(key, n), Unxt(Rcon(n))) == KeyAt(key, n - 1)
  {
    hide Expand, Unexpand, Xt, Unxt;
    UnxtXt(Rcon(n - 1));
    UnexpandExpand(KeyAt(key, n - 1), Rcon(n - 1));
  }

  lemma UnxtXt(v: bv8)
    ensures Unxt(Xt(v)) == v
  {
  }
}
