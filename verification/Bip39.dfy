/** Mnemonic phrases of BRBIP39Mnemonic.c: eleven-bit word indices cut from bytes, and bytes cut from word indices. */
module Bip39 {
  import opened Prelude

  const WORDS: nat := 2048

  // ---------- eleven bits of four bytes, eight bits of two indices ----------

  // UInt32GetBE
  function Big(a: bv8, b: bv8, c: bv8, d: bv8): bv32 {
    ((a as bv32) << 24) | ((b as bv32) << 16) | ((c as bv32) << 8) | (d as bv32)
  }

  // The eleven bits from bit o on: the word shifted right by 32 - (11 + o), modulo 2048.
  function Cut(a: bv8, b: bv8, c: bv8, d: bv8, o: nat): (v: bv32)
    requires o < 8
    ensures v < 2048
  {
    match o
    case 0 => (Big(a, b, c, d) >> 21) & 0x7ff
    case 1 => (Big(a, b, c, d) >> 20) & 0x7ff
    case 2 => (Big(a, b, c, d) >> 19) & 0x7ff
    case 3 => (Big(a, b, c, d) >> 18) & 0x7ff
    case 4 => (Big(a, b, c, d) >> 17) & 0x7ff
    case 5 => (Big(a, b, c, d) >> 16) & 0x7ff
    case 6 => (Big(a, b, c, d) >> 15) & 0x7ff
    case _ => (Big(a, b, c, d) >> 14) & 0x7ff
  }

  // Eight bits of two neighbouring indices: x * 2048 + y shifted right by n, modulo 256.
  function Byte(x: bv32, y: bv32, n: nat): bv8
    requires 4 <= n <= 14
  {
    match n
    case 4 => (((x * 2048 + y) >> 4) & 0xff) as bv8
    case 5 => (((x * 2048 + y) >> 5) & 0xff) as bv8
    case 6 => (((x * 2048 + y) >> 6) & 0xff) as bv8
    case 7 => (((x * 2048 + y) >> 7) & 0xff) as bv8
    case 8 => (((x * 2048 + y) >> 8) & 0xff) as bv8
    case 9 => (((x * 2048 + y) >> 9) & 0xff) as bv8
    case 10 => (((x * 2048 + y) >> 10) & 0xff) as bv8
    case 11 => (((x * 2048 + y) >> 11) & 0xff) as bv8
    case 12 => (((x * 2048 + y) >> 12) & 0xff) as bv8
    case 13 => (((x * 2048 + y) >> 13) & 0xff) as bv8
    case _ => (((x * 2048 + y) >> 14) & 0xff) as bv8
  }

  function IndexIn(ws: seq<bv32>, i: nat): bv32 { if i < |ws| then ws[i] else 0 }

  // Index i of a byte string.
  function IndexAt(bs: seq<bv8>, i: nat): (v: bv32)
    ensures v < 2048
  {
    var p := i * 11 / 8;
    Cut(At(bs, p), At(bs, p + 1), At(bs, p + 2), At(bs, p + 3), i * 11 % 8)
  }

  // Byte m of a list of indices.
  function ByteAt(ws: seq<bv32>, m: nat): bv8 {
    var w := m * 8 / 11;
    assert (w + 2) * 11 - (m + 1) * 8 == 14 - m * 8 % 11;
    Byte(IndexIn(ws, w), IndexIn(ws, w + 1), (w + 2) * 11 - (m + 1) * 8)
  }

  // ---------- which bits an index holds ----------

  // Bit j of a byte, from the top.
  predicate TopBit(v: bv8, j: nat)
    requires j < 8
  {
    match j
    case 0 => v & 0x80 != 0
    case 1 => v & 0x40 != 0
    case 2 => v & 0x20 != 0
    case 3 => v & 0x10 != 0
    case 4 => v & 0x08 != 0
    case 5 => v & 0x04 != 0
    case 6 => v & 0x02 != 0
    case _ => v & 0x01 != 0
  }

  // Bit j of eleven, from the top.
  predicate IndexBit(x: bv32, j: nat)
    requires j < 11
  {
    match j
    case 0 => x & 0x400 != 0
    case 1 => x & 0x200 != 0
    case 2 => x & 0x100 != 0
    case 3 => x & 0x080 != 0
    case 4 => x & 0x040 != 0
    case 5 => x & 0x020 != 0
    case 6 => x & 0x010 != 0
    case 7 => x & 0x008 != 0
    case 8 => x & 0x004 != 0
    case 9 => x & 0x002 != 0
    case _ => x & 0x001 != 0
  }

  // Bit k of a byte string, from the top of its first byte.
  predicate BitAt(bs: seq<bv8>, k: nat) { TopBit(At(bs, k / 8), k % 8) }

  /** Index i holds the bits 11 i to 11 i + 10 of the byte string, in order. */
  lemma IndexBits(bs: seq<bv8>, i: nat, j: nat)
    requires j < 11
    ensures IndexBit(IndexAt(bs, i), j) == BitAt(bs, 11 * i + j)
  {
    hide Cut, IndexBit, TopBit, At;
    var p, o := i * 11 / 8, i * 11 % 8;
    var k := o + j;
    assert 11 * i + j == 8 * p + k;
    assert (11 * i + j) / 8 == p + k / 8 && (11 * i + j) % 8 == k % 8;
    CutBit(At(bs, p), At(bs, p + 1), At(bs, p + 2), At(bs, p + 3), o, j);
  }

  lemma CutBit(a: bv8, b: bv8, c: bv8, d: bv8, o: nat, j: nat)
    requires o < 8 && j < 11
    ensures IndexBit(Cut(a, b, c, d, o), j) ==
            TopBit(if o + j < 8 then a else if o + j < 16 then b else c, (o + j) % 8)
  {
    hide Cut, IndexBit, TopBit;
    match o
    case 0 => CutBit0(a, b, c, d, j);
    case 1 => CutBit1(a, b, c, d, j);
    case 2 => CutBit2(a, b, c, d, j);
    case 3 => CutBit3(a, b, c, d, j);
    case 4 => CutBit4(a, b, c, d, j);
    case 5 => CutBit5(a, b, c, d, j);
    case 6 => CutBit6(a, b, c, d, j);
    case _ => CutBit7(a, b, c, d, j);
  }

  lemma CutBit0(a: bv8, b: bv8, c: bv8, d: bv8, j: nat)
    requires j < 11
    ensures IndexBit(Cut(a, b, c, d, 0), j) == TopBit(if j < 8 then a else b, (j + 0) % 8)
  {
    hide Cut, IndexBit, TopBit;
    if j < 4 { Low0(a, b, c, d, j); } else if j < 8 { Middle0(a, b, c, d, j); } else { High0(a, b, c, d, j); }
  }

  lemma Low0(a: bv8, b: bv8, c: bv8, d: bv8, j: nat)
    requires j < 4
    ensures IndexBit(Cut(a, b, c, d, 0), j) == TopBit(if j < 8 then a else b, (j + 0) % 8)
  {
  }

  lemma Middle0(a: bv8, b: bv8, c: bv8, d: bv8, j: nat)
    requires 4 <= j < 8
    ensures IndexBit(Cut(a, b, c, d, 0), j) == TopBit(if j < 8 then a else b, (j + 0) % 8)
  {
  }

  lemma High0(a: bv8, b: bv8, c: bv8, d: bv8, j: nat)
    requires 8 <= j < 11
    ensures IndexBit(Cut(a, b, c, d, 0), j) == TopBit(if j < 8 then a else b, (j + 0) % 8)
  {
  }

  lemma CutBit1(a: bv8, b: bv8, c: bv8, d: bv8, j: nat)
    requires j < 11
    ensures IndexBit(Cut(a, b, c, d, 1), j) == TopBit(if j < 7 then a else b, (j + 1) % 8)
  {
  }

  lemma CutBit2(a: bv8, b: bv8, c: bv8, d: bv8, j: nat)
    requires j < 11
    ensures IndexBit(Cut(a, b, c, d, 2), j) == TopBit(if j < 6 then a else b, (j + 2) % 8)
  {
  }

  lemma CutBit3(a: bv8, b: bv8, c: bv8, d: bv8, j: nat)
    requires j < 11
    ensures IndexBit(Cut(a, b, c, d, 3), j) == TopBit(if j < 5 then a else b, (j + 3) % 8)
  {
  }

  lemma CutBit4(a: bv8, b: bv8, c: bv8, d: bv8, j: nat)
    requires j < 11
    ensures IndexBit(Cut(a, b, c, d, 4), j) == TopBit(if j < 4 then a else b, (j + 4) % 8)
  {
    hide Cut, IndexBit, TopBit;
    if j < 4 { Low4(a, b, c, d, j); } else if j < 8 { Middle4(a, b, c, d, j); } else { High4(a, b, c, d, j); }
  }

  lemma Low4(a: bv8, b: bv8, c: bv8, d: bv8, j: nat)
    requires j < 4
    ensures IndexBit(Cut(a, b, c, d, 4), j) == TopBit(if j < 4 then a else b, (j + 4) % 8)
  {
  }

  lemma Middle4(a: bv8, b: bv8, c: bv8, d: bv8, j: nat)
    requires 4 <= j < 8
    ensures IndexBit(Cut(a, b, c, d, 4), j) == TopBit(if j < 4 then a else b, (j + 4) % 8)
  {
  }

  lemma High4(a: bv8, b: bv8, c: bv8, d: bv8, j: nat)
    requires 8 <= j < 11
    ensures IndexBit(Cut(a, b, c, d, 4), j) == TopBit(if j < 4 then a else b, (j + 4) % 8)
  {
  }

  lemma CutBit5(a: bv8, b: bv8, c: bv8, d: bv8, j: nat)
    requires j < 11
    ensures IndexBit(Cut(a, b, c, d, 5), j) == TopBit(if j < 3 then a else b, (j + 5) % 8)
  {
    hide Cut, IndexBit, TopBit;
    if j < 4 { Low5(a, b, c, d, j); } else if j < 8 { Middle5(a, b, c, d, j); } else { High5(a, b, c, d, j); }
  }

  lemma Low5(a: bv8, b: bv8, c: bv8, d: bv8, j: nat)
    requires j < 4
    ensures IndexBit(Cut(a, b, c, d, 5), j) == TopBit(if j < 3 then a else b, (j + 5) % 8)
  {
  }

  lemma Middle5(a: bv8, b: bv8, c: bv8, d: bv8, j: nat)
    requires 4 <= j < 8
    ensures IndexBit(Cut(a, b, c, d, 5), j) == TopBit(if j < 3 then a else b, (j + 5) % 8)
  {
  }

  lemma High5(a: bv8, b: bv8, c: bv8, d: bv8, j: nat)
    requires 8 <= j < 11
    ensures IndexBit(Cut(a, b, c, d, 5), j) == TopBit(if j < 3 then a else b, (j + 5) % 8)
  {
  }

  lemma CutBit6(a: bv8, b: bv8, c: bv8, d: bv8, j: nat)
    requires j < 11
    ensures IndexBit(Cut(a, b, c, d, 6), j) == TopBit(if j < 2 then a else if j < 10 then b else c, (j + 6) % 8)
  {
    hide Cut, IndexBit, TopBit;
    if j < 4 { Low6(a, b, c, d, j); } else if j < 8 { Middle6(a, b, c, d, j); } else { High6(a, b, c, d, j); }
  }

  lemma Low6(a: bv8, b: bv8, c: bv8, d: bv8, j: nat)
    requires j < 4
    ensures IndexBit(Cut(a, b, c, d, 6), j) == TopBit(if j < 2 then a else if j < 10 then b else c, (j + 6) % 8)
  {
  }

  lemma Middle6(a: bv8, b: bv8, c: bv8, d: bv8, j: nat)
    requires 4 <= j < 8
    ensures IndexBit(Cut(a, b, c, d, 6), j) == TopBit(if j < 2 then a else if j < 10 then b else c, (j + 6) % 8)
  {
  }

  lemma High6(a: bv8, b: bv8, c: bv8, d: bv8, j: nat)
    requires 8 <= j < 11
    ensures IndexBit(Cut(a, b, c, d, 6), j) == TopBit(if j < 2 then a else if j < 10 then b else c, (j + 6) % 8)
  {
  }

  lemma CutBit7(a: bv8, b: bv8, c: bv8, d: bv8, j: nat)
    requires j < 11
    ensures IndexBit(Cut(a, b, c, d, 7), j) == TopBit(if j < 1 then a else if j < 9 then b else c, (j + 7) % 8)
  {
    hide Cut, IndexBit, TopBit;
    if j < 4 { Low7(a, b, c, d, j); } else if j < 8 { Middle7(a, b, c, d, j); } else { High7(a, b, c, d, j); }
  }

  lemma Low7(a: bv8, b: bv8, c: bv8, d: bv8, j: nat)
    requires j < 4
    ensures IndexBit(Cut(a, b, c, d, 7), j) == TopBit(if j < 1 then a else if j < 9 then b else c, (j + 7) % 8)
  {
  }

  lemma Middle7(a: bv8, b: bv8, c: bv8, d: bv8, j: nat)
    requires 4 <= j < 8
    ensures IndexBit(Cut(a, b, c, d, 7), j) == TopBit(if j < 1 then a else if j < 9 then b else c, (j + 7) % 8)
  {
  }

  lemma High7(a: bv8, b: bv8, c: bv8, d: bv8, j: nat)
    requires 8 <= j < 11
    ensures IndexBit(Cut(a, b, c, d, 7), j) == TopBit(if j < 1 then a else if j < 9 then b else c, (j + 7) % 8)
  {
  }

  // ---------- one block: eleven bytes, eight indices ----------

  lemma Byte0(b0: bv8, b1: bv8, b2: bv8, b3: bv8, y: bv32)
    requires y < 2048
    ensures Byte(Cut(b0, b1, b2, b3, 0), y, 14) == b0
  {
  }

  lemma Byte1(b0: bv8, b1: bv8, b2: bv8, b3: bv8, b4: bv8)
    ensures Byte(Cut(b0, b1, b2, b3, 0), Cut(b1, b2, b3, b4, 3), 6) == b1
  {
  }

  lemma Byte2(b1: bv8, b2: bv8, b3: bv8, b4: bv8, b5: bv8)
    ensures Byte(Cut(b1, b2, b3, b4, 3), Cut(b2, b3, b4, b5, 6), 9) == b2
  {
  }

  lemma Byte3(b2: bv8, b3: bv8, b4: bv8, b5: bv8, y: bv32)
    requires y < 2048
    ensures Byte(Cut(b2, b3, b4, b5, 6), y, 12) == b3
  {
  }

  lemma Byte4(b2: bv8, b3: bv8, b4: bv8, b5: bv8, b6: bv8, b7: bv8)
    ensures Byte(Cut(b2, b3, b4, b5, 6), Cut(b4, b5, b6, b7, 1), 4) == b4
  {
  }

  lemma Byte5(b4: bv8, b5: bv8, b6: bv8, b7: bv8, b8: bv8)
    ensures Byte(Cut(b4, b5, b6, b7, 1), Cut(b5, b6, b7, b8, 4), 7) == b5
  {
  }

  lemma Byte6(b5: bv8, b6: bv8, b7: bv8, b8: bv8, b9: bv8)
    ensures Byte(Cut(b5, b6, b7, b8, 4), Cut(b6, b7, b8, b9, 7), 10) == b6
  {
  }

  lemma Byte7(b6: bv8, b7: bv8, b8: bv8, b9: bv8, y: bv32)
    requires y < 2048
    ensures Byte(Cut(b6, b7, b8, b9, 7), y, 13) == b7
  {
  }

  lemma Byte8(b6: bv8, b7: bv8, b8: bv8, b9: bv8, b10: bv8, b11: bv8)
    ensures Byte(Cut(b6, b7, b8, b9, 7), Cut(b8, b9, b10, b11, 2), 5) == b8
  {
  }

  lemma Byte9(b8: bv8, b9: bv8, b10: bv8, b11: bv8, b12: bv8)
    ensures Byte(Cut(b8, b9, b10, b11, 2), Cut(b9, b10, b11, b12, 5), 8) == b9
  {
  }

  lemma Byte10(b9: bv8, b10: bv8, b11: bv8, b12: bv8, y: bv32)
    requires y < 2048
    ensures Byte(Cut(b9, b10, b11, b12, 5), y, 11) == b10
  {
  }

  lemma Index0(w0: bv32, w1: bv32, c: bv8, d: bv8)
    requires w0 < 2048 && w1 < 2048
    ensures Cut(Byte(w0, w1, 14), Byte(w0, w1, 6), c, d, 0) == w0
  {
  }

  lemma Index1(w0: bv32, w1: bv32, w2: bv32, c: bv8, d: bv8)
    requires w0 < 2048 && w1 < 2048 && w2 < 2048
    ensures Cut(Byte(w0, w1, 6), Byte(w1, w2, 9), c, d, 3) == w1
  {
  }

  lemma Index2(w1: bv32, w2: bv32, w3: bv32, d: bv8)
    requires w1 < 2048 && w2 < 2048 && w3 < 2048
    ensures Cut(Byte(w1, w2, 9), Byte(w2, w3, 12), Byte(w2, w3, 4), d, 6) == w2
  {
  }

  lemma Index3(w2: bv32, w3: bv32, w4: bv32, c: bv8, d: bv8)
    requires w2 < 2048 && w3 < 2048 && w4 < 2048
    ensures Cut(Byte(w2, w3, 4), Byte(w3, w4, 7), c, d, 1) == w3
  {
  }

  lemma Index4(w3: bv32, w4: bv32, w5: bv32, c: bv8, d: bv8)
    requires w3 < 2048 && w4 < 2048 && w5 < 2048
    ensures Cut(Byte(w3, w4, 7), Byte(w4, w5, 10), c, d, 4) == w4
  {
  }

  lemma Index5(w4: bv32, w5: bv32, w6: bv32, d: bv8)
    requires w4 < 2048 && w5 < 2048 && w6 < 2048
    ensures Cut(Byte(w4, w5, 10), Byte(w5, w6, 13), Byte(w5, w6, 5), d, 7) == w5
  {
  }

  lemma Index6(w5: bv32, w6: bv32, w7: bv32, c: bv8, d: bv8)
    requires w5 < 2048 && w6 < 2048 && w7 < 2048
    ensures Cut(Byte(w5, w6, 5), Byte(w6, w7, 8), c, d, 2) == w6
  {
  }

  lemma Index7(w6: bv32, w7: bv32, w8: bv32, c: bv8, d: bv8)
    requires w6 < 2048 && w7 < 2048 && w8 < 2048
    ensures Cut(Byte(w6, w7, 8), Byte(w7, w8, 11), c, d, 5) == w7
  {
  }

  // ---------- any place in a string of blocks ----------

  lemma IndexPlace(q: nat, r: nat)
    requires r < 8
    ensures (8 * q + r) * 11 / 8 == 11 * q + [0, 1, 2, 4, 5, 6, 8, 9][r]
    ensures (8 * q + r) * 11 % 8 == [0, 3, 6, 1, 4, 7, 2, 5][r]
  {
  }

  lemma BytePlace(q: nat, t: nat)
    requires t < 11
    ensures (11 * q + t) * 8 / 11 == 8 * q + [0, 0, 1, 2, 2, 3, 4, 5, 5, 6, 7][t]
    ensures ((11 * q + t) * 8 / 11 + 2) * 11 - (11 * q + t + 1) * 8 == [14, 6, 9, 12, 4, 7, 10, 13, 5, 8, 11][t]
  {
  }

  // Index r of block q.
  lemma IndexIs(bs: seq<bv8>, q: nat, r: nat)
    requires r < 8
    ensures
      var p := 11 * q + [0, 1, 2, 4, 5, 6, 8, 9][r];
      IndexAt(bs, 8 * q + r) == Cut(At(bs, p), At(bs, p + 1), At(bs, p + 2), At(bs, p + 3), [0, 3, 6, 1, 4, 7, 2, 5][r])
  {
    hide Cut, At;
    IndexPlace(q, r);
  }

  // Byte t of block q.
  lemma ByteIs(ws: seq<bv32>, q: nat, t: nat)
    requires t < 11
    ensures
      var w := 8 * q + [0, 0, 1, 2, 2, 3, 4, 5, 5, 6, 7][t];
      ByteAt(ws, 11 * q + t) == Byte(IndexIn(ws, w), IndexIn(ws, w + 1), [14, 6, 9, 12, 4, 7, 10, 13, 5, 8, 11][t])
  {
    hide Byte, IndexIn;
    BytePlace(q, t);
  }

  function Indices(bs: seq<bv8>, n: nat): (ws: seq<bv32>)
    ensures |ws| == n && Elevens(ws)
  {
    seq(n, i requires 0 <= i => IndexAt(bs, i))
  }

  predicate Elevens(ws: seq<bv32>) { forall i :: 0 <= i < |ws| ==> ws[i] < 2048 }

  lemma IndexInIs(bs: seq<bv8>, n: nat, i: nat)
    ensures IndexIn(Indices(bs, n), i) == (if i < n then IndexAt(bs, i) else 0) && IndexIn(Indices(bs, n), i) < 2048
  {
  }

  lemma IndexSmall(ws: seq<bv32>, i: nat)
    requires Elevens(ws)
    ensures IndexIn(ws, i) < 2048
  {
  }

  /** Cutting n indices from bytes and bytes from the indices gives every byte that the indices cover. */
  lemma BytesComeBack(bs: seq<bv8>, n: nat, m: nat)
    requires 8 * (m + 1) <= 11 * n
    ensures ByteAt(Indices(bs, n), m) == At(bs, m)
  {
    hide Cut, Byte, At, IndexIn, IndexAt, ByteAt, Indices;
    var q, t := m / 11, m % 11;
    var ws := Indices(bs, n);
    ByteIs(ws, q, t);
    var w := 8 * q + [0, 0, 1, 2, 2, 3, 4, 5, 5, 6, 7][t];
    IndexInIs(bs, n, w);
    IndexInIs(bs, n, w + 1);
    IndexIs(bs, q, w - 8 * q);
    if t < 6 {
      ByteFitsLow(bs, q, t, IndexIn(ws, w), IndexIn(ws, w + 1), n);
    } else {
      ByteFitsHigh(bs, q, t, IndexIn(ws, w), IndexIn(ws, w + 1), n);
    }
  }

  // The cases of BytesComeBack for each place in a block.
  lemma ByteFitsLow(bs: seq<bv8>, q: nat, t: nat, x: bv32, y: bv32, n: nat)
    requires t < 6 && 8 * (11 * q + t + 1) <= 11 * n && y < 2048
    requires
      var w := 8 * q + [0, 0, 1, 2, 2, 3, 4, 5, 5, 6, 7][t];
      x == IndexAt(bs, w) && (w + 1 < n ==> y == IndexAt(bs, w + 1))
    ensures Byte(x, y, [14, 6, 9, 12, 4, 7, 10, 13, 5, 8, 11][t]) == At(bs, 11 * q + t)
  {
    hide Cut, Byte, At, IndexAt;
    match t
    case 0 =>
      IndexIs(bs, q, 0);
      Byte0(At(bs, 11 * q), At(bs, 11 * q + 1), At(bs, 11 * q + 2), At(bs, 11 * q + 3), y);
    case 1 =>
      IndexIs(bs, q, 0);
      IndexIs(bs, q, 1);
      Byte1(At(bs, 11 * q), At(bs, 11 * q + 1), At(bs, 11 * q + 2), At(bs, 11 * q + 3), At(bs, 11 * q + 4));
    case 2 =>
      IndexIs(bs, q, 1);
      IndexIs(bs, q, 2);
      Byte2(At(bs, 11 * q + 1), At(bs, 11 * q + 2), At(bs, 11 * q + 3), At(bs, 11 * q + 4), At(bs, 11 * q + 5));
    case 3 =>
      IndexIs(bs, q, 2);
      Byte3(At(bs, 11 * q + 2), At(bs, 11 * q + 3), At(bs, 11 * q + 4), At(bs, 11 * q + 5), y);
    case 4 =>
      IndexIs(bs, q, 2);
      IndexIs(bs, q, 3);
      Byte4(At(bs, 11 * q + 2), At(bs, 11 * q + 3), At(bs, 11 * q + 4), At(bs, 11 * q + 5), At(bs, 11 * q + 6),
            At(bs, 11 * q + 7));
    case _ =>
      IndexIs(bs, q, 3);
      IndexIs(bs, q, 4);
      Byte5(At(bs, 11 * q + 4), At(bs, 11 * q + 5), At(bs, 11 * q + 6), At(bs, 11 * q + 7), At(bs, 11 * q + 8));
  }

  lemma ByteFitsHigh(bs: seq<bv8>, q: nat, t: nat, x: bv32, y: bv32, n: nat)
    requires 6 <= t < 11 && 8 * (11 * q + t + 1) <= 11 * n && y < 2048
    requires
      var w := 8 * q + [0, 0, 1, 2, 2, 3, 4, 5, 5, 6, 7][t];
      x == IndexAt(bs, w) && (w + 1 < n ==> y == IndexAt(bs, w + 1))
    ensures Byte(x, y, [14, 6, 9, 12, 4, 7, 10, 13, 5, 8, 11][t]) == At(bs, 11 * q + t)
  {
    hide Cut, Byte, At, IndexAt;
    match t
    case 6 =>
      IndexIs(bs, q, 4);
      IndexIs(bs, q, 5);
      Byte6(At(bs, 11 * q + 5), At(bs, 11 * q + 6), At(bs, 11 * q + 7), At(bs, 11 * q + 8), At(bs, 11 * q + 9));
    case 7 =>
      IndexIs(bs, q, 5);
      Byte7(At(bs, 11 * q + 6), At(bs, 11 * q + 7), At(bs, 11 * q + 8), At(bs, 11 * q + 9), y);
    case 8 =>
      IndexIs(bs, q, 5);
      IndexIs(bs, q, 6);
      Byte8(At(bs, 11 * q + 6), At(bs, 11 * q + 7), At(bs, 11 * q + 8), At(bs, 11 * q + 9), At(bs, 11 * q + 10),
            At(bs, 11 * q + 11));
    case 9 =>
      IndexIs(bs, q, 6);
      IndexIs(bs, q, 7);
      Byte9(At(bs, 11 * q + 8), At(bs, 11 * q + 9), At(bs, 11 * q + 10), At(bs, 11 * q + 11), At(bs, 11 * q + 12));
    case _ =>
      IndexIs(bs, q, 7);
      Byte10(At(bs, 11 * q + 9), At(bs, 11 * q + 10), At(bs, 11 * q + 11), At(bs, 11 * q + 12), y);
  }

  /** The other way round: indices whose bits are all there come back from the bytes. */
  lemma IndexComesBack(ws: seq<bv32>, bs: seq<bv8>, i: nat, m: nat)
    requires Elevens(ws) && 11 * (i + 1) <= 8 * m && forall k :: 0 <= k < m ==> At(bs, k) == ByteAt(ws, k)
    ensures IndexAt(bs, i) == IndexIn(ws, i)
  {
    hide Cut, Byte, At, IndexIn, IndexAt, ByteAt;
    var q, r := i / 8, i % 8;
    IndexIs(bs, q, r);
    if r < 4 { IndexFitsLow(ws, bs, q, r, m); } else { IndexFitsHigh(ws, bs, q, r, m); }
  }

  lemma IndexFitsLow(ws: seq<bv32>, bs: seq<bv8>, q: nat, r: nat, m: nat)
    requires r < 4 && Elevens(ws) && 11 * (8 * q + r + 1) <= 8 * m
    requires forall k :: 0 <= k < m ==> At(bs, k) == ByteAt(ws, k)
    ensures
      var p := 11 * q + [0, 1, 2, 4, 5, 6, 8, 9][r];
      Cut(At(bs, p), At(bs, p + 1), At(bs, p + 2), At(bs, p + 3), [0, 3, 6, 1, 4, 7, 2, 5][r]) == IndexIn(ws, 8 * q + r)
  {
    hide Cut, Byte, At, IndexIn, ByteAt, Elevens;
    match r
    case 0 =>
      ByteIs(ws, q, 0);
      ByteIs(ws, q, 1);
      IndexSmall(ws, 8 * q);
      IndexSmall(ws, 8 * q + 1);
      Index0(IndexIn(ws, 8 * q), IndexIn(ws, 8 * q + 1), At(bs, 11 * q + 2), At(bs, 11 * q + 3));
    case 1 =>
      ByteIs(ws, q, 1);
      ByteIs(ws, q, 2);
      IndexSmall(ws, 8 * q);
      IndexSmall(ws, 8 * q + 1);
      IndexSmall(ws, 8 * q + 2);
      Index1(IndexIn(ws, 8 * q), IndexIn(ws, 8 * q + 1), IndexIn(ws, 8 * q + 2), At(bs, 11 * q + 3),
             At(bs, 11 * q + 4));
    case 2 =>
      ByteIs(ws, q, 2);
      ByteIs(ws, q, 3);
      ByteIs(ws, q, 4);
      IndexSmall(ws, 8 * q + 1);
      IndexSmall(ws, 8 * q + 2);
      IndexSmall(ws, 8 * q + 3);
      Index2(IndexIn(ws, 8 * q + 1), IndexIn(ws, 8 * q + 2), IndexIn(ws, 8 * q + 3), At(bs, 11 * q + 5));
    case _ =>
      ByteIs(ws, q, 4);
      ByteIs(ws, q, 5);
      IndexSmall(ws, 8 * q + 2);
      IndexSmall(ws, 8 * q + 3);
      IndexSmall(ws, 8 * q + 4);
      Index3(IndexIn(ws, 8 * q + 2), IndexIn(ws, 8 * q + 3), IndexIn(ws, 8 * q + 4), At(bs, 11 * q + 6),
             At(bs, 11 * q + 7));
  }

  lemma IndexFitsHigh(ws: seq<bv32>, bs: seq<bv8>, q: nat, r: nat, m: nat)
    requires 4 <= r < 8 && Elevens(ws) && 11 * (8 * q + r + 1) <= 8 * m
    requires forall k :: 0 <= k < m ==> At(bs, k) == ByteAt(ws, k)
    ensures
      var p := 11 * q + [0, 1, 2, 4, 5, 6, 8, 9][r];
      Cut(At(bs, p), At(bs, p + 1), At(bs, p + 2), At(bs, p + 3), [0, 3, 6, 1, 4, 7, 2, 5][r]) == IndexIn(ws, 8 * q + r)
  {
    hide Cut, Byte, At, IndexIn, ByteAt, Elevens;
    match r
    case 4 =>
      ByteIs(ws, q, 5);
      ByteIs(ws, q, 6);
      IndexSmall(ws, 8 * q + 3);
      IndexSmall(ws, 8 * q + 4);
      IndexSmall(ws, 8 * q + 5);
      Index4(IndexIn(ws, 8 * q + 3), IndexIn(ws, 8 * q + 4), IndexIn(ws, 8 * q + 5), At(bs, 11 * q + 7),
             At(bs, 11 * q + 8));
    case 5 =>
      ByteIs(ws, q, 6);
      ByteIs(ws, q, 7);
      ByteIs(ws, q, 8);
      IndexSmall(ws, 8 * q + 4);
      IndexSmall(ws, 8 * q + 5);
      IndexSmall(ws, 8 * q + 6);
      Index5(IndexIn(ws, 8 * q + 4), IndexIn(ws, 8 * q + 5), IndexIn(ws, 8 * q + 6), At(bs, 11 * q + 9));
    case 6 =>
      ByteIs(ws, q, 8);
      ByteIs(ws, q, 9);
      IndexSmall(ws, 8 * q + 5);
      IndexSmall(ws, 8 * q + 6);
      IndexSmall(ws, 8 * q + 7);
      Index6(IndexIn(ws, 8 * q + 5), IndexIn(ws, 8 * q + 6), IndexIn(ws, 8 * q + 7), At(bs, 11 * q + 10),
             At(bs, 11 * q + 11));
    case _ =>
      ByteIs(ws, q, 9);
      ByteIs(ws, q, 10);
      IndexSmall(ws, 8 * q + 6);
      IndexSmall(ws, 8 * q + 7);
      IndexSmall(ws, 8 * q + 8);
      Index7(IndexIn(ws, 8 * q + 6), IndexIn(ws, 8 * q + 7), IndexIn(ws, 8 * q + 8), At(bs, 11 * q + 11),
             At(bs, 11 * q + 12));
  }

  // ---------- the checksum in the last index ----------

  // The top k bits of a byte.
  function Top(b: bv8, k: nat): bv8
    requires k <= 8
  {
    match k
    case 0 => 0
    case 1 => b >> 7
    case 2 => b >> 6
    case 3 => b >> 5
    case 4 => b >> 4
    case 5 => b >> 3
    case 6 => b >> 2
    case 7 => b >> 1
    case _ => b
  }

  // Where the last of 3 * k indices lies, and the byte after 4 * k bytes.
  lemma LastPlace(k: nat)
    requires 1 <= k <= 8
    ensures (3 * k - 1) * 11 / 8 == 4 * k - (if k < 3 then 2 else 1)
    ensures (3 * k - 1) * 11 % 8 == [6, 7, 0, 1, 2, 3, 4, 5][k - 1]
    ensures 4 * k * 8 / 11 == 3 * k - 1 && (3 * k - 1 + 2) * 11 - (4 * k + 1) * 8 == k + 3
  {
  }

  lemma Sum1(a: bv8, b: bv8, h: bv8, d: bv8)
    ensures Top(Byte(Cut(a, b, h, d, 6), 0, 4), 1) == Top(h, 1)
  {
  }

  lemma Sum2(a: bv8, b: bv8, h: bv8, d: bv8)
    ensures Top(Byte(Cut(a, b, h, d, 7), 0, 5), 2) == Top(h, 2)
  {
  }

  lemma Sum3(a: bv8, h: bv8, c: bv8, d: bv8)
    ensures Top(Byte(Cut(a, h, c, d, 0), 0, 6), 3) == Top(h, 3)
  {
  }

  lemma Sum4(a: bv8, h: bv8, c: bv8, d: bv8)
    ensures Top(Byte(Cut(a, h, c, d, 1), 0, 7), 4) == Top(h, 4)
  {
  }

  lemma Sum5(a: bv8, h: bv8, c: bv8, d: bv8)
    ensures Top(Byte(Cut(a, h, c, d, 2), 0, 8), 5) == Top(h, 5)
  {
  }

  lemma Sum6(a: bv8, h: bv8, c: bv8, d: bv8)
    ensures Top(Byte(Cut(a, h, c, d, 3), 0, 9), 6) == Top(h, 6)
  {
  }

  lemma Sum7(a: bv8, h: bv8, c: bv8, d: bv8)
    ensures Top(Byte(Cut(a, h, c, d, 4), 0, 10), 7) == Top(h, 7)
  {
  }

  lemma Sum8(a: bv8, h: bv8, c: bv8, d: bv8)
    ensures Top(Byte(Cut(a, h, c, d, 5), 0, 11), 8) == Top(h, 8)
  {
  }

  lemma Last1(v: bv32, w: bv32, h: bv8, d: bv8)
    requires v < 2048 && w < 2048 && Top(h, 1) == Top(Byte(w, 0, 4), 1)
    ensures Cut(Byte(v, w, 9), Byte(w, 0, 12), h, d, 6) == w
  {
  }

  lemma Last2(v: bv32, w: bv32, h: bv8, d: bv8)
    requires v < 2048 && w < 2048 && Top(h, 2) == Top(Byte(w, 0, 5), 2)
    ensures Cut(Byte(v, w, 10), Byte(w, 0, 13), h, d, 7) == w
  {
  }

  lemma Last3(w: bv32, h: bv8, c: bv8, d: bv8)
    requires w < 2048 && Top(h, 3) == Top(Byte(w, 0, 6), 3)
    ensures Cut(Byte(w, 0, 14), h, c, d, 0) == w
  {
  }

  lemma Last4(v: bv32, w: bv32, h: bv8, c: bv8, d: bv8)
    requires v < 2048 && w < 2048 && Top(h, 4) == Top(Byte(w, 0, 7), 4)
    ensures Cut(Byte(v, w, 4), h, c, d, 1) == w
  {
  }

  lemma Last5(v: bv32, w: bv32, h: bv8, c: bv8, d: bv8)
    requires v < 2048 && w < 2048 && Top(h, 5) == Top(Byte(w, 0, 8), 5)
    ensures Cut(Byte(v, w, 5), h, c, d, 2) == w
  {
  }

  lemma Last6(v: bv32, w: bv32, h: bv8, c: bv8, d: bv8)
    requires v < 2048 && w < 2048 && Top(h, 6) == Top(Byte(w, 0, 9), 6)
    ensures Cut(Byte(v, w, 6), h, c, d, 3) == w
  {
  }

  lemma Last7(v: bv32, w: bv32, h: bv8, c: bv8, d: bv8)
    requires v < 2048 && w < 2048 && Top(h, 7) == Top(Byte(w, 0, 10), 7)
    ensures Cut(Byte(v, w, 7), h, c, d, 4) == w
  {
  }

  lemma Last8(v: bv32, w: bv32, h: bv8, c: bv8, d: bv8)
    requires v < 2048 && w < 2048 && Top(h, 8) == Top(Byte(w, 0, 11), 8)
    ensures Cut(Byte(v, w, 8), h, c, d, 5) == w
  {
  }

  /** The checksum that was cut into the last index can be read back from it. */
  lemma ChecksumReadBack(bs: seq<bv8>, k: nat)
    requires 1 <= k <= 8
    ensures Top(ByteAt(Indices(bs, 3 * k), 4 * k), k) == Top(At(bs, 4 * k), k)
  {
    hide Cut, Byte, At, IndexIn, Indices, Top;
    LastPlace(k);
    IndexInIs(bs, 3 * k, 3 * k - 1);
    IndexInIs(bs, 3 * k, 3 * k);
    match k
    case 1 =>
      Sum1(At(bs, 2), At(bs, 3), At(bs, 4), At(bs, 5));
    case 2 =>
      Sum2(At(bs, 6), At(bs, 7), At(bs, 8), At(bs, 9));
    case 3 =>
      Sum3(At(bs, 11), At(bs, 12), At(bs, 13), At(bs, 14));
    case 4 =>
      Sum4(At(bs, 15), At(bs, 16), At(bs, 17), At(bs, 18));
    case 5 =>
      Sum5(At(bs, 19), At(bs, 20), At(bs, 21), At(bs, 22));
    case 6 =>
      Sum6(At(bs, 23), At(bs, 24), At(bs, 25), At(bs, 26));
    case 7 =>
      Sum7(At(bs, 27), At(bs, 28), At(bs, 29), At(bs, 30));
    case _ =>
      Sum8(At(bs, 31), At(bs, 32), At(bs, 33), At(bs, 34));
  }

  /** And the last index comes back when the top bits of the byte after the data are its own. */
  lemma LastComesBack(ws: seq<bv32>, bs: seq<bv8>, k: nat)
    requires 1 <= k <= 8 && |ws| == 3 * k && Elevens(ws)
    requires forall m :: 0 <= m < 4 * k ==> At(bs, m) == ByteAt(ws, m)
    requires Top(At(bs, 4 * k), k) == Top(ByteAt(ws, 4 * k), k)
    ensures IndexAt(bs, 3 * k - 1) == ws[3 * k - 1]
  {
    hide Cut, Byte, At, Top, ByteAt, IndexIn;
    LastPlace(k);
    LastByte(ws, k);
    IndexSmall(ws, 3 * k - 1);
    IndexSmall(ws, 3 * k - 2);
    WithIn(ws, 3 * k - 1);
    if k <= 4 { LastLow(ws, bs, k); } else { LastHigh(ws, bs, k); }
  }

  lemma LastLow(ws: seq<bv32>, bs: seq<bv8>, k: nat)
    requires 1 <= k <= 4 && |ws| == 3 * k && Elevens(ws) && forall m :: 0 <= m < 4 * k ==> At(bs, m) == ByteAt(ws, m)
    requires Top(At(bs, 4 * k), k) == Top(Byte(IndexIn(ws, 3 * k - 1), 0, k + 3), k)
    requires IndexIn(ws, 3 * k - 1) < 2048 && IndexIn(ws, 3 * k - 2) < 2048 && IndexIn(ws, 3 * k) == 0
    ensures IndexAt(bs, 3 * k - 1) == IndexIn(ws, 3 * k - 1)
  {
    hide Cut, Byte, At, Top, ByteAt, IndexIn, Elevens;
    LastPlace(k);
    match k
    case 1 =>
      ByteIs(ws, 0, 2);
      ByteIs(ws, 0, 3);
      Last1(IndexIn(ws, 1), IndexIn(ws, 2), At(bs, 4), At(bs, 5));
    case 2 =>
      ByteIs(ws, 0, 6);
      ByteIs(ws, 0, 7);
      Last2(IndexIn(ws, 4), IndexIn(ws, 5), At(bs, 8), At(bs, 9));
    case 3 =>
      ByteIs(ws, 1, 0);
      Last3(IndexIn(ws, 8), At(bs, 12), At(bs, 13), At(bs, 14));
    case _ =>
      ByteIs(ws, 1, 4);
      Last4(IndexIn(ws, 10), IndexIn(ws, 11), At(bs, 16), At(bs, 17), At(bs, 18));
  }

  lemma LastHigh(ws: seq<bv32>, bs: seq<bv8>, k: nat)
    requires 5 <= k <= 8 && |ws| == 3 * k && Elevens(ws) && forall m :: 0 <= m < 4 * k ==> At(bs, m) == ByteAt(ws, m)
    requires Top(At(bs, 4 * k), k) == Top(Byte(IndexIn(ws, 3 * k - 1), 0, k + 3), k)
    requires IndexIn(ws, 3 * k - 1) < 2048 && IndexIn(ws, 3 * k - 2) < 2048 && IndexIn(ws, 3 * k) == 0
    ensures IndexAt(bs, 3 * k - 1) == IndexIn(ws, 3 * k - 1)
  {
    hide Cut, Byte, At, Top, ByteAt, IndexIn, Elevens;
    LastPlace(k);
    match k
    case 5 =>
      ByteIs(ws, 1, 8);
      Last5(IndexIn(ws, 13), IndexIn(ws, 14), At(bs, 20), At(bs, 21), At(bs, 22));
    case 6 =>
      ByteIs(ws, 2, 1);
      Last6(IndexIn(ws, 16), IndexIn(ws, 17), At(bs, 24), At(bs, 25), At(bs, 26));
    case 7 =>
      ByteIs(ws, 2, 5);
      Last7(IndexIn(ws, 19), IndexIn(ws, 20), At(bs, 28), At(bs, 29), At(bs, 30));
    case _ =>
      ByteIs(ws, 2, 9);
      Last8(IndexIn(ws, 22), IndexIn(ws, 23), At(bs, 32), At(bs, 33), At(bs, 34));
  }

  lemma LastByte(ws: seq<bv32>, k: nat)
    requires 1 <= k <= 8 && |ws| == 3 * k
    ensures ByteAt(ws, 4 * k) == Byte(IndexIn(ws, 3 * k - 1), 0, k + 3) && IndexIn(ws, 3 * k) == 0
  {
  }

  lemma WithIn(ws: seq<bv32>, i: nat)
    requires i < |ws|
    ensures IndexIn(ws, i) == ws[i]
  {
  }

  // ---------- phrases ----------

  // A list of 2048 words, none empty, none with a space in it, no two alike.
  ghost predicate WordList(wl: seq<string>) {
    && |wl| == WORDS && (forall i :: 0 <= i < |wl| ==> wl[i] != "" && ' ' !in wl[i])
    && forall i, j :: 0 <= i < j < |wl| ==> wl[i] != wl[j]
  }

  predicate InList(ix: seq<nat>) { forall i :: 0 <= i < |ix| ==> ix[i] < WORDS }

  function Join(wl: seq<string>, ix: seq<nat>): string
    requires |wl| == WORDS && InList(ix)
  {
    if ix == [] then "" else if |ix| == 1 then wl[ix[0]] else wl[ix[0]] + " " + Join(wl, ix[1..])
  }

  // The phrase s starts with word w.
  predicate Starts(w: string, s: string) { w <= s && (|s| == |w| || s[|w|] == ' ') }

  // The first word of the list, from index i on, that s starts with.
  function FindFrom(wl: seq<string>, s: string, i: nat): (r: Option<nat>)
    requires i <= |wl|
    ensures r.Some? ==> i <= r.value < |wl| && Starts(wl[r.value], s)
    ensures r.None? ==> forall k :: i <= k < |wl| ==> !Starts(wl[k], s)
    decreases |wl| - i
  {
    if i == |wl| then None else if Starts(wl[i], s) then Some(i) else FindFrom(wl, s, i + 1)
  }

  // What follows the first space.
  function AfterSpace(s: string): (r: string)
    ensures |r| <= |s| && (s != "" ==> |r| < |s|)
  {
    if s == "" then "" else if s[0] == ' ' then s[1..] else AfterSpace(s[1..])
  }

  // At most room words; None when a word is unknown or too many follow.
  function Parse(wl: seq<string>, s: string, room: nat): (r: Option<seq<nat>>)
    requires |wl| == WORDS
    ensures r.Some? ==> |r.value| <= room && InList(r.value)
    decreases room
  {
    if s == "" then Some([])
    else if room == 0 then None
    else
      match FindFrom(wl, s, 0)
      case None => None
      case Some(i) =>
        var rest := Parse(wl, AfterSpace(s), room - 1);
        if rest.None? then None else Some([i] + rest.value)
  }

  lemma {:induction false} AfterWord(w: string, rest: string)
    requires ' ' !in w
    ensures AfterSpace(w + " " + rest) == rest && AfterSpace(w) == ""
  {
    if w == "" {
      assert w + " " + rest == " " + rest && (" " + rest)[1..] == rest;
    } else {
      AfterWord(w[1..], rest);
      assert (w + " " + rest)[1..] == w[1..] + " " + rest;
      assert w[0] in w && forall c :: c in w[1..] ==> c in w;
    }
  }

  lemma FindWord(wl: seq<string>, i: nat, s: string)
    requires WordList(wl) && i < WORDS && Starts(wl[i], s)
    ensures FindFrom(wl, s, 0) == Some(i)
  {
  }

  /** Reading a joined phrase gives its indices, with or without a space at the end, if they are not too many. */
  lemma {:induction false} ParseJoin(wl: seq<string>, ix: seq<nat>, tail: string, room: nat)
    requires WordList(wl) && InList(ix) && (tail == "" || (tail == " " && ix != []))
    ensures Parse(wl, Join(wl, ix) + tail, room) == if |ix| <= room then Some(ix) else None
  {
    hide AfterSpace;
    var s := Join(wl, ix) + tail;
    if ix == [] {
      assert s == "";
    } else {
      var w := wl[ix[0]];
      if |ix| == 1 {
        AfterWord(w, "");
        if tail == "" { assert s == w; } else { assert s == w + " " + ""; }
        assert Starts(w, s) && AfterSpace(s) == "";
        FindWord(wl, ix[0], s);
        assert room > 0 ==> Parse(wl, "", room - 1) == Some([]);
        assert ix == [ix[0]] + [];
      } else {
        var rest := Join(wl, ix[1..]) + tail;
        assert s == w + " " + rest;
        AfterWord(w, rest);
        assert Starts(w, s);
        FindWord(wl, ix[0], s);
        if room > 0 { ParseJoin(wl, ix[1..], tail, room - 1); assert ix == [ix[0]] + ix[1..]; }
      }
    }
  }

  /** What can be read is the joined phrase of its words, except for a space at the end. */
  lemma {:induction false} JoinParse(wl: seq<string>, s: string, room: nat)
    requires WordList(wl) && Parse(wl, s, room).Some?
    ensures
      var ix := Parse(wl, s, room).value;
      s == Join(wl, ix) || (ix != [] && s == Join(wl, ix) + " ")
    decreases room
  {
    hide AfterSpace;
    if s != "" {
      var i := FindFrom(wl, s, 0).value;
      var w := wl[i];
      var ix := Parse(wl, s, room).value;
      var r := AfterSpace(s);
      JoinParse(wl, r, room - 1);
      var rest := Parse(wl, r, room - 1).value;
      assert ix[1..] == rest;
      if |s| == |w| {
        assert s == w;
        AfterWord(w, "");
        assert r == "" && rest == [];
      } else {
        assert s == w + " " + s[|w| + 1..];
        AfterWord(w, s[|w| + 1..]);
        if rest == [] {
          assert s == w + " ";
        }
      }
    }
  }

  // ---------- what is computed ----------

  function AsIndex(v: bv32): (i: nat)
    requires v < 2048
    ensures i < WORDS
  {
    v as int
  }

  // The counter of the decoder's search as a machine word.
  function AsBits(i: nat): (v: bv32)
    requires i < WORDS
    ensures v < 2048 && AsIndex(v) == i
  {
    if i == 0 then 0
    else
      var u := AsBits(i - 1);
      CountsUp(u);
      u + 1
  }

  lemma CountsUp(v: bv32)
    requires v < 2048
    ensures (v + 1) as int == v as int + 1 && (v as int < 2047 ==> v + 1 < 2048)
  {
  }

  lemma ThereAndBack(v: bv32)
    requires v < 2048
    ensures (v as int) as bv32 == v
  {
  }

  lemma IndexAsBits(v: bv32)
    requires v < 2048
    ensures AsBits(AsIndex(v)) == v
  {
    ThereAndBack(v);
    ThereAndBack(AsBits(AsIndex(v)));
    hide AsBits;
  }

  function WordsOf(ws: seq<bv32>): (ix: seq<nat>)
    requires Elevens(ws)
    ensures InList(ix) && |ix| == |ws|
  {
    seq(|ws|, i requires 0 <= i < |ws| => AsIndex(ws[i]))
  }

  function BitsOf(ix: seq<nat>): (ws: seq<bv32>)
    requires InList(ix)
    ensures Elevens(ws) && |ws| == |ix|
  {
    seq(|ix|, i requires 0 <= i < |ix| => AsBits(ix[i]))
  }

  lemma BitsOfWords(ws: seq<bv32>)
    requires Elevens(ws)
    ensures BitsOf(WordsOf(ws)) == ws
  {
    hide AsIndex, AsBits;
    forall i | 0 <= i < |ws|
      ensures AsBits(AsIndex(ws[i])) == ws[i]
    {
      IndexAsBits(ws[i]);
    }
  }

  lemma WordsOfBits(ix: seq<nat>)
    requires InList(ix)
    ensures WordsOf(BitsOf(ix)) == ix
  {
  }

  type Hash = seq<bv8> -> seq<bv8>

  // The phrase of the data and its hash.
  function Encoded(wl: seq<string>, data: seq<bv8>, sha: Hash): string
    requires |wl| == WORDS
  {
    Join(wl, WordsOf(Indices(data + sha(data), |data| * 3 / 4)))
  }

  function Bytes(ws: seq<bv32>, n: nat): (bs: seq<bv8>)
    ensures |bs| == n
  {
    seq(n, m requires 0 <= m => ByteAt(ws, m))
  }

  // The checksum of count indices: the bits left in the byte after the data against the first byte of the hash.
  predicate Matches(ws: seq<bv32>, sha: Hash)
    requires |ws| <= 24 && |ws| % 3 == 0
  {
    var n := |ws| * 4 / 3;
    Top(if |ws| == 0 then 0 else ByteAt(ws, n), |ws| / 3) == Top(At(sha(Bytes(ws, n)), 0), |ws| / 3)
  }

  // The data of a phrase, or nothing.
  function Decoded(wl: seq<string>, s: string, sha: Hash): seq<bv8>
    requires |wl| == WORDS
  {
    match Parse(wl, s, 24)
    case None => []
    case Some(ix) =>
      var ws := BitsOf(ix);
      if |ws| % 3 == 0 && Matches(ws, sha) then Bytes(ws, |ws| * 4 / 3) else []
  }

  // ---------- decoding undoes encoding, and the other way round ----------

  lemma AtLeft(a: seq<bv8>, b: seq<bv8>, m: nat)
    ensures At(a + b, m) == if m < |a| then a[m] else At(b, m - |a|)
  {
  }

  // The indices of whole data with its hash hold the data and match.
  lemma IndicesHold(data: seq<bv8>, sha: Hash, k: nat)
    requires 1 <= k <= 8 && |data| == 4 * k
    ensures
      var ws := Indices(data + sha(data), 3 * k);
      Bytes(ws, 4 * k) == data && Matches(ws, sha)
  {
    hide ByteAt, Top, IndexAt, Indices, At;
    var all := data + sha(data);
    var ws := Indices(all, 3 * k);
    forall m | 0 <= m < 4 * k
      ensures ByteAt(ws, m) == data[m]
    {
      BytesComeBack(all, 3 * k, m);
      AtLeft(data, sha(data), m);
    }
    assert Bytes(ws, 4 * k) == data;
    ChecksumReadBack(all, k);
    AtLeft(data, sha(data), 4 * k);
  }

  /** Data of a whole number of four-byte groups comes back from its phrase exactly when it is at most 32 bytes long. */
  lemma DecodeUndoesEncode(wl: seq<string>, data: seq<bv8>, sha: Hash)
    requires WordList(wl) && |data| % 4 == 0
    ensures Decoded(wl, Encoded(wl, data, sha), sha) == data <==> |data| <= 32
  {
    hide Join, Parse, Indices, Matches, Bytes, WordsOf, BitsOf;
    var k := |data| / 4;
    var ws := Indices(data + sha(data), 3 * k);
    var ix := WordsOf(ws);
    ParseJoin(wl, ix, "", 24);
    assert Join(wl, ix) + "" == Join(wl, ix);
    BitsOfWords(ws);
    if k == 0 {
      NoWords(sha);
      assert ws == [] && data == [];
    } else if k <= 8 {
      IndicesHold(data, sha, k);
    } else {
      assert Decoded(wl, Encoded(wl, data, sha), sha) == [];
    }
  }

  lemma NoWords(sha: Hash)
    ensures Matches([], sha) && Bytes([], 0) == []
  {
  }

  lemma HashLength(sha: Hash, data: seq<bv8>)
    ensures At(data + sha(data), |data|) == At(sha(data), 0)
  {
  }

  // Indices that match are those of the data they hold.
  lemma MatchedIndices(ws: seq<bv32>, sha: Hash, k: nat)
    requires 1 <= k <= 8 && |ws| == 3 * k && Elevens(ws) && Matches(ws, sha)
    ensures var data := Bytes(ws, 4 * k); Indices(data + sha(data), 3 * k) == ws
  {
    hide ByteAt, Top, IndexAt, At;
    var data := Bytes(ws, 4 * k);
    var all := data + sha(data);
    forall m | 0 <= m < 4 * k
      ensures At(all, m) == ByteAt(ws, m)
    {
      AtLeft(data, sha(data), m);
    }
    HashLength(sha, data);
    LastComesBack(ws, all, k);
    forall i | 0 <= i < 3 * k
      ensures IndexAt(all, i) == ws[i]
    {
      if i < 3 * k - 1 {
        IndexComesBack(ws, all, i, 4 * k);
        WithIn(ws, i);
      }
    }
  }

  /** A phrase gives nonempty data exactly when it is the phrase of that data, or that phrase and a space. */
  lemma AcceptedExactly(wl: seq<string>, s: string, data: seq<bv8>, sha: Hash)
    requires WordList(wl) && data != []
    ensures Decoded(wl, s, sha) == data
       <==> |data| % 4 == 0 && |data| <= 32 && (s == Encoded(wl, data, sha) || s == Encoded(wl, data, sha) + " ")
  {
    hide Decoded, Encoded;
    if Decoded(wl, s, sha) == data { Accepted(wl, s, sha); }
    if |data| % 4 == 0 && |data| <= 32 { Accepts(wl, data, sha); }
  }

  lemma Accepts(wl: seq<string>, data: seq<bv8>, sha: Hash)
    requires WordList(wl) && data != [] && |data| % 4 == 0 && |data| <= 32
    ensures Decoded(wl, Encoded(wl, data, sha), sha) == data && Decoded(wl, Encoded(wl, data, sha) + " ", sha) == data
  {
    hide Join, Parse, Indices, Matches, Bytes, WordsOf, BitsOf;
    var k := |data| / 4;
    var ws := Indices(data + sha(data), 3 * k);
    assert |data| * 3 / 4 == 3 * k;
    ParseJoin(wl, WordsOf(ws), "", 24);
    ParseJoin(wl, WordsOf(ws), " ", 24);
    assert Join(wl, WordsOf(ws)) + "" == Join(wl, WordsOf(ws));
    BitsOfWords(ws);
    IndicesHold(data, sha, k);
  }

  lemma Accepted(wl: seq<string>, s: string, sha: Hash)
    requires WordList(wl) && Decoded(wl, s, sha) != []
    ensures
      var data := Decoded(wl, s, sha);
      && |data| % 4 == 0 && |data| <= 32
      && (s == Encoded(wl, data, sha) || s == Encoded(wl, data, sha) + " ")
  {
    hide Join, Parse, Indices, Matches, Bytes, WordsOf, BitsOf;
    var ix := Parse(wl, s, 24).value;
    var ws := BitsOf(ix);
    var k := |ws| / 3;
    assert |ws| == 3 * k && |ws| * 4 / 3 == 4 * k;
    EmptyBytes(ws, 4 * k);
    MatchedIndices(ws, sha, k);
    WordsOfBits(ix);
    JoinParse(wl, s, 24);
    EncodedOf(wl, Bytes(ws, 4 * k), sha, ws, k);
  }

  lemma EmptyBytes(ws: seq<bv32>, n: nat)
    ensures n == 0 ==> Bytes(ws, n) == []
  {
  }

  lemma EncodedOf(wl: seq<string>, data: seq<bv8>, sha: Hash, ws: seq<bv32>, k: nat)
    requires |wl| == WORDS && |data| == 4 * k && Indices(data + sha(data), 3 * k) == ws
    ensures Elevens(ws) && Encoded(wl, data, sha) == Join(wl, WordsOf(ws))
  {
    hide Join, Indices, WordsOf;
    assert |data| * 3 / 4 == 3 * k;
  }

  // ---------- the code ----------

  lemma JoinSnoc(wl: seq<string>, ix: seq<nat>, i: nat)
    requires |wl| == WORDS && InList(ix) && i < WORDS
    ensures Join(wl, ix + [i]) == Join(wl, ix) + (if ix == [] then "" else " ") + wl[i]
  {
    if ix == [] {
      assert ix + [i] == [i];
    } else if |ix| == 1 {
      assert (ix + [i])[1..] == [i];
    } else {
      JoinSnoc(wl, ix[1..], i);
      assert (ix + [i])[1..] == ix[1..] + [i];
    }
  }

  // Where the four bytes end that index i is cut from.
  function ReadEnd(i: nat): nat { i * 11 / 8 + 4 }

  /** All reads of the encoder stay inside the data and its hash exactly if the data is shorter than 972 bytes. */
  lemma ReadsInsideExactly(n: nat)
    requires n % 4 == 0
    ensures (forall i :: 0 <= i < n * 3 / 4 ==> ReadEnd(i) <= n + 32) <==> n < 972
  {
    if n >= 972 { assert ReadEnd(n * 3 / 4 - 1) > n + 32; }
  }

  // One more word of the phrase.
  lemma PhraseOn(wl: seq<string>, buf: seq<bv8>, i: nat)
    requires |wl| == WORDS
    ensures
      var word := wl[AsIndex(IndexAt(buf, i))];
      Join(wl, WordsOf(Indices(buf, i + 1))) == Join(wl, WordsOf(Indices(buf, i))) + (if i == 0 then "" else " ") + word
  {
    hide Join, IndexAt, AsIndex;
    JoinSnoc(wl, WordsOf(Indices(buf, i)), AsIndex(IndexAt(buf, i)));
    assert WordsOf(Indices(buf, i + 1)) == WordsOf(Indices(buf, i)) + [AsIndex(IndexAt(buf, i))];
  }

  // UInt32GetBE, and the eleven bits of it.
  method ReadIndex(buf: seq<bv8>, i: nat) returns (x: bv32)
    requires ReadEnd(i) <= |buf|
    ensures x == IndexAt(buf, i)
  {
    hide IndexAt, Cut;
    var p := i * 11 / 8;
    x := Cut(buf[p], buf[p + 1], buf[p + 2], buf[p + 3], i * 11 % 8);
    ReadsFour(buf, i);
  }

  /** BRBIP39Encode, for data whose length is a multiple of 32 bits; other data gives nothing.  With 972 bytes or more
      the code reads past its buffer, which overread says. */
  method Encode(room: Option<nat>, wl: seq<string>, data: seq<bv8>, sha: Hash)
    returns (overread: bool, len: nat, phrase: string)
    requires |wl| == WORDS && |sha(data)| == 32
    ensures overread <==> |data| % 4 == 0 && |data| >= 972
    ensures |data| % 4 != 0 ==> len == 0 && phrase == ""
    ensures |data| % 4 == 0 && !overread ==>
      && len == Written(|Encoded(wl, data, sha)| + 1, room)
      && phrase == if room.Some? && len > 0 then Encoded(wl, data, sha) else ""
  {
    hide Join, IndexAt, AsIndex, WordsOf, Indices, ReadEnd;
    if |data| % 4 != 0 { return false, 0, ""; }
    var buf := data + sha(data);
    var n := |data| * 3 / 4;
    overread, phrase := false, "";
    NoPhrase(wl, buf);
    ReadsInsideExactly(|data|);
    for i := 0 to n
      invariant !overread && phrase == Join(wl, WordsOf(Indices(buf, i)))
      invariant forall k :: 0 <= k < i ==> ReadEnd(k) <= |buf|
    {
      if ReadEnd(i) > |buf| { return true, 0, ""; }
      var x := ReadIndex(buf, i);
      if i > 0 { phrase := phrase + " "; }
      phrase := phrase + wl[AsIndex(x)];
      PhraseOn(wl, buf, i);
    }
    len := |phrase| + 1;
    if room.None? { phrase := ""; }
    if room.Some? && len > room.value { len, phrase := 0, ""; }
  }

  lemma NoPhrase(wl: seq<string>, buf: seq<bv8>)
    requires |wl| == WORDS
    ensures Join(wl, WordsOf(Indices(buf, 0))) == ""
  {
  }

  lemma ReadsFour(bs: seq<bv8>, i: nat)
    requires i * 11 / 8 + 4 <= |bs|
    ensures var p := i * 11 / 8; IndexAt(bs, i) == Cut(bs[p], bs[p + 1], bs[p + 2], bs[p + 3], i * 11 % 8)
  {
  }

  // strncmp against every word of the list, and what follows the word.
  method FindWordOf(wl: seq<string>, s: string) returns (r: Option<nat>)
    ensures r == FindFrom(wl, s, 0)
  {
    var i := 0;
    while i < |wl|
      invariant i <= |wl| && FindFrom(wl, s, 0) == FindFrom(wl, s, i)
    {
      if |wl[i]| <= |s| && s[..|wl[i]|] == wl[i] && (|s| == |wl[i]| || s[|wl[i]|] == ' ') {
        assert Starts(wl[i], s);
        return Some(i);
      }
      i := i + 1;
    }
    return None;
  }

  method SkipWord(s: string) returns (r: string)
    ensures r == AfterSpace(s)
  {
    var i := 0;
    assert s[0..] == s;
    while i < |s|
      invariant i <= |s| && AfterSpace(s) == AfterSpace(s[i..])
    {
      assert s[i..][1..] == s[i + 1..];
      if s[i] == ' ' { return s[i + 1..]; }
      i := i + 1;
    }
    return "";
  }

  // The loop of BRBIP39Decode over the words of the phrase: rest is empty when all of it was read.
  method ReadWords(wl: seq<string>, phrase: string) returns (ix: seq<nat>, rest: string)
    requires |wl| == WORDS
    ensures InList(ix) && |ix| <= 24
    ensures if rest == "" then Parse(wl, phrase, 24) == Some(ix) else Parse(wl, phrase, 24).None?
  {
    hide FindFrom, AfterSpace;
    ix, rest := [], phrase;
    PrependNothing(Parse(wl, phrase, 24));
    while rest != "" && |ix| < 24
      invariant InList(ix) && |ix| <= 24
      invariant Parse(wl, phrase, 24) == Prepend(ix, Parse(wl, rest, 24 - |ix|))
      decreases 24 - |ix|
    {
      var i := FindWordOf(wl, rest);
      if i.None? { return; }
      var next := SkipWord(rest);
      PrependMore(ix, i.value, Parse(wl, next, 23 - |ix|));
      ix := ix + [i.value];
      rest := next;
    }
    assert rest == "" ==> ix + [] == ix;
  }

  function Prepend(ix: seq<nat>, r: Option<seq<nat>>): Option<seq<nat>> {
    if r.None? then None else Some(ix + r.value)
  }

  lemma PrependNothing(r: Option<seq<nat>>)
    ensures Prepend([], r) == r
  {
    if r.Some? { assert [] + r.value == r.value; }
  }

  lemma PrependMore(ix: seq<nat>, i: nat, r: Option<seq<nat>>)
    ensures Prepend(ix, Prepend([i], r)) == Prepend(ix + [i], r)
  {
    if r.Some? { assert ix + ([i] + r.value) == ix + [i] + r.value; }
  }

  /** BRBIP39Decode: the length is 0 for a phrase that is refused. */
  method Decode(room: Option<nat>, wl: seq<string>, phrase: string, sha: Hash) returns (len: nat, data: seq<bv8>)
    requires |wl| == WORDS && forall d :: |sha(d)| == 32
    ensures len == Written(|Decoded(wl, phrase, sha)|, room)
    ensures data == if room.Some? && |Decoded(wl, phrase, sha)| <= room.value then Decoded(wl, phrase, sha) else []
  {
    hide Parse, ByteAt, Top, BitsOf;
    var ix, rest := ReadWords(wl, phrase);
    var count := |ix|;
    len, data := 0, [];
    var buf: seq<bv8> := [];
    if count % 3 == 0 && rest == "" {
      var ws := BitsOf(ix);
      var b: bv8 := 0;
      for i := 0 to (count * 11 + 7) / 8
        invariant buf == Bytes(ws, i) && b == if i == 0 then 0 else ByteAt(ws, i - 1)
      {
        b := ByteAt(ws, i);
        buf := buf + [b];
        assert Bytes(ws, i + 1) == Bytes(ws, i) + [ByteAt(ws, i)];
      }
      assert (count * 11 + 7) / 8 == count * 4 / 3 + (if count == 0 then 0 else 1) by { ChecksumByte(count / 3); }
      var hash := sha(buf[..count * 4 / 3]);
      assert buf[..count * 4 / 3] == Bytes(ws, count * 4 / 3);
      if Top(b, count / 3) == Top(hash[0], count / 3) {
        len := count * 4 / 3;
      }
    }
    data := if room.Some? && len <= room.value then buf[..len] else [];
    len := if room.None? || len <= room.value then len else 0;
  }

  lemma ChecksumByte(k: nat)
    requires k <= 8
    ensures (3 * k * 11 + 7) / 8 == 4 * k + (if k == 0 then 0 else 1)
  {
  }
}
