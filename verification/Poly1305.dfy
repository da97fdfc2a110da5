/** The Poly1305 authenticator of BRCrypto.c: 26-bit limbs in 32-bit words, 64-bit products and lazy carries.
    Machine words are integers with their wrap-around written out.  Limb arithmetic is proved to compute in the
    field of 2^130 - 5 elements, as section 2.5 of RFC 7539 defines the tag. */
module Poly1305 {
  import opened Arith
  import opened Bytes

  const B: nat := 0x400_0000                                          // 2^26, the limb base
  const U32: nat := 0x1_0000_0000
  const U64: nat := 0x1_0000_0000_0000_0000
  const TWO128: nat := 0x1_00000000_00000000_00000000_00000000
  const P: nat := 0x3_ffffffff_ffffffff_ffffffff_fffffffb             // 2^130 - 5

  datatype Limbs = Limbs(l0: nat, l1: nat, l2: nat, l3: nat, l4: nat)
  datatype Words = Words(w0: nat, w1: nat, w2: nat, w3: nat)

  function Value(h: Limbs): nat {
    h.l0 + h.l1 * B + h.l2 * (B * B) + h.l3 * (B * B * B) + h.l4 * (B * B * B * B)
  }

  function Number(w: Words): nat { w.w0 + w.w1 * U32 + w.w2 * (U32 * U32) + w.w3 * (U32 * U32 * U32) }

  predicate IsWords(w: Words) { w.w0 < U32 && w.w1 < U32 && w.w2 < U32 && w.w3 < U32 }

  // lo | (w << log2 m) in a 32-bit word, where lo lies below the shifted bits.
  function OrShifted(lo: nat, w: nat, m: nat, k: nat): (r: nat)
    requires 0 < m && 0 < k && m * k == U32 && lo < m
    ensures r == lo + m * (w % k)
  {
    ShiftLeft(w, m, k);
    lo + (w * m) % U32
  }

  // ---------- splitting a 128-bit number into limbs ----------

  // The 26-bit pieces the source cuts out of four 32-bit words; the last one has 24 bits.
  function Split(t: Words): Limbs
    requires IsWords(t)
  {
    Limbs(t.w0 % B,
          OrShifted(t.w0 / B, t.w1, 0x40, 0x400_0000) % B,
          OrShifted(t.w1 / 0x10_0000, t.w2, 0x1000, 0x10_0000) % B,
          OrShifted(t.w2 / 0x4000, t.w3, 0x4_0000, 0x4000) % B,
          t.w3 / 0x100)
  }

  lemma PieceMod(lo: nat, w: nat, m: nat, k: nat, c: nat)
    requires lo < m && 0 < k && 0 < c
    ensures (lo + m * (w % (k * c))) % (m * k) == lo + m * (w % k)
  {
    var q, r, q' := w / k, w % k, w / (k * c);
    assert w % (k * c) == w - (k * c) * q';
    assert m * (w % (k * c)) == m * w - (m * k) * (c * q');
    assert m * w == (m * k) * q + m * r;
    MulMonotone(0, r, m);
    MulMonotone(r, k - 1, m);
    DivModUnique(lo + m * (w % (k * c)), m * k, q - c * q', lo + m * r);
  }

  lemma SplitValue(t: Words)
    requires IsWords(t)
    ensures Value(Split(t)) == Number(t)
    ensures var l := Split(t); l.l0 < B && l.l1 < B && l.l2 < B && l.l3 < B && l.l4 < 0x100_0000
  {
    PieceMod(t.w0 / B, t.w1, 0x40, 0x10_0000, 0x40);
    PieceMod(t.w1 / 0x10_0000, t.w2, 0x1000, 0x4000, 0x40);
    PieceMod(t.w2 / 0x4000, t.w3, 0x4_0000, 0x100, 0x40);
    var l := Split(t);
    assert l.l1 == t.w0 / B + 0x40 * (t.w1 % 0x10_0000);
    assert l.l2 == t.w1 / 0x10_0000 + 0x1000 * (t.w2 % 0x4000);
    assert l.l3 == t.w2 / 0x4000 + 0x4_0000 * (t.w3 % 0x100);
  }

  // ---------- the key ----------

  // r0..r4 as the source masks them.
  function Masked(t: Words): Limbs
    requires IsWords(t)
  {
    var l := Split(t);
    Limbs(l.l0,
          l.l1 % 4 + l.l1 / 0x100 * 0x100,                  // & 0x03ffff03
          l.l2 % 0x100 + l.l2 / 0x4000 * 0x4000,            // & 0x03ffc0ff
          l.l3 % 0x4000 + l.l3 / 0x10_0000 * 0x10_0000,     // & 0x03f03fff
          l.l4 % 0x10_0000)                                 // & 0x000fffff
  }

  // Section 2.5 of RFC 7539: r &= 0x0ffffffc0ffffffc0ffffffc0fffffff.
  function Clamped(t: Words): Words {
    Words(t.w0 % 0x1000_0000, t.w1 % 0x1000_0000 / 4 * 4, t.w2 % 0x1000_0000 / 4 * 4, t.w3 % 0x1000_0000 / 4 * 4)
  }

  predicate KeyLimbs(r: Limbs) { r.l0 < B && r.l1 < B && r.l2 < B && r.l3 < B && r.l4 < 0x10_0000 }

  lemma ModDiv(w: nat, a: nat, b: nat)
    requires 0 < a && 0 < b
    ensures w % (a * b) / a == w / a % b
  {
    var x, y := w % (a * b), w / (a * b);
    var q, r := x / a, x % a;
    if q >= b { MulMonotone(b, q, a); }
    assert (a * b) * y == a * (b * y);
    assert w == a * (b * y + q) + r;
    DivModUnique(w, a, b * y + q, r);
    DivModUnique(b * y + q, b, y, q);
  }

  lemma ModMod(w: nat, a: nat, b: nat)
    requires 0 < a && 0 < b
    ensures w % (a * b) % a == w % a
  {
    var x, y := w % (a * b), w / (a * b);
    assert w == x + a * (b * y);
    ModOfSum(x, a, b * y);
  }

  // A clamped middle word: two bits cleared below, four above, and cut at bit log2 4m for the limb boundary.
  lemma ClampedWord(w: nat, m: nat, k: nat, n: nat)
    requires w < U32 && 0 < m && 0 < k && n == m * k && 4 * n == 0x1000_0000
    ensures w % 0x1000_0000 / 4 * 4 == 4 * (w / 4 % m) + (4 * m) * (w / (4 * m) % k)
  {
    var v := w / 4;
    ModDiv(w, 4, n);
    ModDiv(v, m, k);
    ModMod(v, m, k);
    DivDiv(w, 4, m);
    ScaledDivMod(v % n, m);
  }

  lemma ScaledDivMod(x: nat, m: nat)
    requires 0 < m
    ensures x * 4 == 4 * (x % m) + (4 * m) * (x / m)
  {
  }

  // What is left of lo + m * x above bit log2 4m, where lo lies below m.
  lemma MaskHigh(lo: nat, x: nat, m: nat)
    requires lo < m
    ensures (lo + m * x) / (4 * m) == x / 4
  {
    var q, r := x / 4, x % 4;
    assert m * x == (4 * m) * q + m * r;
    MulMonotone(r, 3, m);
    DivModUnique(lo + m * x, 4 * m, q, lo + m * r);
  }

  lemma MaskOne(lo: nat, w: nat, r: nat)
    requires lo < 0x40 && r == lo + 0x40 * (w % 0x10_0000)
    ensures r % 4 + r / 0x100 * 0x100 == lo % 4 + 0x100 * (w / 4 % 0x4_0000)
  {
    var x := w % 0x10_0000;
    MaskHigh(lo, x, 0x40);
    ModOfSum(lo, 4, 0x10 * x);
    ModDiv(w, 4, 0x4_0000);
  }

  lemma MaskTwo(lo: nat, w: nat, r: nat)
    requires lo < 0x1000 && r == lo + 0x1000 * (w % 0x4000)
    ensures r % 0x100 + r / 0x4000 * 0x4000 == lo % 0x100 + 0x4000 * (w / 4 % 0x1000)
  {
    var x := w % 0x4000;
    MaskHigh(lo, x, 0x1000);
    ModOfSum(lo, 0x100, 0x10 * x);
    ModDiv(w, 4, 0x1000);
  }

  lemma MaskThree(lo: nat, w: nat, r: nat)
    requires lo < 0x4_0000 && r == lo + 0x4_0000 * (w % 0x100)
    ensures r % 0x4000 + r / 0x10_0000 * 0x10_0000 == lo % 0x4000 + 0x10_0000 * (w / 4 % 0x40)
  {
    var x := w % 0x100;
    MaskHigh(lo, x, 0x4_0000);
    ModOfSum(lo, 0x4000, 0x10 * x);
    ModDiv(w, 4, 0x40);
  }

  /** Masking the limbs is clamping the number. */
  lemma MaskedIsClamped(t: Words)
    requires IsWords(t)
    ensures Value(Masked(t)) == Number(Clamped(t)) && KeyLimbs(Masked(t))
  {
    PieceMod(t.w0 / B, t.w1, 0x40, 0x10_0000, 0x40);
    PieceMod(t.w1 / 0x10_0000, t.w2, 0x1000, 0x4000, 0x40);
    PieceMod(t.w2 / 0x4000, t.w3, 0x4_0000, 0x100, 0x40);
    var l := Split(t);
    MaskOne(t.w0 / B, t.w1, l.l1);
    MaskTwo(t.w1 / 0x10_0000, t.w2, l.l2);
    MaskThree(t.w2 / 0x4000, t.w3, l.l3);
    ClampedWord(t.w1, 0x4_0000, 0x100, 0x400_0000);
    ClampedWord(t.w2, 0x1000, 0x4000, 0x400_0000);
    ClampedWord(t.w3, 0x40, 0x10_0000, 0x400_0000);
    MaskedFields(t, Masked(t), Clamped(t));
  }

  lemma MaskedFields(t: Words, m: Limbs, c: Words)
    requires IsWords(t)
    requires m.l0 == t.w0 % B && c.w0 == t.w0 % 0x1000_0000
    requires m.l1 == t.w0 / B % 4 + 0x100 * (t.w1 / 4 % 0x4_0000)
    requires m.l2 == t.w1 / 0x10_0000 % 0x100 + 0x4000 * (t.w2 / 4 % 0x1000)
    requires m.l3 == t.w2 / 0x4000 % 0x4000 + 0x10_0000 * (t.w3 / 4 % 0x40)
    requires m.l4 == t.w3 / 0x100 % 0x10_0000
    requires c.w1 == 4 * (t.w1 / 4 % 0x4_0000) + 0x10_0000 * (t.w1 / 0x10_0000 % 0x100)
    requires c.w2 == 4 * (t.w2 / 4 % 0x1000) + 0x4000 * (t.w2 / 0x4000 % 0x4000)
    requires c.w3 == 4 * (t.w3 / 4 % 0x40) + 0x100 * (t.w3 / 0x100 % 0x10_0000)
    ensures Value(m) == Number(c) && KeyLimbs(m)
  {
    hide Value, Number, KeyLimbs;
    ModDiv(t.w0, B, 4);
    ModMod(t.w0, B, 4);
    FieldSum(m, c, t.w0 % B, t.w0 / B % 4, t.w1 / 4 % 0x4_0000, t.w1 / 0x10_0000 % 0x100,
             t.w2 / 4 % 0x1000, t.w2 / 0x4000 % 0x4000, t.w3 / 4 % 0x40, t.w3 / 0x100 % 0x10_0000);
  }

  // The bit fields of a clamped key, as limbs and as words.
  lemma FieldSum(m: Limbs, c: Words, a0: nat, a1: nat, b1: nat, b2: nat, c1: nat, c2: nat, e1: nat, e2: nat)
    requires a0 < B && a1 < 4 && b1 < 0x4_0000 && b2 < 0x100 && c1 < 0x1000 && c2 < 0x4000 && e1 < 0x40
    requires e2 < 0x10_0000
    requires m == Limbs(a0, a1 + 0x100 * b1, b2 + 0x4000 * c1, c2 + 0x10_0000 * e1, e2)
    requires c == Words(a0 + B * a1, 4 * b1 + 0x10_0000 * b2, 4 * c1 + 0x4000 * c2, 4 * e1 + 0x100 * e2)
    ensures Value(m) == Number(c) && KeyLimbs(m)
  {
  }

  // ---------- one block ----------

  // 64-bit column sums of a product of limbs.
  datatype Sums = Sums(d0: nat, d1: nat, d2: nat, d3: nat, d4: nat)

  function SumValue(d: Sums): nat {
    d.d0 + d.d1 * B + d.d2 * (B * B) + d.d3 * (B * B * B) + d.d4 * (B * B * B * B)
  }

  // h += x, in 32-bit words
  function Add(h: Limbs, x: Limbs): Limbs {
    Limbs((h.l0 + x.l0) % U32, (h.l1 + x.l1) % U32, (h.l2 + x.l2) % U32, (h.l3 + x.l3) % U32, (h.l4 + x.l4) % U32)
  }

  // h *= r, in 64-bit words, the limbs from 2^130 up folded back times 5
  function Multiply(h: Limbs, r: Limbs): Sums {
    Sums((h.l0 * r.l0 + h.l1 * r.l4 * 5 + h.l2 * r.l3 * 5 + h.l3 * r.l2 * 5 + h.l4 * r.l1 * 5) % U64,
         (h.l0 * r.l1 + h.l1 * r.l0 + h.l2 * r.l4 * 5 + h.l3 * r.l3 * 5 + h.l4 * r.l2 * 5) % U64,
         (h.l0 * r.l2 + h.l1 * r.l1 + h.l2 * r.l0 + h.l3 * r.l4 * 5 + h.l4 * r.l3 * 5) % U64,
         (h.l0 * r.l3 + h.l1 * r.l2 + h.l2 * r.l1 + h.l3 * r.l0 + h.l4 * r.l4 * 5) % U64,
         (h.l0 * r.l4 + h.l1 * r.l3 + h.l2 * r.l2 + h.l3 * r.l1 + h.l4 * r.l0) % U64)
  }

  function High(x: nat): nat { x / B }                // x >> 26
  function Low(x: nat): nat { x % B }                 // x & 0x03ffffff
  function Cut32(x: nat): nat { x % U32 }
  function Cut64(x: nat): nat { x % U64 }

  // (partial) h %= p: carries truncated to 32 bits, as the source casts them
  function Reduce(d: Sums): Limbs {
    var e1 := Cut64(d.d1 + Cut32(High(d.d0)));
    var e2 := Cut64(d.d2 + Cut32(High(e1)));
    var e3 := Cut64(d.d3 + Cut32(High(e2)));
    var e4 := Cut64(d.d4 + Cut32(High(e3)));
    var g0 := Cut32(Low(d.d0) + Cut32(Cut32(High(e4)) * 5));
    Limbs(Low(g0), Cut32(Low(e1) + High(g0)), Low(e2), Low(e3), Low(e4))
  }

  function Step(h: Limbs, r: Limbs, x: Limbs): Limbs { Reduce(Multiply(Add(h, x), r)) }

  // The limbs between blocks: all below 2^26 but for the last carry into l1.
  predicate Carried(h: Limbs) { h.l0 < B && h.l1 < B + 0x40 && h.l2 < B && h.l3 < B && h.l4 < B }

  predicate BlockLimbs(x: Limbs) { x.l0 < B && x.l1 < B && x.l2 < B && x.l3 < B && x.l4 < 0x200_0000 }

  predicate Loaded(a: Limbs) {
    a.l0 < 2 * B && a.l1 < 2 * B + 0x40 && a.l2 < 2 * B && a.l3 < 2 * B && a.l4 < 2 * B
  }

  lemma Truncation(x: nat)
    ensures x < U32 ==> x % U32 == x
    ensures x < U64 ==> x % U64 == x
    ensures x == B * (x / B) + x % B && x % B < B
    ensures x < 0x400_0000_0000_0000 ==> x / B < U32
  {
  }

  lemma AddExact(h: Limbs, x: Limbs)
    requires Carried(h) && BlockLimbs(x)
    ensures Loaded(Add(h, x)) && Value(Add(h, x)) == Value(h) + Value(x)
  {
    Truncation(h.l0 + x.l0);
    Truncation(h.l1 + x.l1);
    Truncation(h.l2 + x.l2);
    Truncation(h.l3 + x.l3);
    Truncation(h.l4 + x.l4);
    assert Add(h, x) == Limbs(h.l0 + x.l0, h.l1 + x.l1, h.l2 + x.l2, h.l3 + x.l3, h.l4 + x.l4);
  }

  lemma MulBound(a: nat, r: nat, ma: nat, mr: nat)
    requires a <= ma && r <= mr
    ensures a * r <= ma * mr
  {
  }

  const SUM_BOUND: nat := 0x3ff_ffff_0000_0000      // below 2^58, so that d / 2^26 fits 32 bits
  const TOP_BOUND: nat := 0x81_0000_0000_0000       // a little over 2^55, for the top column

  predicate Small(d: Sums) {
    d.d0 < SUM_BOUND && d.d1 < SUM_BOUND && d.d2 < SUM_BOUND && d.d3 < SUM_BOUND && d.d4 < TOP_BOUND
  }

  // The columns without word limits.
  function Columns(h: Limbs, r: Limbs): Sums {
    Sums(h.l0 * r.l0 + h.l1 * r.l4 * 5 + h.l2 * r.l3 * 5 + h.l3 * r.l2 * 5 + h.l4 * r.l1 * 5,
         h.l0 * r.l1 + h.l1 * r.l0 + h.l2 * r.l4 * 5 + h.l3 * r.l3 * 5 + h.l4 * r.l2 * 5,
         h.l0 * r.l2 + h.l1 * r.l1 + h.l2 * r.l0 + h.l3 * r.l4 * 5 + h.l4 * r.l3 * 5,
         h.l0 * r.l3 + h.l1 * r.l2 + h.l2 * r.l1 + h.l3 * r.l0 + h.l4 * r.l4 * 5,
         h.l0 * r.l4 + h.l1 * r.l3 + h.l2 * r.l2 + h.l3 * r.l1 + h.l4 * r.l0)
  }

  // The products of two limb vectors, by row.
  datatype Row = Row(p0: int, p1: int, p2: int, p3: int, p4: int)

  function Scaled(a: nat, r: Limbs): Row { Row(a * r.l0, a * r.l1, a * r.l2, a * r.l3, a * r.l4) }

  const PRODUCT_BOUND: nat := 0x20_0001_0000_0000   // a little over 2^53
  const SHORT_BOUND: nat := 0x8000_0400_0000        // a little over 2^47, for products with the 20-bit limb r4

  lemma ProductBounds(a: nat, r: Limbs)
    requires KeyLimbs(r) && a < 2 * B + 0x40
    ensures var p := Scaled(a, r);
      && 0 <= p.p0 <= PRODUCT_BOUND && 0 <= p.p1 <= PRODUCT_BOUND && 0 <= p.p2 <= PRODUCT_BOUND
      && 0 <= p.p3 <= PRODUCT_BOUND && 0 <= p.p4 <= SHORT_BOUND
  {
    OneProduct(a, r.l0);
    OneProduct(a, r.l1);
    OneProduct(a, r.l2);
    OneProduct(a, r.l3);
    MulBound(a, r.l4, 0x800_0040, 0x10_0000);
  }

  lemma OneProduct(a: nat, r: nat)
    requires a < 2 * B + 0x40 && r < B
    ensures 0 <= a * r <= PRODUCT_BOUND
  {
    MulBound(a, r, 0x800_0040, 0x400_0000);
  }

  /** No column wraps a 64-bit word. */
  lemma MultiplyExact(h: Limbs, r: Limbs)
    requires Loaded(h) && KeyLimbs(r)
    ensures Multiply(h, r) == Columns(h, r) && Small(Columns(h, r))
  {
    ProductBounds(h.l0, r);
    ProductBounds(h.l1, r);
    ProductBounds(h.l2, r);
    ProductBounds(h.l3, r);
    ProductBounds(h.l4, r);
    var c := Columns(h, r);
    assert Small(c);
    Truncation(c.d0);
    Truncation(c.d1);
    Truncation(c.d2);
    Truncation(c.d3);
    Truncation(c.d4);
  }

  // How often 2^130 - 5 the folding drops.
  function Folded(h: Limbs, r: Limbs): nat {
    (h.l1 * r.l4 + h.l2 * r.l3 + h.l3 * r.l2 + h.l4 * r.l1) + (h.l2 * r.l4 + h.l3 * r.l3 + h.l4 * r.l2) * B
    + (h.l3 * r.l4 + h.l4 * r.l3) * (B * B) + h.l4 * r.l4 * (B * B * B)
  }

  function RowValue(p: Row): int { p.p0 + p.p1 * B + p.p2 * (B * B) + p.p3 * (B * B * B) + p.p4 * (B * B * B * B) }

  lemma ScaleValue(a: nat, r: Limbs)
    ensures a * Value(r) == RowValue(Scaled(a, r))
  {
  }

  lemma FoldRows(a: Row, b: Row, c: Row, d: Row, e: Row)
    ensures RowValue(a) + RowValue(b) * B + RowValue(c) * (B * B) + RowValue(d) * (B * B * B)
            + RowValue(e) * (B * B * B * B)
         == (a.p0 + b.p4 * 5 + c.p3 * 5 + d.p2 * 5 + e.p1 * 5)
            + (a.p1 + b.p0 + c.p4 * 5 + d.p3 * 5 + e.p2 * 5) * B
            + (a.p2 + b.p1 + c.p0 + d.p4 * 5 + e.p3 * 5) * (B * B)
            + (a.p3 + b.p2 + c.p1 + d.p0 + e.p4 * 5) * (B * B * B)
            + (a.p4 + b.p3 + c.p2 + d.p1 + e.p0) * (B * B * B * B)
            + P * ((b.p4 + c.p3 + d.p2 + e.p1) + (c.p4 + d.p3 + e.p2) * B + (d.p4 + e.p3) * (B * B)
                   + e.p4 * (B * B * B))
  {
  }

  lemma SpreadValue(h: Limbs, v: nat)
    ensures Value(h) * v == h.l0 * v + (h.l1 * v) * B + (h.l2 * v) * (B * B) + (h.l3 * v) * (B * B * B)
                          + (h.l4 * v) * (B * B * B * B)
  {
  }

  /** The columns are the product, up to multiples of the prime. */
  lemma ColumnsValue(h: Limbs, r: Limbs)
    ensures Value(h) * Value(r) == SumValue(Columns(h, r)) + P * Folded(h, r)
  {
    hide Value, RowValue;
    ScaleValue(h.l0, r);
    ScaleValue(h.l1, r);
    ScaleValue(h.l2, r);
    ScaleValue(h.l3, r);
    ScaleValue(h.l4, r);
    SpreadValue(h, Value(r));
    FoldRows(Scaled(h.l0, r), Scaled(h.l1, r), Scaled(h.l2, r), Scaled(h.l3, r), Scaled(h.l4, r));
  }

  lemma HighLow(x: nat)
    ensures x == B * High(x) + Low(x) && Low(x) < B
  {
  }

  // Reduce without word limits.
  function Carry(d: Sums): Limbs {
    var e1 := d.d1 + High(d.d0);
    var e2 := d.d2 + High(e1);
    var e3 := d.d3 + High(e2);
    var e4 := d.d4 + High(e3);
    var g0 := Low(d.d0) + High(e4) * 5;
    Limbs(Low(g0), Low(e1) + High(g0), Low(e2), Low(e3), Low(e4))
  }

  lemma CarryValue(d: Sums) returns (k: nat)
    ensures SumValue(d) == Value(Carry(d)) + P * k
  {
    hide High, Low;
    var e1 := d.d1 + High(d.d0);
    var e2 := d.d2 + High(e1);
    var e3 := d.d3 + High(e2);
    var e4 := d.d4 + High(e3);
    k := High(e4);
    HighLow(d.d0);
    HighLow(e1);
    HighLow(e2);
    HighLow(e3);
    HighLow(e4);
    HighLow(Low(d.d0) + k * 5);
  }

  lemma ColumnFits(d: nat, q: nat)
    requires d < SUM_BOUND && q < U32
    ensures Cut64(d + Cut32(q)) == d + q && High(d + q) < U32 && Low(d + q) < B
  {
  }

  lemma FoldFits(d0: nat, d4: nat, q3: nat, e1: nat)
    requires d4 < TOP_BOUND && q3 < U32
    ensures var k := High(d4 + q3);
            var g0 := Low(d0) + k * 5;
      && Cut32(Low(d0) + Cut32(Cut32(k) * 5)) == g0
      && High(g0) < 0x40 && Low(g0) < B && Cut32(Low(e1) + High(g0)) == Low(e1) + High(g0)
  {
  }

  /** No carry is cut off, and the limbs come out carried. */
  lemma CarryFits(d: Sums)
    requires Small(d)
    ensures Reduce(d) == Carry(d) && Carried(Carry(d))
  {
    hide High, Low, Cut32, Cut64;
    ColumnFits(d.d0, 0);
    ColumnFits(d.d1, High(d.d0));
    ColumnFits(d.d2, High(d.d1 + High(d.d0)));
    var e2 := d.d2 + High(d.d1 + High(d.d0));
    ColumnFits(d.d3, High(e2));
    ColumnFits(d.d4, High(d.d3 + High(e2)));
    FoldFits(d.d0, d.d4, High(d.d3 + High(e2)), d.d1 + High(d.d0));
  }

  /** One block multiplies the accumulator plus the block by the key in the field. */
  lemma StepIsField(h: Limbs, r: Limbs, x: Limbs)
    requires Carried(h) && KeyLimbs(r) && BlockLimbs(x)
    ensures Carried(Step(h, r, x))
    ensures Value(Step(h, r, x)) % P == ((Value(h) + Value(x)) * Value(r)) % P
  {
    hide Value, SumValue, Columns, Folded, Carry, Reduce, Multiply, Add;
    var a := Add(h, x);
    AddExact(h, x);
    MultiplyExact(a, r);
    ColumnsValue(a, r);
    CarryFits(Columns(a, r));
    var k := CarryValue(Columns(a, r));
    ModOfSum(Value(Step(h, r, x)), P, k + Folded(a, r));
  }

  // ---------- the tag ----------

  predicate Canonical(h: Limbs) { h.l0 < B && h.l1 < B && h.l2 < B && h.l3 < B && h.l4 < B }

  // "fully carry h"
  function FullCarry(h: Limbs): Limbs {
    var e2 := h.l2 + High(h.l1);
    var e3 := h.l3 + High(e2);
    var e4 := h.l4 + High(e3);
    var e0 := h.l0 + High(e4) * 5;
    Limbs(Low(e0), Low(h.l1) + High(e0), Low(e2), Low(e3), Low(e4))
  }

  /** The final carry leaves every limb below 2^26. */
  lemma FullCarryExact(h: Limbs) returns (k: nat)
    requires Carried(h)
    ensures Canonical(FullCarry(h)) && Value(h) == Value(FullCarry(h)) + P * k
  {
    var e2 := h.l2 + High(h.l1);
    var e3 := h.l3 + High(e2);
    var e4 := h.l4 + High(e3);
    k := High(e4);
    FullCarryBound(h, e2, e3, e4, k);
    hide Value, FullCarry, High, Low;
    CarryPieces(h, e2, e3, e4, k);
  }

  lemma FullCarryBound(h: Limbs, e2: nat, e3: nat, e4: nat, k: nat)
    requires Carried(h)
    requires e2 == h.l2 + High(h.l1) && e3 == h.l3 + High(e2) && e4 == h.l4 + High(e3) && k == High(e4)
    ensures Canonical(FullCarry(h))
  {
    assert k == 0 || (k == 1 && h.l1 >= B);
  }

  lemma CarryPieces(h: Limbs, e2: nat, e3: nat, e4: nat, k: nat)
    requires e2 == h.l2 + High(h.l1) && e3 == h.l3 + High(e2) && e4 == h.l4 + High(e3) && k == High(e4)
    ensures Value(h) == Value(FullCarry(h)) + P * k
  {
    hide High, Low;
    HighLow(h.l1);
    HighLow(e2);
    HighLow(e3);
    HighLow(e4);
    HighLow(h.l0 + k * 5);
  }

  // "compute h + -p", its top limb in a 32-bit word
  function PlusMinusP(h: Limbs): Limbs {
    var t0 := h.l0 + 5;
    var t1 := h.l1 + High(t0);
    var t2 := h.l2 + High(t1);
    var t3 := h.l3 + High(t2);
    Limbs(Low(t0), Low(t1), Low(t2), Low(t3), (h.l4 + High(t3) + U32 - B) % U32)
  }

  // "select h if h < p, or h + -p if h >= p": by the sign bit of the top limb
  function Select(h: Limbs): Limbs {
    var t := PlusMinusP(h);
    if t.l4 / 0x8000_0000 == 1 then h else t
  }

  lemma SignBit(top: nat)
    requires top <= B
    ensures (top + U32 - B) % U32 / 0x8000_0000 == (if top < B then 1 else 0)
    ensures top == B ==> (top + U32 - B) % U32 == 0
  {
  }

  lemma SelectExact(h: Limbs)
    requires Canonical(h)
    ensures Canonical(Select(h)) && Value(Select(h)) == Value(h) % P
  {
    hide High, Low, Value;
    var t0 := h.l0 + 5;
    var t1 := h.l1 + High(t0);
    var t2 := h.l2 + High(t1);
    var t3 := h.l3 + High(t2);
    var top := h.l4 + High(t3);
    var low := Limbs(Low(t0), Low(t1), Low(t2), Low(t3), 0);
    HighLow(t0);
    HighLow(t1);
    HighLow(t2);
    HighLow(t3);
    PlusFive(h);
    SignBit(top);
    assert Select(h) == if top < B then h else low;
    TopLimb(low, top);
    ChooseResidue(Value(h), Value(low), top);
  }

  lemma TopLimb(low: Limbs, top: nat)
    requires Canonical(low) && low.l4 == 0
    ensures Value(low) < B * B * B * B
    ensures Value(Limbs(low.l0, low.l1, low.l2, low.l3, top)) == Value(low) + top * (B * B * B * B)
  {
  }

  // v + 5 has low part w and top limb t: whether v is below the prime shows in t.
  lemma ChooseResidue(v: nat, w: nat, t: nat)
    requires v + 5 == w + t * (B * B * B * B) && w < B * B * B * B && t <= B
    ensures v % P == if t < B then v else w
  {
  }

  lemma PlusFive(h: Limbs)
    requires Canonical(h)
    ensures var t0 := h.l0 + 5;
            var t1 := h.l1 + High(t0);
            var t2 := h.l2 + High(t1);
            var t3 := h.l3 + High(t2);
            && High(t3) <= 1
            && Value(h) + 5 == Value(Limbs(Low(t0), Low(t1), Low(t2), Low(t3), h.l4 + High(t3)))
  {
  }

  // "h = h % (2^128)", repacked into four words
  function Repack(h: Limbs): Words
    requires Canonical(h)
  {
    Words(OrShifted(h.l0, h.l1, 0x400_0000, 0x40),
          OrShifted(h.l1 / 0x40, h.l2, 0x10_0000, 0x1000),
          OrShifted(h.l2 / 0x1000, h.l3, 0x4000, 0x4_0000),
          OrShifted(h.l3 / 0x4_0000, h.l4, 0x100, 0x100_0000))
  }

  lemma RepackExact(h: Limbs)
    requires Canonical(h)
    ensures IsWords(Repack(h)) && Number(Repack(h)) == Value(h) % TWO128
  {
    var w := Repack(h);
    assert Value(h) == Number(w) + TWO128 * (h.l4 / 0x100_0000);
    NumberBound(w);
    DivModUnique(Value(h), TWO128, h.l4 / 0x100_0000, Number(w));
  }

  lemma NumberBound(w: Words)
    requires IsWords(w)
    ensures Number(w) < TWO128
  {
  }

  function High32(x: nat): nat { x / U32 }

  lemma HighLow32(x: nat)
    ensures x == U32 * High32(x) + Cut32(x) && Cut32(x) < U32
  {
  }

  // "mac = (h + pad) % (2^128)"
  function AddPad(h: Words, s: Words): Words {
    var d0 := h.w0 + s.w0;
    var d1 := h.w1 + s.w1 + High32(d0);
    var d2 := h.w2 + s.w2 + High32(d1);
    var d3 := h.w3 + s.w3 + High32(d2);
    Words(Cut32(d0), Cut32(d1), Cut32(d2), Cut32(d3))
  }

  lemma AddPadExact(h: Words, s: Words)
    requires IsWords(h) && IsWords(s)
    ensures IsWords(AddPad(h, s)) && Number(AddPad(h, s)) == (Number(h) + Number(s)) % TWO128
  {
    hide High32, Cut32;
    var d0 := h.w0 + s.w0;
    var d1 := h.w1 + s.w1 + High32(d0);
    var d2 := h.w2 + s.w2 + High32(d1);
    var d3 := h.w3 + s.w3 + High32(d2);
    HighLow32(d0);
    HighLow32(d1);
    HighLow32(d2);
    HighLow32(d3);
    NumberBound(AddPad(h, s));
    DivModUnique(Number(h) + Number(s), TWO128, High32(d3), Number(AddPad(h, s)));
  }

  function Finish(h: Limbs, s: Words): Words
    requires Canonical(Select(FullCarry(h)))
  {
    AddPad(Repack(Select(FullCarry(h))), s)
  }

  lemma FinishOk(h: Limbs)
    requires Carried(h)
    ensures Canonical(FullCarry(h)) && Canonical(Select(FullCarry(h)))
    ensures Value(Select(FullCarry(h))) == Value(h) % P
  {
    hide Value, FullCarry, Select, Canonical, Carried;
    var k := FullCarryExact(h);
    SelectExact(FullCarry(h));
    ModOfSum(Value(FullCarry(h)), P, k);
  }

  /** The tag of accumulator h is ((h mod 2^130 - 5) + s) mod 2^128. */
  lemma FinishIsTag(h: Limbs, s: Words)
    requires Carried(h) && IsWords(s)
    ensures Canonical(Select(FullCarry(h))) && IsWords(Finish(h, s))
    ensures Number(Finish(h, s)) == (Value(h) % P + Number(s)) % TWO128
  {
    hide Value, Number, AddPad, Repack, Select, FullCarry, Canonical;
    FinishOk(h);
    var f := Select(FullCarry(h));
    RepackExact(f);
    AddPadExact(Repack(f), s);
    ModAdd(Value(f), Number(s), TWO128);
  }

  // ---------- bytes and blocks ----------

  function Le32(s: seq<Byte>, i: nat): nat
    requires i + 4 <= |s|
  {
    var b0: nat, b1: nat, b2: nat, b3: nat := s[i], s[i + 1], s[i + 2], s[i + 3];
    b0 + 0x100 * b1 + 0x1_0000 * b2 + 0x100_0000 * b3
  }

  function LoadWords(s: seq<Byte>, i: nat): (w: Words)
    requires i + 16 <= |s|
    ensures IsWords(w)
  {
    Words(Le32(s, i), Le32(s, i + 4), Le32(s, i + 8), Le32(s, i + 12))
  }

  lemma LittleWord(s: seq<Byte>, i: nat)
    requires i + 4 <= |s|
    ensures Little(s[i..]) == Le32(s, i) + U32 * Little(s[i + 4..])
  {
    LittleByte(s, i);
    LittleByte(s, i + 1);
    LittleByte(s, i + 2);
    LittleByte(s, i + 3);
  }

  lemma LoadWordsLittle(s: seq<Byte>)
    requires |s| == 16
    ensures Number(LoadWords(s, 0)) == Little(s)
  {
    assert s[0..] == s;
    LittleWord(s, 0);
    LittleWord(s, 4);
    LittleWord(s, 8);
    LittleWord(s, 12);
  }

  // Section 2.5 of RFC 7539, byte by byte: four bytes lose their upper four bits and three their lower two.
  function ClampedBytes(k: seq<Byte>): seq<Byte>
    requires |k| == 16
  {
    [k[0], k[1], k[2], k[3] % 16, k[4] / 4 * 4, k[5], k[6], k[7] % 16,
     k[8] / 4 * 4, k[9], k[10], k[11] % 16, k[12] / 4 * 4, k[13], k[14], k[15] % 16]
  }

  /** The two numbers in the key. */
  lemma KeyNumbers(key: seq<Byte>)
    requires |key| == 32
    ensures Number(Clamped(LoadWords(key, 0))) == Little(ClampedBytes(key[..16]))
    ensures Number(LoadWords(key, 16)) == Little(key[16..])
  {
    hide Number, Little;
    var c := ClampedBytes(key[..16]);
    ClampedLow(key[0], key[1], key[2], key[3]);
    ClampedHigh(key[4], key[5], key[6], key[7]);
    ClampedHigh(key[8], key[9], key[10], key[11]);
    ClampedHigh(key[12], key[13], key[14], key[15]);
    assert Clamped(LoadWords(key, 0)) == LoadWords(c, 0);
    assert LoadWords(key, 16) == LoadWords(key[16..], 0);
    LoadWordsLittle(c);
    LoadWordsLittle(key[16..]);
  }

  lemma ClampedLow(a: Byte, b: Byte, c: Byte, d: Byte)
    ensures Le32([a, b, c, d], 0) % 0x1000_0000 == Le32([a, b, c, d % 16], 0)
  {
  }

  lemma ClampedHigh(a: Byte, b: Byte, c: Byte, d: Byte)
    ensures Le32([a, b, c, d], 0) % 0x1000_0000 / 4 * 4 == Le32([a / 4 * 4, b, c, d % 16], 0)
  {
    ClampedLow(a, b, c, d);
    var x := Le32([a, b, c, d % 16], 0);
    DivModUnique(x, 4, a / 4 + 0x40 * b + 0x4000 * c + 0x40_0000 * (d % 16), a % 4);
  }

  // A block as the loop loads it: a short last block is closed with a one byte and zeros, a full one gets a high bit.
  function Load(c: seq<Byte>): Limbs
    requires 1 <= |c| <= 16
  {
    if |c| < 16 then Split(LoadWords(c + [1] + Zeros(15 - |c|), 0))
    else
      var x := Split(LoadWords(c, 0));
      Limbs(x.l0, x.l1, x.l2, x.l3, x.l4 + 0x100_0000)
  }

  // Section 2.5 of RFC 7539: the block as a number with one bit added beyond its octets.
  function Coefficient(c: seq<Byte>): nat { Little(c) + Pow256(|c|) }

  lemma Pow256Of16()
    ensures Pow256(4) == U32 && Pow256(16) == TWO128
  {
  }

  lemma PaddedLittle(c: seq<Byte>, n: nat)
    ensures Little(c + [1] + Zeros(n)) == Coefficient(c)
  {
    var tail: seq<Byte> := [1] + Zeros(n);
    assert c + [1] + Zeros(n) == c + tail;
    LittleConcat(c, tail);
    assert tail[1..] == Zeros(n);
    LittleZeros(n);
  }

  lemma LoadValue(c: seq<Byte>)
    requires 1 <= |c| <= 16
    ensures BlockLimbs(Load(c)) && Value(Load(c)) == Coefficient(c)
  {
    hide Split, LoadWords, Number, Little, Pow256;
    if |c| < 16 {
      var p := c + [1] + Zeros(15 - |c|);
      SplitValue(LoadWords(p, 0));
      LoadWordsLittle(p);
      PaddedLittle(c, 15 - |c|);
    } else {
      SplitValue(LoadWords(c, 0));
      LoadWordsLittle(c);
      Pow256Of16();
    }
  }

  // ---------- messages ----------

  // The length of the last block of a nonempty message.
  function LastLen(n: nat): nat
    requires n > 0
  {
    (n - 1) % 16 + 1
  }

  // The limbs after all blocks of a message.
  function Fold(h: Limbs, r: Limbs, data: seq<Byte>): Limbs {
    if data == [] then h else
    var m := |data| - LastLen(|data|);
    Step(Fold(h, r, data[..m]), r, Load(data[m..]))
  }

  // The accumulator of section 2.5 of RFC 7539, started from a.
  function Accumulate(a: nat, r: nat, data: seq<Byte>): nat {
    if data == [] then a % P else
    var m := |data| - LastLen(|data|);
    ((Accumulate(a, r, data[..m]) + Coefficient(data[m..])) * r) % P
  }

  /** The limb code computes the accumulator, for a message of any length. */
  lemma {:induction false} FoldAccumulates(h: Limbs, r: Limbs, data: seq<Byte>)
    requires Carried(h) && KeyLimbs(r)
    ensures Carried(Fold(h, r, data))
    ensures Value(Fold(h, r, data)) % P == Accumulate(Value(h), Value(r), data)
  {
    hide Step, Load, Value, Coefficient, Carried, KeyLimbs, BlockLimbs;
    if data != [] {
      var m := |data| - LastLen(|data|);
      var f, x := Fold(h, r, data[..m]), Load(data[m..]);
      FoldAccumulates(h, r, data[..m]);
      LoadValue(data[m..]);
      StepIsField(f, r, x);
      FieldStep(Value(f), Value(x), Value(r));
    }
  }

  lemma FieldStep(f: nat, x: nat, r: nat)
    ensures ((f + x) * r) % P == ((f % P + x) * r) % P
  {
    ModAdd(f, x, P);
    ModMul(f + x, r, P);
    ModMul(f % P + x, r, P);
  }

  /** Feeding a message in two calls, cut at a block boundary, leaves the same limbs as one call. */
  lemma {:induction false} FoldSplits(h: Limbs, r: Limbs, a: seq<Byte>, b: seq<Byte>)
    requires |a| % 16 == 0
    ensures Fold(h, r, a + b) == Fold(Fold(h, r, a), r, b)
  {
    hide Step, Load;
    if b == [] {
      assert a + b == a;
    } else {
      var m := |b| - LastLen(|b|);
      FoldSplits(h, r, a, b[..m]);
      ModOfSum(|b| - 1, 16, |a| / 16);
      assert |a + b| - LastLen(|a + b|) == |a| + m;
      assert (a + b)[..|a| + m] == a + b[..m] && (a + b)[|a| + m..] == b[m..];
    }
  }

  // ---------- the closed form ----------

  // c_1 r^n + c_2 r^(n-1) + ... + c_n r
  function Polynomial(cs: seq<nat>, r: nat): nat {
    if cs == [] then 0 else cs[0] * Pow(r, |cs|) + Polynomial(cs[1..], r)
  }

  // The blocks of a message as numbers, in order.
  function Coefficients(data: seq<Byte>): seq<nat> {
    if data == [] then [] else
    var m := |data| - LastLen(|data|);
    Coefficients(data[..m]) + [Coefficient(data[m..])]
  }

  lemma {:induction false} PolynomialSnoc(cs: seq<nat>, c: nat, r: nat)
    ensures Polynomial(cs + [c], r) == (Polynomial(cs, r) + c) * r
  {
    if cs == [] {
      assert [c][1..] == [] && Pow(r, 1) == r * Pow(r, 0);
    } else {
      PolynomialSnoc(cs[1..], c, r);
      assert (cs + [c])[1..] == cs[1..] + [c];
      assert cs[0] * Pow(r, |cs| + 1) == (cs[0] * Pow(r, |cs|)) * r;
      var p, q := cs[0] * Pow(r, |cs|), Polynomial(cs[1..], r);
      assert (p + q + c) * r == p * r + (q + c) * r;
    }
  }

  /** The accumulator is the polynomial sum of block times power of the key, reduced once. */
  lemma {:induction false} AccumulatorIsPolynomial(r: nat, data: seq<Byte>)
    ensures Accumulate(0, r, data) == Polynomial(Coefficients(data), r) % P
  {
    if data != [] {
      var m := |data| - LastLen(|data|);
      AccumulatorIsPolynomial(r, data[..m]);
      PolynomialSnoc(Coefficients(data[..m]), Coefficient(data[m..]), r);
      FieldStep(Polynomial(Coefficients(data[..m]), r), Coefficient(data[m..]), r);
    }
  }

  // ---------- the code ----------

  function Snapshot(h: array<nat>): Limbs
    requires h.Length == 5
    reads h
  {
    Limbs(h[0], h[1], h[2], h[3], h[4])
  }

  /** _BRPoly1305Compress: folds data into h block by block; with `final` it leaves the tag's words in h[0..3]. */
  method Compress(h: array<nat>, key: seq<Byte>, data: seq<Byte>, final: bool)
    requires h.Length == 5 && |key| == 32 && Carried(Snapshot(h))
    modifies h
    ensures var r, s := Masked(LoadWords(key, 0)), LoadWords(key, 16);
            var f := Fold(old(Snapshot(h)), r, data);
            && Carried(f)
            && if final then Canonical(Select(FullCarry(f)))
                             && Words(h[0], h[1], h[2], h[3]) == Finish(f, s)
               else Snapshot(h) == f
  {
    hide Fold, Step, Load, Masked, Value, Number, Select, FullCarry, Canonical, Finish, Clamped, Coefficient, LoadWords;
    var t := LoadWords(key, 0);
    MaskedIsClamped(t);
    var r := Masked(t);
    FoldNothing(Snapshot(h), r);
    ghost var h0 := Snapshot(h);
    assert data[..0] == [];
    var i := 0;
    while i < |data|
      invariant 0 <= i && i % 16 == 0
      invariant Carried(Snapshot(h))
      invariant Snapshot(h) == Fold(h0, r, data[..if i < |data| then i else |data|])
      decreases |data| - i
    {
      var n := if i + 16 > |data| then |data| - i else 16;
      var x := Load(data[i..i + n]);
      LoadValue(data[i..i + n]);
      StepIsField(Snapshot(h), r, x);
      FoldNext(h0, r, data, i, n);
      var next := Step(Limbs(h[0], h[1], h[2], h[3], h[4]), r, x);
      h[0], h[1], h[2], h[3], h[4] := next.l0, next.l1, next.l2, next.l3, next.l4;
      i := i + 16;
    }
    assert data[..|data|] == data;
    if final {
      var f := Limbs(h[0], h[1], h[2], h[3], h[4]);
      var s := LoadWords(key, 16);
      FinishIsTag(f, s);
      var w := Finish(f, s);
      h[0], h[1], h[2], h[3] := w.w0, w.w1, w.w2, w.w3;
    }
  }

  lemma FoldNothing(h: Limbs, r: Limbs)
    ensures Fold(h, r, []) == h
  {
  }

  lemma FoldNext(h: Limbs, r: Limbs, data: seq<Byte>, i: nat, n: nat)
    requires i < |data| && i % 16 == 0 && n == if i + 16 > |data| then |data| - i else 16
    ensures Fold(h, r, data[..i + n]) == Step(Fold(h, r, data[..i]), r, Load(data[i..i + n]))
  {
    hide Step, Load;
    var d := data[..i + n];
    assert LastLen(i + n) == n;
    assert d[..i] == data[..i] && d[i..] == data[i..i + n];
  }

  function ToBytes(w: nat): (s: seq<Byte>)
    requires w < U32
    ensures |s| == 4 && Little(s) == w
  {
    var s: seq<Byte> := [w % 0x100, w / 0x100 % 0x100, w / 0x1_0000 % 0x100, w / 0x100_0000];
    LittleOfFour(s, w);
    s
  }

  lemma LittleOfFour(s: seq<Byte>, w: nat)
    requires |s| == 4 && w < U32
    requires s[0] == w % 0x100 && s[1] == w / 0x100 % 0x100 && s[2] == w / 0x1_0000 % 0x100 && s[3] == w / 0x100_0000
    ensures Little(s) == w
  {
    hide Little;
    LittleWord(s, 0);
    LittleNothing();
    assert s[0..] == s && s[4..] == [];
    FourBytes(w);
  }

  lemma FourBytes(w: nat)
    ensures w == w % 0x100 + 0x100 * (w / 0x100 % 0x100)
              + 0x1_0000 * (w / 0x1_0000 % 0x100) + 0x100_0000 * (w / 0x100_0000)
  {
    DivDiv(w, 0x100, 0x100);
    DivDiv(w, 0x1_0000, 0x100);
  }

  /** BRPoly1305: for every key and message the tag is (sum of block * r^k mod 2^130 - 5) + s, mod 2^128, with r the
      clamped first half of the key and s the second. */
  method Authenticate(key: seq<Byte>, data: seq<Byte>) returns (mac: seq<Byte>)
    requires |key| == 32
    ensures |mac| == 16
    ensures var r, s := Little(ClampedBytes(key[..16])), Little(key[16..]);
            Little(mac) == (Polynomial(Coefficients(data), r) % P + s) % TWO128
  {
    hide Fold, Masked, Value, Select, FullCarry, Canonical, Finish, Clamped, LoadWords, Number, Polynomial,
         Coefficients, Accumulate, ClampedBytes;
    var h := new nat[5](_ => 0);
    ghost var start := Snapshot(h);
    Compress(h, key, data, true);
    ghost var t := LoadWords(key, 0);
    MaskedIsClamped(t);
    KeyNumbers(key);
    ZeroValue(start);
    FoldAccumulates(start, Masked(t), data);
    AccumulatorIsPolynomial(Value(Masked(t)), data);
    FinishIsTag(Fold(start, Masked(t), data), LoadWords(key, 16));
    mac := TagBytes(Words(h[0], h[1], h[2], h[3]));
  }

  lemma ZeroValue(h: Limbs)
    ensures h == Limbs(0, 0, 0, 0, 0) ==> Value(h) == 0
  {
  }

  function TagBytes(w: Words): (s: seq<Byte>)
    requires IsWords(w)
    ensures |s| == 16 && Little(s) == Number(w)
  {
    var a, b, c, d := ToBytes(w.w0), ToBytes(w.w1), ToBytes(w.w2), ToBytes(w.w3);
    LittleOfWords(w, a, b, c, d);
    a + (b + (c + d))
  }

  lemma LittleOfWords(w: Words, a: seq<Byte>, b: seq<Byte>, c: seq<Byte>, d: seq<Byte>)
    requires |a| == |b| == |c| == |d| == 4
    requires Little(a) == w.w0 && Little(b) == w.w1 && Little(c) == w.w2 && Little(d) == w.w3
    ensures Little(a + (b + (c + d))) == Number(w)
  {
    hide Little, Pow256;
    Pow256Of16();
    LittleConcat(c, d);
    LittleConcat(b, c + d);
    LittleConcat(a, b + (c + d));
  }
}
