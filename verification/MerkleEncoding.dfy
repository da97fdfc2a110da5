/** The Merkle tree of a block as the comment in BRMerkleBlock.c lays it out row by row, its partial encoding for a
    set of matched transactions (BIP37), and the proof that the decoders undo that encoding. */
module MerkleEncoding {
  import Arith
  import opened Bytes
  import opened Merkle

  // ---------- rows ----------

  // The row above: hashes of adjacent pairs, the last hash doubled when the row is odd.
  function Next(H: Hash2, row: seq<Hash>): (r: seq<Hash>)
    ensures |r| == (|row| + 1) / 2
  {
    seq((|row| + 1) / 2, i requires 0 <= i < (|row| + 1) / 2 =>
        H(row[2 * i], if 2 * i + 1 < |row| then row[2 * i + 1] else row[2 * i]))
  }

  // "This procedure repeats recursively until we reach a row consisting of just a single double-hash."
  function MerkleRoot(H: Hash2, row: seq<Hash>): Hash
    requires |row| > 0
    decreases |row|
  {
    if |row| == 1 then row[0] else MerkleRoot(H, Next(H, row))
  }

  // The length of the h-th row above n hashes.
  function Width(n: nat, h: nat): nat { if h == 0 then n else (Width(n, h - 1) + 1) / 2 }

  function Row(H: Hash2, ids: seq<Hash>, h: nat): (row: seq<Hash>)
    ensures |row| == Width(|ids|, h)
  {
    if h == 0 then ids else Next(H, Row(H, ids, h - 1))
  }

  lemma {:induction false} RowShift(H: Hash2, ids: seq<Hash>, h: nat)
    ensures Row(H, ids, h + 1) == Row(H, Next(H, ids), h)
  {
    if h > 0 { RowShift(H, ids, h - 1); }
  }

  lemma {:induction false} TopRow(H: Hash2, ids: seq<Hash>)
    requires |ids| > 0
    ensures Row(H, ids, Depth(|ids|)) == [MerkleRoot(H, ids)]
    decreases |ids|
  {
    if |ids| > 1 {
      TopRow(H, Next(H, ids));
      RowShift(H, ids, Depth(|ids|) - 1);
    }
  }

  // ---------- the encoder ----------

  // The transactions of a block, and which of them are matched.
  datatype Txs = Txs(ids: seq<Hash>, matches: seq<bool>)

  predicate IsTxs(x: Txs) { |x.ids| > 0 && |x.matches| == |x.ids| }

  // Whether node p at height h is the parent of a matched transaction, or one itself.
  predicate AnyMatch(x: Txs, h: nat, p: nat)
    requires IsTxs(x) && p < Width(|x.ids|, h)
  {
    if h == 0 then x.matches[p]
    else AnyMatch(x, h - 1, 2 * p) || (2 * p + 1 < Width(|x.ids|, h - 1) && AnyMatch(x, h - 1, 2 * p + 1))
  }

  // The flag bits stored for node p at height h, depth first.
  function Flags(x: Txs, h: nat, p: nat): (e: seq<bool>)
    requires IsTxs(x) && p < Width(|x.ids|, h)
    ensures |e| > 0
  {
    if h == 0 || !AnyMatch(x, h, p) then [AnyMatch(x, h, p)]
    else [true] + (Flags(x, h - 1, 2 * p)
                   + if 2 * p + 1 < Width(|x.ids|, h - 1) then Flags(x, h - 1, 2 * p + 1) else [])
  }

  // The hashes stored for it.
  function Hashes(H: Hash2, x: Txs, h: nat, p: nat): (e: seq<Hash>)
    requires IsTxs(x) && p < Width(|x.ids|, h)
    ensures |e| > 0
  {
    if h == 0 || !AnyMatch(x, h, p) then [Row(H, x.ids, h)[p]]
    else Hashes(H, x, h - 1, 2 * p)
         + if 2 * p + 1 < Width(|x.ids|, h - 1) then Hashes(H, x, h - 1, 2 * p + 1) else []
  }

  // The tree the decoders should read back.
  function TreeOf(H: Hash2, x: Txs, h: nat, p: nat): Tree
    requires IsTxs(x) && p < Width(|x.ids|, h)
  {
    if h == 0 || !AnyMatch(x, h, p) then Leaf(Row(H, x.ids, h)[p], AnyMatch(x, h, p))
    else Node(TreeOf(H, x, h - 1, 2 * p),
              if 2 * p + 1 < Width(|x.ids|, h - 1) then TreeOf(H, x, h - 1, 2 * p + 1) else Missing)
  }

  // ---------- the decoders read the tree back ----------

  ghost predicate BitsAt(flags: seq<Byte>, fi: nat, bits: seq<bool>) {
    && (fi + |bits| + 7) / 8 <= |flags|
    && forall k :: 0 <= k < |bits| ==> Bit(flags, fi + k) == bits[k]
  }

  ghost predicate HashesAt(s: seq<Hash>, hi: nat, e: seq<Hash>) { hi + |e| <= |s| && s[hi..hi + |e|] == e }

  lemma BitsSplit(flags: seq<Byte>, fi: nat, a: seq<bool>, b: seq<bool>)
    requires BitsAt(flags, fi, a + b)
    ensures BitsAt(flags, fi, a) && BitsAt(flags, fi + |a|, b)
  {
    forall k | 0 <= k < |a|
      ensures Bit(flags, fi + k) == a[k]
    {
      assert (a + b)[k] == a[k];
    }
    forall k | 0 <= k < |b|
      ensures Bit(flags, fi + |a| + k) == b[k]
    {
      assert (a + b)[|a| + k] == b[k] && Bit(flags, fi + (|a| + k)) == b[k];
    }
  }

  lemma HashesSplit(s: seq<Hash>, hi: nat, a: seq<Hash>, b: seq<Hash>)
    requires HashesAt(s, hi, a + b)
    ensures HashesAt(s, hi, a) && HashesAt(s, hi + |a|, b)
  {
    assert s[hi..hi + |a|] == s[hi..hi + |a + b|][..|a|];
    assert s[hi + |a|..hi + |a + b|] == s[hi..hi + |a + b|][|a|..];
  }

  // From flag fi and hash hi on, the block holds the encoding of node p at height h; nothing follows the last node.
  ghost predicate Holds(b: Block, H: Hash2, x: Txs, h: nat, p: nat, hi: nat, fi: nat)
    requires IsTxs(x) && p < Width(|x.ids|, h)
  {
    && HashesAt(b.hashes, hi, Hashes(H, x, h, p)) && BitsAt(b.flags, fi, Flags(x, h, p))
    && (p + 1 == Width(|x.ids|, h) ==> hi + |Hashes(H, x, h, p)| == |b.hashes|)
  }

  // What follows the left child in the encoding of an inner node.
  function RightFlags(x: Txs, h: nat, p: nat): seq<bool>
    requires IsTxs(x)
  {
    if p < Width(|x.ids|, h) then Flags(x, h, p) else []
  }

  function RightHashes(H: Hash2, x: Txs, h: nat, p: nat): seq<Hash>
    requires IsTxs(x)
  {
    if p < Width(|x.ids|, h) then Hashes(H, x, h, p) else []
  }

  lemma EncodeParts(H: Hash2, x: Txs, h: nat, p: nat)
    requires IsTxs(x) && p < Width(|x.ids|, h) && h > 0 && AnyMatch(x, h, p)
    ensures 2 * p < Width(|x.ids|, h - 1)
    ensures Flags(x, h, p) == [true] + (Flags(x, h - 1, 2 * p) + RightFlags(x, h - 1, 2 * p + 1))
    ensures Hashes(H, x, h, p) == Hashes(H, x, h - 1, 2 * p) + RightHashes(H, x, h - 1, 2 * p + 1)
    ensures p + 1 < Width(|x.ids|, h) ==> 2 * p + 2 < Width(|x.ids|, h - 1)
    ensures p + 1 == Width(|x.ids|, h) ==> Width(|x.ids|, h - 1) <= 2 * p + 2
  {
  }

  lemma HoldsSplit(b: Block, H: Hash2, x: Txs, h: nat, p: nat, hi: nat, fi: nat)
    requires IsTxs(x) && p < Width(|x.ids|, h) && Holds(b, H, x, h, p, hi, fi)
    requires h > 0 && AnyMatch(x, h, p)
    ensures 2 * p < Width(|x.ids|, h - 1) && Holds(b, H, x, h - 1, 2 * p, hi, fi + 1)
    ensures 2 * p + 1 < Width(|x.ids|, h - 1) ==>
              Holds(b, H, x, h - 1, 2 * p + 1, hi + |Hashes(H, x, h - 1, 2 * p)|, fi + 1 + |Flags(x, h - 1, 2 * p)|)
  {
    hide Row, BitsAt, HashesAt, Hashes, Flags, AnyMatch, Width;
    EncodeParts(H, x, h, p);
    var f, s := Flags(x, h - 1, 2 * p), Hashes(H, x, h - 1, 2 * p);
    BitsSplit(b.flags, fi, [true], f + RightFlags(x, h - 1, 2 * p + 1));
    BitsSplit(b.flags, fi + 1, f, RightFlags(x, h - 1, 2 * p + 1));
    HashesSplit(b.hashes, hi, s, RightHashes(H, x, h - 1, 2 * p + 1));
  }

  // The lengths of what encodes a node.
  lemma EncodeOnce(H: Hash2, x: Txs, h: nat, p: nat)
    requires IsTxs(x) && p < Width(|x.ids|, h)
    ensures h == 0 || !AnyMatch(x, h, p) ==> |Hashes(H, x, h, p)| == |Flags(x, h, p)| == 1
    ensures h > 0 ==> 2 * p < Width(|x.ids|, h - 1)
    ensures h > 0 && AnyMatch(x, h, p) ==>
              && |Hashes(H, x, h, p)| == |Hashes(H, x, h - 1, 2 * p)| + |RightHashes(H, x, h - 1, 2 * p + 1)|
              && |Flags(x, h, p)| == 1 + |Flags(x, h - 1, 2 * p)| + |RightFlags(x, h - 1, 2 * p + 1)|
              && (2 * p + 1 >= Width(|x.ids|, h - 1) ==> p + 1 == Width(|x.ids|, h))
  {
    hide Row, AnyMatch, TreeOf, Width, Hashes, Flags, RightHashes, RightFlags;
    TreeOnce(H, x, h, p);
    if h > 0 && AnyMatch(x, h, p) {
      EncodeParts(H, x, h, p);
    } else {
      EncodeLeaf(H, x, h, p);
    }
  }

  lemma EncodeLeaf(H: Hash2, x: Txs, h: nat, p: nat)
    requires IsTxs(x) && p < Width(|x.ids|, h) && (h == 0 || !AnyMatch(x, h, p))
    ensures |Hashes(H, x, h, p)| == |Flags(x, h, p)| == 1
  {
  }

  lemma TreeOnce(H: Hash2, x: Txs, h: nat, p: nat)
    requires IsTxs(x) && p < Width(|x.ids|, h)
    ensures h > 0 ==> 2 * p < Width(|x.ids|, h - 1)
    ensures TreeOf(H, x, h, p)
         == if h == 0 || !AnyMatch(x, h, p) then Leaf(Row(H, x.ids, h)[p], AnyMatch(x, h, p))
            else Node(TreeOf(H, x, h - 1, 2 * p),
                      if 2 * p + 1 < Width(|x.ids|, h - 1) then TreeOf(H, x, h - 1, 2 * p + 1) else Missing)
  {
  }

  lemma {:induction false} ParsesTree(b: Block, H: Hash2, x: Txs, h: nat, p: nat, hi: nat, fi: nat)
    requires IsTxs(x) && b.totalTx == |x.ids| && h <= Depth(b.totalTx) && p < Width(|x.ids|, h)
    requires Holds(b, H, x, h, p, hi, fi)
    ensures Parse(b, hi, fi, Depth(b.totalTx) - h)
         == (TreeOf(H, x, h, p), hi + |Hashes(H, x, h, p)|, fi + |Flags(x, h, p)|)
    decreases h
  {
    hide Parse, Bit, Depth, Row, TreeOf, Hashes, Flags, AnyMatch, Width, HashesAt, BitsAt;
    var d := Depth(b.totalTx) - h;
    EncodeOnce(H, x, h, p);
    TreeOnce(H, x, h, p);
    HoldsFirst(b, H, x, h, p, hi, fi);
    ParseOnce(b, hi, fi, d);
    if h > 0 && AnyMatch(x, h, p) {
      var hi1, fi1 := hi + |Hashes(H, x, h - 1, 2 * p)|, fi + 1 + |Flags(x, h - 1, 2 * p)|;
      HoldsSplit(b, H, x, h, p, hi, fi);
      ParsesTree(b, H, x, h - 1, 2 * p, hi, fi + 1);
      if 2 * p + 1 < Width(|x.ids|, h - 1) {
        ParsesTree(b, H, x, h - 1, 2 * p + 1, hi1, fi1);
      } else {
        ParseOnce(b, hi1, fi1, d + 1);
      }
    }
  }

  lemma HoldsFirst(b: Block, H: Hash2, x: Txs, h: nat, p: nat, hi: nat, fi: nat)
    requires IsTxs(x) && p < Width(|x.ids|, h) && Holds(b, H, x, h, p, hi, fi)
    ensures More(b, hi, fi)
    ensures Bit(b.flags, fi) <==> AnyMatch(x, h, p)
    ensures h == 0 || !AnyMatch(x, h, p) ==> b.hashes[hi] == Row(H, x.ids, h)[p]
  {
    hide Row;
    var e := Hashes(H, x, h, p);
    assert Bit(b.flags, fi + 0) == Flags(x, h, p)[0];
    assert b.hashes[hi] == b.hashes[hi..hi + |e|][0];
  }

  // ---------- what the tree says ----------

  // The pair of siblings that starts at p differs, and neither is zero.
  predicate SoundPair(row: seq<Hash>, p: nat) {
    && (p < |row| ==> row[p] != ZERO)
    && (p + 1 < |row| ==> row[p + 1] != ZERO && row[p] != row[p + 1])
  }

  // No node below the root is zero and no two distinct siblings are equal.
  ghost predicate Sound(H: Hash2, ids: seq<Hash>) {
    forall h: nat, p: nat :: h < Depth(|ids|) ==> SoundPair(Row(H, ids, h), 2 * p)
  }

  lemma RowAbove(H: Hash2, ids: seq<Hash>, h: nat, p: nat)
    requires h > 0 && p < Width(|ids|, h)
    ensures var row := Row(H, ids, h - 1);
            && 2 * p < |row|
            && Row(H, ids, h)[p] == H(row[2 * p], if 2 * p + 1 < |row| then row[2 * p + 1] else row[2 * p])
  {
  }

  /** The tree passes the duplicate guard and folds to its node's hash. */
  lemma {:induction false} TreeFolds(H: Hash2, x: Txs, h: nat, p: nat)
    requires IsTxs(x) && p < Width(|x.ids|, h) && h <= Depth(|x.ids|) && Sound(H, x.ids)
    ensures Fold(H, TreeOf(H, x, h, p)) == Row(H, x.ids, h)[p] && Guarded(H, TreeOf(H, x, h, p))
  {
    hide Row, TreeOf, AnyMatch, Width;
    TreeOnce(H, x, h, p);
    if h > 0 && AnyMatch(x, h, p) {
      var row := Row(H, x.ids, h - 1);
      RowAbove(H, x.ids, h, p);
      TreeFolds(H, x, h - 1, 2 * p);
      assert SoundPair(row, 2 * p);
      if 2 * p + 1 < Width(|x.ids|, h - 1) { TreeFolds(H, x, h - 1, 2 * p + 1); }
    }
  }

  // The ids at positions lo up to hi that are matched, in order.
  function Selected(x: Txs, lo: nat, hi: nat): seq<Hash>
    requires IsTxs(x) && lo <= hi <= |x.ids|
    decreases hi - lo
  {
    if lo == hi then [] else (if x.matches[lo] then [x.ids[lo]] else []) + Selected(x, lo + 1, hi)
  }

  lemma {:induction false} SelectedSplits(x: Txs, lo: nat, mid: nat, hi: nat)
    requires IsTxs(x) && lo <= mid <= hi <= |x.ids|
    ensures Selected(x, lo, hi) == Selected(x, lo, mid) + Selected(x, mid, hi)
    decreases mid - lo
  {
    if lo < mid { SelectedSplits(x, lo + 1, mid, hi); }
  }

  // One past the last transaction below node p at height h; a row's node covers the leaves of its two children.
  function Until(n: nat, h: nat, p: nat): nat { Min(n, (p + 1) * Pow2(h)) }

  lemma MulLess(a: int, b: int, c: nat)
    ensures a <= b ==> a * c <= b * c
  {
  }

  lemma {:induction false} WidthBound(n: nat, h: nat)
    requires n > 0
    ensures Width(n, h) > 0
    ensures (Width(n, h) - 1) * Pow2(h) < n <= Width(n, h) * Pow2(h)
  {
    if h > 0 {
      WidthBound(n, h - 1);
      HalveWidth(n, Width(n, h - 1), Width(n, h), Pow2(h - 1));
    }
  }

  lemma HalveWidth(n: nat, w: nat, v: nat, c: nat)
    requires w > 0 && v == (w + 1) / 2 && (w - 1) * c < n <= w * c
    ensures (v - 1) * (2 * c) < n <= v * (2 * c)
  {
    assert (v - 1) * (2 * c) == (2 * v - 2) * c && v * (2 * c) == (2 * v) * c;
    MulLess(2 * v - 2, w - 1, c);
    MulLess(w, 2 * v, c);
  }

  // Node p of a row starts inside the leaves; a missing right child would start beyond them.
  lemma WidthCovers(n: nat, h: nat, p: nat)
    requires n > 0
    ensures p < Width(n, h) ==> p * Pow2(h) < n
    ensures p >= Width(n, h) ==> p * Pow2(h) >= n
  {
    WidthBound(n, h);
    MulLess(p, Width(n, h) - 1, Pow2(h));
    MulLess(Width(n, h), p, Pow2(h));
  }

  // The leaves below node p at height h are those of its children.
  lemma ChildRanges(h: nat, p: nat)
    requires h > 0
    ensures p * Pow2(h) == (2 * p) * Pow2(h - 1)
    ensures (p + 1) * Pow2(h) == (2 * p + 1 + 1) * Pow2(h - 1)
    ensures (2 * p) * Pow2(h - 1) <= (2 * p + 1) * Pow2(h - 1) <= (2 * p + 2) * Pow2(h - 1)
  {
  }

  /** The tree's matched leaves are the matched transactions below it, in order. */
  lemma {:induction false} TreeMatches(H: Hash2, x: Txs, h: nat, p: nat)
    requires IsTxs(x) && p < Width(|x.ids|, h)
    ensures p * Pow2(h) <= Until(|x.ids|, h, p)
    ensures Matched(TreeOf(H, x, h, p)) == Selected(x, p * Pow2(h), Until(|x.ids|, h, p))
    ensures !AnyMatch(x, h, p) ==> Matched(TreeOf(H, x, h, p)) == []
    decreases h
  {
    hide Row, Pow2, TreeOf, AnyMatch, Width, Selected;
    var n := |x.ids|;
    WidthCovers(n, h, p);
    TreeOnce(H, x, h, p);
    AnyMatchOnce(x, h, p);
    if h == 0 {
      PowZero();
      RowZero(H, x);
      SelectedOnce(x, p);
    } else {
      var l, m, e := p * Pow2(h), (2 * p + 1) * Pow2(h - 1), Until(n, h, p);
      ChildRanges(h, p);
      TreeMatches(H, x, h - 1, 2 * p);
      WidthCovers(n, h - 1, 2 * p + 1);
      if 2 * p + 1 < Width(n, h - 1) {
        TreeMatches(H, x, h - 1, 2 * p + 1);
        SelectedSplits(x, l, m, e);
      }
    }
  }

  lemma AnyMatchOnce(x: Txs, h: nat, p: nat)
    requires IsTxs(x) && p < Width(|x.ids|, h)
    ensures h == 0 ==> p < |x.ids| && AnyMatch(x, h, p) == x.matches[p]
    ensures h > 0 ==> 2 * p < Width(|x.ids|, h - 1)
    ensures h > 0 && !AnyMatch(x, h, p) ==>
              && !AnyMatch(x, h - 1, 2 * p)
              && (2 * p + 1 < Width(|x.ids|, h - 1) ==> !AnyMatch(x, h - 1, 2 * p + 1))
  {
  }

  lemma SelectedOnce(x: Txs, p: nat)
    requires IsTxs(x) && p < |x.ids|
    ensures Selected(x, p, p + 1) == if x.matches[p] then [x.ids[p]] else []
  {
  }

  lemma PowZero()
    ensures Pow2(0) == 1
  {
  }

  lemma RowZero(H: Hash2, x: Txs)
    ensures Row(H, x.ids, 0) == x.ids
  {
  }

  // ---------- the main result ----------

  // b is the partial Merkle block for x: the encoding's hashes, its flags padded to whole bytes in any way.
  ghost predicate IsMerkleBlock(b: Block, H: Hash2, x: Txs)
    requires IsTxs(x)
    requires 0 < Width(|x.ids|, Depth(|x.ids|))
  {
    && b.totalTx == |x.ids|
    && b.hashes == Hashes(H, x, Depth(|x.ids|), 0)
    && BitsAt(b.flags, 0, Flags(x, Depth(|x.ids|), 0))
  }

  function One(bits: seq<bool>, i: nat): (n: nat)
    ensures n <= 1
  {
    if i < |bits| && bits[i] then 1 else 0
  }

  // The n flag bits from the o-th on as a number, the first one lowest.
  function Number(bits: seq<bool>, o: nat, n: nat): (p: nat)
    ensures p < Pow2(n)
    decreases n
  {
    if n == 0 then 0 else One(bits, o) + 2 * Number(bits, o + 1, n - 1)
  }

  // Eight flag bits to a byte.
  function Packed(bits: seq<bool>): seq<Byte> {
    SmallPower();
    seq((|bits| + 7) / 8, k requires 0 <= k => Number(bits, 8 * k, 8))
  }

  lemma SmallPower()
    ensures Pow2(8) == 256
  {
  }

  lemma {:induction false} BitOfNumber(bits: seq<bool>, o: nat, n: nat, j: nat)
    requires j < n
    ensures Number(bits, o, n) / Pow2(j) % 2 == One(bits, o + j)
    decreases n
  {
    hide One;
    var rest := Number(bits, o + 1, n - 1);
    Arith.DivModUnique(Number(bits, o, n), 2, rest, One(bits, o));
    if j > 0 {
      Arith.DivDiv(Number(bits, o, n), 2, Pow2(j - 1));
      BitOfNumber(bits, o + 1, n - 1, j - 1);
    }
  }

  /** The decoder reads the packed bits back. */
  lemma BitsOfPacked(bits: seq<bool>)
    ensures BitsAt(Packed(bits), 0, bits)
  {
    hide Number, Pow2;
    forall i | 0 <= i < |bits|
      ensures Bit(Packed(bits), i) == bits[i]
    {
      BitOfNumber(bits, 8 * (i / 8), 8, i % 8);
    }
  }

  // The message of BIP37 for a block and its matched transactions.
  function Encoded(H: Hash2, x: Txs): Block
    requires IsTxs(x) && 0 < Width(|x.ids|, Depth(|x.ids|))
  {
    var d := Depth(|x.ids|);
    Block(|x.ids|, Hashes(H, x, d, 0), Packed(Flags(x, d, 0)))
  }

  /** For any nonempty list of transactions and any matches, if no tree node is zero and no two distinct siblings are
      equal, decoding the encoding yields the true Merkle root and exactly the matched ids in order. */
  lemma DecodeUndoesEncode(b: Block, H: Hash2, x: Txs)
    requires IsTxs(x) && Sound(H, x.ids)
    ensures 0 < Width(|x.ids|, Depth(|x.ids|))
    ensures IsMerkleBlock(b, H, x) ==>
      && RootFrom(b, H, 0, 0, 0).0 == MerkleRoot(H, x.ids)
      && Matched(Parse(b, 0, 0, 0).0) == Selected(x, 0, |x.ids|)
      && Parse(b, 0, 0, 0).1 == |b.hashes|
  {
    hide Row, TreeOf, AnyMatch, Width, Selected, Hashes, Flags, Parse, RootFrom, MerkleRoot, Matched, Fold, Guarded,
         Pow2, Depth;
    var n := |x.ids|;
    var d := Depth(n);
    TopRow(H, x.ids);
    if IsMerkleBlock(b, H, x) {
      HashesWhole(b.hashes);
      ParsesTree(b, H, x, d, 0, 0, 0);
      TreeFolds(H, x, d, 0);
      TraversalsAgree(b, H, 0, 0, 0);
      TreeMatches(H, x, d, 0);
      DepthIsLeast(n);
      assert 1 * Pow2(d) == Pow2(d);
    }
  }

  /** So the message of a block, with its flags packed eight to a byte, is decoded to what it says. */
  lemma MessageDecodes(H: Hash2, x: Txs)
    requires IsTxs(x) && Sound(H, x.ids)
    ensures 0 < Width(|x.ids|, Depth(|x.ids|))
    ensures
      var b := Encoded(H, x);
      && RootFrom(b, H, 0, 0, 0).0 == MerkleRoot(H, x.ids)
      && Matched(Parse(b, 0, 0, 0).0) == Selected(x, 0, |x.ids|)
      && Parse(b, 0, 0, 0).1 == |b.hashes|
  {
    hide BitsAt, Sound, Selected, Width, Depth, Hashes, Flags, Parse, RootFrom, MerkleRoot, Matched, Packed;
    TopIsThere(x);
    BitsOfPacked(Flags(x, Depth(|x.ids|), 0));
    DecodeUndoesEncode(Encoded(H, x), H, x);
  }

  lemma TopIsThere(x: Txs)
    requires IsTxs(x)
    ensures 0 < Width(|x.ids|, Depth(|x.ids|))
  {
    hide Width, Depth;
    TopRow((_, _) => 0, x.ids);
  }

  lemma HashesWhole(s: seq<Hash>)
    ensures HashesAt(s, 0, s)
  {
  }
}
