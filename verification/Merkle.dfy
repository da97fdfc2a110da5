/** Partial Merkle trees of BRMerkleBlock.c: the two recursive decoders, the tree they agree on, and their inverse,
    the depth-first encoding of BIP37, section "Partial Merkle branch format". */
module Merkle {
  import opened Bytes

  type Hash = nat                         // a 256-bit value; 0 is UINT256_ZERO
  type Hash2 = (Hash, Hash) -> Hash       // the double SHA-256 of two concatenated hashes

  const ZERO: Hash := 0
  const SIZE_MAX: nat := 0xffff_ffff_ffff_ffff

  datatype Block = Block(totalTx: nat, hashes: seq<Hash>, flags: seq<Byte>)

  // ---------- _ceil_log2 ----------

  function Pow2(n: nat): (p: nat)
    ensures p > 0
  {
    if n == 0 then 1 else 2 * Pow2(n - 1)
  }

  // Bitwise and.
  function And(a: nat, b: nat): nat {
    if a == 0 || b == 0 then 0
    else 2 * And(a / 2, b / 2) + if a % 2 == 1 && b % 2 == 1 then 1 else 0
  }

  // The depth of a tree with n leaves: the least d with n <= 2^d.
  function Depth(n: nat): (d: nat) {
    if n <= 1 then 0 else 1 + Depth((n + 1) / 2)
  }

  lemma {:induction false} DepthIsLeast(n: nat)
    requires n >= 1
    ensures n <= Pow2(Depth(n))
    ensures n > 1 ==> Depth(n) > 0 && Pow2(Depth(n) - 1) < n
  {
    if n > 1 { DepthIsLeast((n + 1) / 2); }
  }

  lemma {:induction false} AndSelf(x: nat)
    ensures And(x, x) == x
  {
    if x > 0 { AndSelf(x / 2); }
  }

  // floor(log2(x))
  function Floor(x: nat): nat { if x <= 1 then 0 else 1 + Floor(x / 2) }

  /** x & (x - 1) vanishes exactly for powers of two, and says whether the floor must be rounded up. */
  lemma {:induction false} AndPredecessor(x: nat)
    requires x >= 1
    ensures Depth(x) == Floor(x) + if And(x, x - 1) != 0 then 1 else 0
  {
    if x > 1 {
      if x % 2 == 0 {
        AndPredecessor(x / 2);
        assert (x - 1) / 2 == x / 2 - 1 && (x + 1) / 2 == x / 2;
      } else {
        AndSelf(x / 2);
        assert (x - 1) / 2 == x / 2 && And(x, x - 1) == 2 * And(x / 2, x / 2);
        OddDepth(x);
      }
    }
  }

  lemma {:induction false} OddDepth(x: nat)
    requires x > 1 && x % 2 == 1
    ensures Depth(x) == Floor(x) + 1
  {
    var y := (x + 1) / 2;
    assert x / 2 == y - 1;
    DepthAboveFloor(y - 1);
  }

  lemma {:induction false} DepthAboveFloor(y: nat)
    requires y >= 1
    ensures Depth(y + 1) == Floor(y) + 1
  {
    if y > 1 {
      DepthAboveFloor(y / 2);
      assert (y + 2) / 2 == y / 2 + 1;
    }
  }

  method CeilLog2(n: nat) returns (r: nat)
    ensures r == Depth(n)
  {
    var x := n;
    r := if x > 0 && And(x, x - 1) != 0 then 1 else 0;
    ghost var up := r;
    if n > 0 { AndPredecessor(n); }
    x := x / 2;
    while x != 0
      invariant n > 0 ==> up + Floor(n) == r + if x == 0 then 0 else 1 + Floor(x)
      invariant n == 0 ==> x == 0 && r == 0
      decreases x
    {
      r := r + 1;
      x := x / 2;
    }
  }

  // ---------- what a partial tree says ----------

  // The tree both traversals walk: a missing branch, a hash (of a matched transaction or of a pruned subtree), or a
  // node whose two branches were descended into.
  datatype Tree = Missing | Leaf(hash: Hash, matched: bool) | Node(left: Tree, right: Tree)

  predicate Bit(flags: seq<Byte>, i: nat)
    requires i / 8 < |flags|
  {
    flags[i / 8] / Pow2(i % 8) % 2 == 1
  }

  predicate More(b: Block, hi: nat, fi: nat) { fi / 8 < |b.flags| && hi < |b.hashes| }

  // The tree read from flag fi and hash hi on, and the cursors after it.
  function Parse(b: Block, hi: nat, fi: nat, depth: nat): (r: (Tree, nat, nat))
    ensures r.1 >= hi && r.2 >= fi
    ensures More(b, hi, fi) <==> r.0 != Missing
    ensures r.0 != Missing ==> r.2 > fi
    decreases 8 * |b.flags| - fi
  {
    if !More(b, hi, fi) then (Missing, hi, fi)
    else if !Bit(b.flags, fi) || depth == Depth(b.totalTx) then
      (Leaf(b.hashes[hi], Bit(b.flags, fi)), hi + 1, fi + 1)
    else
      var (l, hi1, fi1) := Parse(b, hi, fi + 1, depth + 1);
      var (r, hi2, fi2) := Parse(b, hi1, fi1, depth + 1);
      (Node(l, r), hi2, fi2)
  }

  // The matched transaction ids, in order.
  function Matched(t: Tree): seq<Hash> {
    match t
    case Missing => []
    case Leaf(h, m) => if m then [h] else []
    case Node(l, r) => Matched(l) + Matched(r)
  }

  // The Merkle root of a partial tree: a missing right branch is read as a copy of the left one.
  function Fold(H: Hash2, t: Tree): Hash {
    match t
    case Missing => ZERO
    case Leaf(h, _) => h
    case Node(l, r) => H(Fold(H, l), if Fold(H, r) == ZERO then Fold(H, l) else Fold(H, r))
  }

  // The duplicate guard passes at every node.
  predicate Guarded(H: Hash2, t: Tree) {
    t.Node? ==> && Guarded(H, t.left) && Guarded(H, t.right)
                && Fold(H, t.left) != ZERO && Fold(H, t.left) != Fold(H, t.right)
  }

  // All matched leaves lie k levels down.
  predicate MatchedAt(t: Tree, k: int) {
    match t
    case Missing => true
    case Leaf(_, m) => m ==> k == 0
    case Node(l, r) => MatchedAt(l, k - 1) && MatchedAt(r, k - 1)
  }

  /** Only hashes at the depth of the transactions are reported as matches. */
  lemma {:induction false} MatchesAreTransactions(b: Block, hi: nat, fi: nat, depth: nat)
    ensures MatchedAt(Parse(b, hi, fi, depth).0, Depth(b.totalTx) - depth)
    decreases 8 * |b.flags| - fi
  {
    if More(b, hi, fi) && Bit(b.flags, fi) && depth != Depth(b.totalTx) {
      var (l, hi1, fi1) := Parse(b, hi, fi + 1, depth + 1);
      MatchesAreTransactions(b, hi, fi + 1, depth + 1);
      MatchesAreTransactions(b, hi1, fi1, depth + 1);
    }
  }

  // ---------- the root traversal ----------

  // _BRMerkleBlockRootR on cursor values: the hash and the cursors after it, SIZE_MAX once the guard has fired.
  function RootFrom(b: Block, H: Hash2, hi: nat, fi: nat, depth: nat): (r: (Hash, nat, nat))
    ensures r.2 >= fi
    decreases 8 * |b.flags| - fi
  {
    if !More(b, hi, fi) then (ZERO, hi, fi)
    else if Bit(b.flags, fi) && depth != Depth(b.totalTx) then
      var (l, hi1, fi1) := RootFrom(b, H, hi, fi + 1, depth + 1);
      var (r, hi2, fi2) := RootFrom(b, H, hi1, fi1, depth + 1);
      if l != ZERO && l != r then (H(l, if r == ZERO then l else r), hi2, fi2) else (ZERO, SIZE_MAX, fi2)
    else (b.hashes[hi], hi + 1, fi + 1)
  }

  /** Where the duplicate guard does not fire, the root traversal consumes the same flags and hashes as the
      transaction traversal, and its result is the root of the tree that traversal reads. */
  lemma {:induction false} TraversalsAgree(b: Block, H: Hash2, hi: nat, fi: nat, depth: nat)
    requires Guarded(H, Parse(b, hi, fi, depth).0)
    ensures var (t, hi', fi') := Parse(b, hi, fi, depth);
            RootFrom(b, H, hi, fi, depth) == (Fold(H, t), hi', fi')
    decreases 8 * |b.flags| - fi
  {
    if More(b, hi, fi) && Bit(b.flags, fi) && depth != Depth(b.totalTx) {
      var (l, hi1, fi1) := Parse(b, hi, fi + 1, depth + 1);
      TraversalsAgree(b, H, hi, fi + 1, depth + 1);
      TraversalsAgree(b, H, hi1, fi1, depth + 1);
    }
  }

  // The guard, or a missing hash, is met on the way down the left branches.
  predicate FailsLeft(b: Block, H: Hash2, hi: nat, fi: nat, depth: nat)
    decreases 8 * |b.flags| - fi
  {
    if !More(b, hi, fi) then true
    else if !Bit(b.flags, fi) || depth == Depth(b.totalTx) then false
    else
      var (l, hi1, fi1) := RootFrom(b, H, hi, fi + 1, depth + 1);
      FailsLeft(b, H, hi, fi + 1, depth + 1) || RootFrom(b, H, hi1, fi1, depth + 1).0 == l
  }

  /** The traversal rejects a tree, by returning zero, exactly if it fails on the left spine: a failure in a right
      branch looks like a missing branch. */
  lemma {:induction false} RejectedExactly(b: Block, H: Hash2, hi: nat, fi: nat, depth: nat)
    requires (forall x, y :: H(x, y) != ZERO) && (forall k :: 0 <= k < |b.hashes| ==> b.hashes[k] != ZERO)
    ensures RootFrom(b, H, hi, fi, depth).0 == ZERO <==> FailsLeft(b, H, hi, fi, depth)
    decreases 8 * |b.flags| - fi
  {
    if More(b, hi, fi) && Bit(b.flags, fi) && depth != Depth(b.totalTx) {
      var (l, hi1, fi1) := RootFrom(b, H, hi, fi + 1, depth + 1);
      RejectedExactly(b, H, hi, fi + 1, depth + 1);
    }
  }

  /** For example, two equal siblings in the right half leave a root that only depends on the left half. */
  lemma RightDuplicateAccepted(H: Hash2, left: Hash, twin: Hash)
    requires left != ZERO && twin != ZERO
    ensures RootFrom(Block(4, [left, twin, twin], [5]), H, 0, 0, 0).0 == H(left, left)
  {
    var b := Block(4, [left, twin, twin], [5]);
    assert Pow2(1) == 2 && Pow2(2) == 4 && Pow2(3) == 8 && Pow2(4) == 16;
    assert Depth(4) == 2 by { assert Depth(2) == 1; }
    assert Bit([5], 0) && !Bit([5], 1) && Bit([5], 2) && !Bit([5], 3) && !Bit([5], 4);
    assert RootFrom(b, H, 0, 1, 1) == (left, 1, 2);
    assert RootFrom(b, H, 1, 3, 2) == (twin, 2, 4);
    assert RootFrom(b, H, 2, 4, 2) == (twin, 3, 5);
    assert RootFrom(b, H, 1, 2, 1) == (ZERO, SIZE_MAX, 5);
  }

  class Cursor {
    var hashIdx: nat
    var flagIdx: nat
    var idx: nat

    constructor ()
      ensures hashIdx == flagIdx == idx == 0
    {
      hashIdx, flagIdx, idx := 0, 0, 0;
    }
  }

  /** _BRMerkleBlockRootR: walks the tree, advancing the cursors in place. */
  method RootR(b: Block, H: Hash2, c: Cursor, depth: nat) returns (md: Hash)
    modifies c
    ensures (md, c.hashIdx, c.flagIdx) == RootFrom(b, H, old(c.hashIdx), old(c.flagIdx), depth)
    ensures c.idx == old(c.idx)
    decreases 8 * |b.flags| - c.flagIdx
  {
    md := ZERO;
    if c.flagIdx / 8 < |b.flags| && c.hashIdx < |b.hashes| {
      var flag := Bit(b.flags, c.flagIdx);
      c.flagIdx := c.flagIdx + 1;
      var deepest := CeilLog2(b.totalTx);
      if flag && depth != deepest {
        var left := RootR(b, H, c, depth + 1);
        var right := RootR(b, H, c, depth + 1);
        if left != ZERO && left != right {
          if right == ZERO { right := left; }    // if right branch is missing, dup left branch
          md := H(left, right);
        } else {
          c.hashIdx := SIZE_MAX;                 // defend against (CVE-2012-2459)
        }
      } else {
        md := b.hashes[c.hashIdx];
        c.hashIdx := c.hashIdx + 1;
      }
    }
  }

  // ---------- the transaction traversal ----------

  function Min(a: nat, b: nat): nat { if a < b then a else b }

  // How many items of s fit when k of n places are taken.
  function Fits(k: nat, n: nat, s: seq<Hash>): nat { Min(|s|, if n > k then n - k else 0) }

  // a with the items of s written from place k on, as far as they fit.
  function Fill(a: seq<Hash>, k: nat, s: seq<Hash>): (r: seq<Hash>)
    requires k <= |a|
    ensures |r| == |a|
  {
    a[..k] + s[..Fits(k, |a|, s)] + a[k + Fits(k, |a|, s)..]
  }

  lemma FillConcat(a: seq<Hash>, k: nat, s: seq<Hash>, t: seq<Hash>)
    requires k <= |a|
    ensures Fill(Fill(a, k, s), k + Fits(k, |a|, s), t) == Fill(a, k, s + t)
  {
  }

  lemma FitsConcat(k: nat, n: nat, s: seq<Hash>, t: seq<Hash>)
    ensures Fits(k, n, s) + Fits(k + Fits(k, n, s), n, t) == Fits(k, n, s + t)
    ensures k <= n ==> k + Fits(k, n, s) <= n
  {
  }

  lemma FitsFew(k: nat, n: nat, h: Hash)
    ensures Fits(k, n, []) == 0 && Fits(k, n, [h]) == if k < n then 1 else 0
  {
  }

  // "leaf": writes the hash if it is matched and there is room.
  method Emit(txHashes: array?<Hash>, hashesCount: nat, c: Cursor, flag: bool, h: Hash)
    requires txHashes != null ==> hashesCount == txHashes.Length && c.idx <= hashesCount
    modifies c`idx, txHashes
    ensures var m := if flag then [h] else [];
      && c.idx == old(c.idx) + Fits(old(c.idx), hashesCount, m)
      && (txHashes != null ==> txHashes[..] == Fill(old(txHashes[..]), old(c.idx), m))
  {
    if txHashes != null { FillOne(txHashes[..], c.idx, h); }
    if flag && c.idx < hashesCount {
      if txHashes != null { txHashes[c.idx] := h; }
      c.idx := c.idx + 1;
    }
  }

  /** _BRMerkleBlockTxHashesR: reports the matched ids of the tree it walks, as far as the output has room.  A null
      output only counts. */
  method TxHashesR(b: Block, txHashes: array?<Hash>, hashesCount: nat, c: Cursor, depth: nat)
    requires txHashes != null ==> hashesCount == txHashes.Length && c.idx <= hashesCount
    modifies c, txHashes
    ensures var (t, hi, fi) := Parse(b, old(c.hashIdx), old(c.flagIdx), depth);
      && c.hashIdx == hi && c.flagIdx == fi
      && c.idx == old(c.idx) + Fits(old(c.idx), hashesCount, Matched(t))
      && (txHashes != null ==> txHashes[..] == Fill(old(txHashes[..]), old(c.idx), Matched(t)))
    decreases 8 * |b.flags| - c.flagIdx
  {
    hide Fill, Fits, Depth, Bit, Parse;
    ghost var k := c.idx;
    FitsFew(k, hashesCount, ZERO);
    ParseOnce(b, c.hashIdx, c.flagIdx, depth);
    if c.flagIdx / 8 < |b.flags| && c.hashIdx < |b.hashes| {
      var flag := Bit(b.flags, c.flagIdx);
      c.flagIdx := c.flagIdx + 1;
      var deepest := CeilLog2(b.totalTx);
      if !flag || depth == deepest {
        Emit(txHashes, hashesCount, c, flag, b.hashes[c.hashIdx]);
        c.hashIdx := c.hashIdx + 1;
      } else {
        ghost var (l, hi, fi) := Parse(b, c.hashIdx, c.flagIdx, depth + 1);
        ghost var (r, _, _) := Parse(b, hi, fi, depth + 1);
        FitsConcat(k, hashesCount, Matched(l), Matched(r));
        if txHashes != null { FillConcat(txHashes[..], k, Matched(l), Matched(r)); }
        TxHashesR(b, txHashes, hashesCount, c, depth + 1);
        TxHashesR(b, txHashes, hashesCount, c, depth + 1);
      }
    } else if txHashes != null {
      FillNothing(txHashes[..], k);
    }
  }

  // One unfolding of Parse.
  lemma ParseOnce(b: Block, hi: nat, fi: nat, depth: nat)
    ensures var p := Parse(b, hi, fi, depth);
      if !More(b, hi, fi) then p == (Missing, hi, fi)
      else if !Bit(b.flags, fi) || depth == Depth(b.totalTx) then
        p == (Leaf(b.hashes[hi], Bit(b.flags, fi)), hi + 1, fi + 1)
      else
        var l := Parse(b, hi, fi + 1, depth + 1);
        var r := Parse(b, l.1, l.2, depth + 1);
        p == (Node(l.0, r.0), r.1, r.2)
  {
  }

  lemma FillNothing(a: seq<Hash>, k: nat)
    requires k <= |a|
    ensures Fill(a, k, []) == a
  {
  }

  lemma FillOne(a: seq<Hash>, k: nat, h: Hash)
    requires k <= |a|
    ensures Fill(a, k, []) == a
    ensures Fill(a, k, [h]) == if k < |a| then a[k := h] else a
  {
  }

  /** BRMerkleBlockTxHashes. */
  method TxHashes(b: Block, txHashes: array?<Hash>) returns (n: nat)
    modifies txHashes
    ensures var ids := Matched(Parse(b, 0, 0, 0).0);
      && n == Min(|ids|, if txHashes != null then txHashes.Length else SIZE_MAX)
      && (txHashes != null ==> txHashes[..] == ids[..n] + old(txHashes[..])[n..])
  {
    var c := new Cursor();
    TxHashesR(b, txHashes, if txHashes != null then txHashes.Length else SIZE_MAX, c, 0);
    n := c.idx;
  }
}
