/** The order of the wallet's transaction list in BRWallet.c: how two transactions compare, and what the list keeps. */
module TxOrder {
  import opened Ledger
  import opened Prelude

  // A transaction names the transactions it spends by their hashes, so the spend graph has no cycles: some rank
  // decreases along every input.
  ghost predicate Acyclic(allTx: map<Hash, Tx>, rank: Hash -> nat) {
    && (forall h :: h in allTx ==> allTx[h].txHash == h)
    && (forall h, i :: h in allTx && i in allTx[h].inputs ==> rank(i.outpoint.hash) < rank(h))
  }

  predicate Spends(t: Tx, h: Hash) { exists i :: i in t.inputs && i.outpoint.hash == h }

  // _BRWalletTxIsAscending: t1 comes after t2.
  predicate Ascending(allTx: map<Hash, Tx>, t1: Tx, t2: Tx, ghost rank: Hash -> nat)
    requires Acyclic(allTx, rank) && t1.txHash in allTx && allTx[t1.txHash] == t1
    decreases rank(t1.txHash)
  {
    if t1.blockHeight != t2.blockHeight then t1.blockHeight > t2.blockHeight
    else if Spends(t1, t2.txHash) then true
    else if Spends(t2, t1.txHash) then false
    else exists i :: i in t1.inputs && i.outpoint.hash in allTx && Ascending(allTx, allTx[i.outpoint.hash], t2, rank)
  }

  // Neither height nor a spend between the two decides.
  predicate Tied(t: Tx, t2: Tx) {
    t.blockHeight == t2.blockHeight && !Spends(t, t2.txHash) && !Spends(t2, t.txHash)
  }

  predicate Outranks(t: Tx, t2: Tx) {
    t.blockHeight > t2.blockHeight || (t.blockHeight == t2.blockHeight && Spends(t, t2.txHash))
  }

  // From t1 back along inputs through transactions tied with t2 to one that is above it.
  ghost predicate LeadsAbove(allTx: map<Hash, Tx>, t1: Tx, t2: Tx, path: seq<Hash>) {
    && path != [] && path[0] == t1.txHash && (forall k :: 0 <= k < |path| ==> path[k] in allTx)
    && (forall k :: 0 <= k < |path| - 1 ==> Spends(allTx[path[k]], path[k + 1]) && Tied(allTx[path[k]], t2))
    && Outranks(allTx[path[|path| - 1]], t2)
  }

  /** A transaction comes after another one exactly if it stands higher or spends it, or if going back along its inputs,
      through transactions that are tied with the other one, leads to one that does. */
  lemma {:induction false} AscendingExactly(allTx: map<Hash, Tx>, t1: Tx, t2: Tx, rank: Hash -> nat)
    requires Acyclic(allTx, rank) && t1.txHash in allTx && allTx[t1.txHash] == t1
    ensures Ascending(allTx, t1, t2, rank) <==> exists path :: LeadsAbove(allTx, t1, t2, path)
    decreases rank(t1.txHash)
  {
    if Outranks(t1, t2) { assert LeadsAbove(allTx, t1, t2, [t1.txHash]); }
    forall i | i in t1.inputs && i.outpoint.hash in allTx
      ensures Ascending(allTx, allTx[i.outpoint.hash], t2, rank)
         <==> exists path :: LeadsAbove(allTx, allTx[i.outpoint.hash], t2, path)
    {
      AscendingExactly(allTx, allTx[i.outpoint.hash], t2, rank);
    }
    if path :| LeadsAbove(allTx, t1, t2, path) {
      if |path| > 1 { PathOn(allTx, t1, t2, path); }
    }
    if Tied(t1, t2) {
      if i :| i in t1.inputs && i.outpoint.hash in allTx && Ascending(allTx, allTx[i.outpoint.hash], t2, rank) {
        var path :| LeadsAbove(allTx, allTx[i.outpoint.hash], t2, path);
        PathBack(allTx, t1, t2, i.outpoint.hash, path);
      }
    }
  }

  lemma PathOn(allTx: map<Hash, Tx>, t1: Tx, t2: Tx, path: seq<Hash>)
    requires t1.txHash in allTx && allTx[t1.txHash] == t1 && LeadsAbove(allTx, t1, t2, path) && |path| > 1
    requires forall h :: h in allTx ==> allTx[h].txHash == h
    ensures Tied(t1, t2) && Spends(t1, path[1]) && path[1] in allTx && LeadsAbove(allTx, allTx[path[1]], t2, path[1..])
  {
    hide Tied, Outranks, Spends;
    forall k | 0 <= k < |path| - 2
      ensures Spends(allTx[path[1..][k]], path[1..][k + 1]) && Tied(allTx[path[1..][k]], t2)
    {
      assert path[1..][k] == path[k + 1] && path[1..][k + 1] == path[k + 2];
    }
  }

  lemma PathBack(allTx: map<Hash, Tx>, t1: Tx, t2: Tx, h: Hash, path: seq<Hash>)
    requires t1.txHash in allTx && allTx[t1.txHash] == t1 && Spends(t1, h) && Tied(t1, t2)
    requires h in allTx && allTx[h].txHash == h && LeadsAbove(allTx, allTx[h], t2, path)
    ensures LeadsAbove(allTx, t1, t2, [t1.txHash] + path)
  {
    hide Tied, Outranks, Spends;
    var all := [t1.txHash] + path;
    forall k | 0 <= k < |all| - 1
      ensures Spends(allTx[all[k]], all[k + 1]) && Tied(allTx[all[k]], t2)
    {
      if k > 0 { assert all[k] == path[k - 1] && all[k + 1] == path[k]; }
    }
  }

  // _txChainIndex: the last chain position of an address that tx pays to.
  function ChainIndex(tx: Tx, chain: seq<Address>): Option<nat> {
    if chain == [] then None
    else
      var m := |chain| - 1;
      if exists o :: o in tx.outputs && o.address == chain[m] then Some(m) else ChainIndex(tx, chain[..m])
  }

  // _BRWalletTxCompare
  function Compare(allTx: map<Hash, Tx>, internal: seq<Address>, external: seq<Address>, t1: Tx, t2: Tx,
                   ghost rank: Hash -> nat): int
    requires Acyclic(allTx, rank) && t1.txHash in allTx && allTx[t1.txHash] == t1
    requires t2.txHash in allTx && allTx[t2.txHash] == t2
  {
    if Ascending(allTx, t1, t2, rank) then 1
    else if Ascending(allTx, t2, t1, rank) then -1
    else
      var i := ChainIndex(t1, internal);
      var j := ChainIndex(t2, if i.None? then external else internal);
      var i' := if i.None? && j.Some? then ChainIndex(t1, external) else i;
      if i'.Some? && j.Some? && i'.value != j.value then (if i'.value > j.value then 1 else -1) else 0
  }

  // tx pays the address at position i of the chain and none behind it.
  ghost predicate PaysLast(tx: Tx, chain: seq<Address>, i: int) {
    0 <= i < |chain| && Pays(tx, chain[i]) && forall k :: i < k < |chain| ==> !Pays(tx, chain[k])
  }

  predicate Pays(tx: Tx, a: Address) { exists o :: o in tx.outputs && o.address == a }

  lemma {:induction false} ChainIndexExactly(tx: Tx, chain: seq<Address>, i: nat)
    ensures ChainIndex(tx, chain) == Some(i) <==> PaysLast(tx, chain, i)
    ensures ChainIndex(tx, chain) == None <==> forall k :: 0 <= k < |chain| ==> !Pays(tx, chain[k])
    decreases |chain|
  {
    if chain != [] {
      var m := |chain| - 1;
      ChainIndexExactly(tx, chain[..m], i);
      assert Pays(tx, chain[m]) <==> exists o :: o in tx.outputs && o.address == chain[m];
      assert forall k :: 0 <= k < m ==> chain[..m][k] == chain[k];
    }
  }

  // a pays a later position than b: of the internal chain, or of the external one if a pays no internal address.
  ghost predicate Later(internal: seq<Address>, external: seq<Address>, a: Tx, b: Tx, up: bool) {
    LaterIn(if exists k :: 0 <= k < |internal| && Pays(a, internal[k]) then internal else external, a, b, up)
  }

  // The last paid positions in one chain; earlier ones instead if up is false.
  ghost predicate LaterIn(chain: seq<Address>, a: Tx, b: Tx, up: bool) {
    exists i, j :: PaysLast(a, chain, i) && PaysLast(b, chain, j) && if up then i > j else i < j
  }

  /** The order of two transactions: heights and dependency decide first, then the positions of their last addresses in
      the internal chain if the first one pays it, and otherwise in the external one. */
  lemma CompareExactly(allTx: map<Hash, Tx>, internal: seq<Address>, external: seq<Address>, t1: Tx, t2: Tx,
                       rank: Hash -> nat)
    requires Acyclic(allTx, rank) && t1.txHash in allTx && allTx[t1.txHash] == t1
    requires t2.txHash in allTx && allTx[t2.txHash] == t2
    ensures
      var before, after := Ascending(allTx, t2, t1, rank), Ascending(allTx, t1, t2, rank);
      && (Compare(allTx, internal, external, t1, t2, rank) > 0 <==>
          after || (!before && Later(internal, external, t1, t2, true)))
      && (Compare(allTx, internal, external, t1, t2, rank) < 0 <==>
          !after && (before || Later(internal, external, t1, t2, false)))
  {
    hide Acyclic, Ascending, ChainIndex, PaysLast, Pays, LaterIn;
    ChainIndexExactly(t1, internal, 0);
    LastPaid(t1, t2, internal);
    LastPaid(t1, t2, external);
  }

  lemma LastPaid(a: Tx, b: Tx, chain: seq<Address>)
    ensures
      var i, j := ChainIndex(a, chain), ChainIndex(b, chain);
      && (LaterIn(chain, a, b, true) <==> i.Some? && j.Some? && i.value > j.value)
      && (LaterIn(chain, a, b, false) <==> i.Some? && j.Some? && i.value < j.value)
  {
    hide ChainIndex, PaysLast, Pays;
    forall i: int
      ensures PaysLast(a, chain, i) <==> i >= 0 && ChainIndex(a, chain) == Some(i)
      ensures PaysLast(b, chain, i) <==> i >= 0 && ChainIndex(b, chain) == Some(i)
    {
      if i >= 0 {
        ChainIndexExactly(a, chain, i);
        ChainIndexExactly(b, chain, i);
      } else {
        NotBelow(a, chain, i);
        NotBelow(b, chain, i);
      }
    }
    var x, y := ChainIndex(a, chain), ChainIndex(b, chain);
    if x.Some? && y.Some? { assert PaysLast(a, chain, x.value) && PaysLast(b, chain, y.value); }
  }

  lemma NotBelow(tx: Tx, chain: seq<Address>, i: int)
    ensures i < 0 ==> !PaysLast(tx, chain, i)
  {
  }

  // ---------- what the list keeps ----------

  ghost predicate Sorted(allTx: map<Hash, Tx>, list: seq<Hash>)
    requires forall h :: h in list ==> h in allTx
  {
    forall j, k :: 0 <= j < k < |list| ==> allTx[list[j]].blockHeight <= allTx[list[k]].blockHeight
  }

  // _BRWalletContainsTx: the transaction pays to or spends from an address of the wallet.
  ghost predicate Involves(allTx: map<Hash, Tx>, addrs: set<Address>, tx: Tx) {
    || (exists o :: o in tx.outputs && o.address in addrs)
    || (exists i :: i in tx.inputs && SpendsFrom(allTx, addrs, i.outpoint))
  }

  predicate SpendsFrom(allTx: map<Hash, Tx>, addrs: set<Address>, u: UTXO) {
    u.hash in allTx && u.n < |allTx[u.hash].outputs| && allTx[u.hash].outputs[u.n].address in addrs
  }

  function Reset(tx: Tx, reset: bool): Tx { if reset then tx.(blockHeight := TX_UNCONFIRMED) else tx }

  function Dated(tx: Tx, dated: bool, blockHeight: nat, timestamp: nat): Tx {
    if dated then tx.(blockHeight := blockHeight, timestamp := timestamp) else tx
  }

  function InsertAt(list: seq<Hash>, k: nat, h: Hash): seq<Hash>
    requires k <= |list|
  {
    list[..k] + [h] + list[k..]
  }

  function RemoveAt(list: seq<Hash>, k: nat): seq<Hash>
    requires k < |list|
  {
    list[..k] + list[k + 1..]
  }

  /** Where the insertion sort stops, the heights are in order again. */
  lemma InsertKeepsSorted(allTx: map<Hash, Tx>, list: seq<Hash>, k: nat, h: Hash)
    requires (forall g :: g in list ==> g in allTx) && Sorted(allTx, list) && h in allTx && k <= |list|
    requires k == 0 || allTx[list[k - 1]].blockHeight <= allTx[h].blockHeight
    requires k == |list| || allTx[list[k]].blockHeight >= allTx[h].blockHeight
    ensures Sorted(allTx, InsertAt(list, k, h))
  {
  }

  lemma InsertKeepsDistinct(list: seq<Hash>, k: nat, h: Hash)
    requires Distinct(list) && h !in list && k <= |list|
    ensures Distinct(InsertAt(list, k, h))
    ensures multiset(InsertAt(list, k, h)) == multiset(list) + multiset{h}
  {
    assert list == list[..k] + list[k..];
  }

  // The gap of an insertion sort, filled.
  lemma FillGap(was: seq<Hash>, now: seq<Hash>, i: nat, h: Hash)
    requires |now| == |was| + 1 && i <= |was| && now[..i] == was[..i] && now[i + 1..] == was[i..]
    ensures now[i := h] == InsertAt(was, i, h)
  {
  }

  lemma MoveGap(was: seq<Hash>, now: seq<Hash>, i: nat)
    requires |now| == |was| + 1 && 0 < i <= |was| && now[..i] == was[..i] && now[i + 1..] == was[i..]
    ensures now[i - 1] == was[i - 1]
    ensures now[i := was[i - 1]][..i - 1] == was[..i - 1] && now[i := was[i - 1]][i..] == was[i - 1..]
  {
  }

  /** In a sorted list, a scan from the end that stops below a height has seen everything at or above it. */
  lemma SuffixExactly(allTx: map<Hash, Tx>, list: seq<Hash>, n: nat, height: nat)
    requires (forall g :: g in list ==> g in allTx) && Sorted(allTx, list) && n <= |list|
    requires forall k :: n <= k < |list| ==> allTx[list[k]].blockHeight >= height
    requires n > 0 ==> allTx[list[n - 1]].blockHeight < height
    ensures forall k :: 0 <= k < n ==> allTx[list[k]].blockHeight < height
    ensures forall h :: h in list[n..] <==> h in list && allTx[h].blockHeight >= height
  {
  }

  // What a scan of the first k listed transactions for those at or above a height finds, in list order.
  function AtLeast(allTx: map<Hash, Tx>, list: seq<Hash>, k: nat, height: nat): seq<Hash>
    requires (forall g :: g in list ==> g in allTx) && k <= |list|
  {
    if k == 0 then []
    else AtLeast(allTx, list, k - 1, height) + if allTx[list[k - 1]].blockHeight >= height then [list[k - 1]] else []
  }

  /** The suffix scan finds exactly what a scan of the whole list finds. */
  lemma {:induction false} SuffixIsScan(allTx: map<Hash, Tx>, list: seq<Hash>, n: nat, k: nat, height: nat)
    requires (forall g :: g in list ==> g in allTx) && n <= |list| && k <= |list|
    requires forall j :: n <= j < |list| ==> allTx[list[j]].blockHeight >= height
    requires forall j :: 0 <= j < n ==> allTx[list[j]].blockHeight < height
    ensures AtLeast(allTx, list, k, height) == if k <= n then [] else list[n..k]
  {
    if k > n {
      var g := list[k - 1];
      assert list[n..k] == list[n..k - 1] + [g] && allTx[g].blockHeight >= height;
      SuffixIsScan(allTx, list, n, k - 1, height);
    } else if k > 0 {
      assert allTx[list[k - 1]].blockHeight < height;
      SuffixIsScan(allTx, list, n, k - 1, height);
    }
  }

  /** Taking out the one transaction whose height was changed leaves the rest in order. */
  lemma RemoveKeepsSorted(allTx: map<Hash, Tx>, list: seq<Hash>, k: nat, now: map<Hash, Tx>)
    requires (forall g :: g in list ==> g in allTx && g in now) && Sorted(allTx, list) && Distinct(list) && k < |list|
    requires forall g :: g in list && g != list[k] ==> now[g].blockHeight == allTx[g].blockHeight
    ensures Sorted(now, RemoveAt(list, k))
  {
  }

  lemma RemoveKeepsDistinct(list: seq<Hash>, k: nat)
    requires Distinct(list) && k < |list|
    ensures Distinct(RemoveAt(list, k)) && list[k] !in RemoveAt(list, k)
    ensures multiset(RemoveAt(list, k)) + multiset{list[k]} == multiset(list)
    ensures forall g :: g in RemoveAt(list, k) ==> g in list
  {
    assert list == list[..k] + [list[k]] + list[k + 1..];
  }

  lemma CompareByHeight(allTx: map<Hash, Tx>, internal: seq<Address>, external: seq<Address>, t1: Tx, t2: Tx,
                        rank: Hash -> nat)
    requires Acyclic(allTx, rank) && t1.txHash in allTx && allTx[t1.txHash] == t1
    requires t2.txHash in allTx && allTx[t2.txHash] == t2
    ensures t1.blockHeight > t2.blockHeight ==> Compare(allTx, internal, external, t1, t2, rank) > 0
    ensures t1.blockHeight < t2.blockHeight ==> Compare(allTx, internal, external, t1, t2, rank) < 0
  {
  }

  /** Block heights play no part in whether a transaction involves the wallet. */
  lemma HeightsDoNotInvolve(a: map<Hash, Tx>, b: map<Hash, Tx>, addrs: set<Address>)
    requires a.Keys == b.Keys
    requires forall h :: h in a ==> a[h].inputs == b[h].inputs && a[h].outputs == b[h].outputs
    ensures forall h :: h in a ==> (Involves(a, addrs, a[h]) <==> Involves(b, addrs, b[h]))
  {
  }

  lemma MoreKeepsInvolved(a: map<Hash, Tx>, b: map<Hash, Tx>, addrs: set<Address>, more: set<Address>)
    requires addrs <= more && forall h :: h in a ==> h in b && b[h] == a[h]
    ensures forall h :: h in a && Involves(a, addrs, a[h]) ==> Involves(b, more, b[h])
  {
  }

  /** Forgetting a transaction that does not involve the wallet does not make another one stop involving it. */
  lemma ForgetKeepsInvolved(a: map<Hash, Tx>, addrs: set<Address>, g: Hash)
    requires g in a && !Involves(a, addrs, a[g])
    ensures forall h :: h in a ==> (Involves(a, addrs, a[h]) <==> Involves(a - {g}, addrs, a[h]))
  {
  }

  /** What the insertion sort leaves behind. */
  lemma Inserted(allTx: map<Hash, Tx>, internal: seq<Address>, external: seq<Address>, was: seq<Hash>, tx: Tx, k: nat,
                 rank: Hash -> nat)
    requires Acyclic(allTx, rank) && (forall h :: h in was ==> h in allTx) && Sorted(allTx, was) && Distinct(was)
    requires tx.txHash in allTx && allTx[tx.txHash] == tx && tx.txHash !in was && k <= |was|
    requires k < |was| ==> Compare(allTx, internal, external, allTx[was[k]], tx, rank) > 0
    requires k > 0 ==> Compare(allTx, internal, external, allTx[was[k - 1]], tx, rank) <= 0
    ensures forall g :: g in InsertAt(was, k, tx.txHash) <==> g in was || g == tx.txHash
    ensures Sorted(allTx, InsertAt(was, k, tx.txHash)) && Distinct(InsertAt(was, k, tx.txHash))
    ensures multiset(InsertAt(was, k, tx.txHash)) == multiset(was) + multiset{tx.txHash}
  {
    hide Compare, Sorted, Distinct;
    if k > 0 { CompareByHeight(allTx, internal, external, allTx[was[k - 1]], tx, rank); }
    if k < |was| { CompareByHeight(allTx, internal, external, allTx[was[k]], tx, rank); }
    InsertKeepsSorted(allTx, was, k, tx.txHash);
    InsertKeepsDistinct(was, k, tx.txHash);
    assert was == was[..k] + was[k..];
  }

  // ---------- taking out a transaction and what depends on it ----------

  function Filter(list: seq<Hash>, gone: set<Hash>): seq<Hash> {
    if list == [] then []
    else
      var m := |list| - 1;
      Filter(list[..m], gone) + if list[m] in gone then [] else [list[m]]
  }

  // g spends h and stands where the scan from the end of a sorted list looks.
  ghost predicate Depends(allTx: map<Hash, Tx>, list: seq<Hash>, h: Hash, g: Hash)
    requires h in allTx && forall f :: f in list ==> f in allTx
  {
    g in list && g != h && allTx[g].blockHeight >= allTx[h].blockHeight && Spends(allTx[g], h)
  }

  // g is n spends away from h.
  ghost predicate Below(allTx: map<Hash, Tx>, list: seq<Hash>, h: Hash, g: Hash, n: nat)
    requires h in allTx && forall f :: f in list ==> f in allTx
    decreases n
  {
    if n == 0 then g == h
    else exists m :: Depends(allTx, list, h, m) && Below(allTx, list, m, g, n - 1)
  }

  ghost predicate Descends(allTx: map<Hash, Tx>, list: seq<Hash>, h: Hash, g: Hash)
    requires h in allTx && forall f :: f in list ==> f in allTx
  {
    exists n: nat :: Below(allTx, list, h, g, n)
  }

  // The listed transactions among the descendants of hs.
  ghost function Descendants(allTx: map<Hash, Tx>, list: seq<Hash>, hs: set<Hash>): set<Hash>
    requires (forall h :: h in hs ==> h in allTx) && forall f :: f in list ==> f in allTx
  {
    set g | g in list && exists h :: h in hs && Descends(allTx, list, h, g)
  }

  lemma {:induction false} FilterExactly(list: seq<Hash>, gone: set<Hash>)
    ensures forall g :: g in Filter(list, gone) <==> g in list && g !in gone
    ensures |Filter(list, gone)| <= |list|
    ensures (exists g :: g in list && g in gone) ==> |Filter(list, gone)| < |list|
  {
    if list != [] {
      var m := |list| - 1;
      FilterExactly(list[..m], gone);
      assert list == list[..m] + [list[m]];
    }
  }

  lemma {:induction false} FilterTwice(list: seq<Hash>, a: set<Hash>, b: set<Hash>)
    ensures Filter(Filter(list, a), b) == Filter(list, a + b)
  {
    if list != [] {
      var m := |list| - 1;
      FilterTwice(list[..m], a, b);
      if list[m] !in a {
        assert (Filter(list[..m], a) + [list[m]])[..|Filter(list[..m], a)|] == Filter(list[..m], a);
      } else {
        assert Filter(list[..m], a) + [] == Filter(list[..m], a);
      }
    }
  }

  lemma {:induction false} FilterNothing(list: seq<Hash>, gone: set<Hash>)
    requires forall g :: g in list ==> g !in gone
    ensures Filter(list, gone) == list
  {
    if list != [] {
      var m := |list| - 1;
      FilterNothing(list[..m], gone);
      assert list == list[..m] + [list[m]];
    }
  }

  lemma LastIsHighest(allTx: map<Hash, Tx>, list: seq<Hash>)
    requires (forall g :: g in list ==> g in allTx) && Sorted(allTx, list) && Distinct(list) && list != []
    ensures Sorted(allTx, list[..|list| - 1]) && Distinct(list[..|list| - 1])
    ensures forall g :: g in list[..|list| - 1] ==>
              g != list[|list| - 1] && allTx[g].blockHeight <= allTx[list[|list| - 1]].blockHeight
  {
  }

  lemma AppendHighest(allTx: map<Hash, Tx>, front: seq<Hash>, h: Hash)
    requires (forall g :: g in front ==> g in allTx) && Sorted(allTx, front) && Distinct(front) && h in allTx
    requires forall g :: g in front ==> g != h && allTx[g].blockHeight <= allTx[h].blockHeight
    ensures Sorted(allTx, front + [h]) && Distinct(front + [h])
  {
  }

  lemma {:induction false} FilterKeepsOrder(allTx: map<Hash, Tx>, list: seq<Hash>, gone: set<Hash>)
    requires (forall g :: g in list ==> g in allTx) && Sorted(allTx, list) && Distinct(list)
    ensures (forall g :: g in Filter(list, gone) ==> g in allTx)
    ensures Sorted(allTx, Filter(list, gone)) && Distinct(Filter(list, gone))
  {
    FilterExactly(list, gone);
    if list != [] {
      hide Sorted, Distinct;
      var m := |list| - 1;
      LastIsHighest(allTx, list);
      FilterKeepsOrder(allTx, list[..m], gone);
      FilterExactly(list[..m], gone);
      var front := Filter(list[..m], gone);
      if list[m] in gone {
        assert Filter(list, gone) == front;
      } else {
        AppendHighest(allTx, front, list[m]);
      }
    }
  }

  lemma {:induction false} FilterOne(list: seq<Hash>, k: nat)
    requires Distinct(list) && k < |list|
    ensures RemoveAt(list, k) == Filter(list, {list[k]})
  {
    var m := |list| - 1;
    if k == m {
      FilterNothing(list[..m], {list[k]});
    } else {
      FilterOne(list[..m], k);
      assert list == list[..m] + [list[m]];
      assert RemoveAt(list, k) == RemoveAt(list[..m], k) + [list[m]];
    }
  }

  // Nothing outside gone leads back out of it.
  ghost predicate Closed(allTx: map<Hash, Tx>, list: seq<Hash>, gone: set<Hash>)
    requires (forall f :: f in list ==> f in allTx) && forall f :: f in gone ==> f in allTx
  {
    forall h, g :: h in gone && Depends(allTx, list, h, g) ==> g in gone
  }

  lemma DescendantsClosed(allTx: map<Hash, Tx>, list: seq<Hash>, hs: set<Hash>)
    requires (forall h :: h in hs ==> h in allTx) && forall f :: f in list ==> f in allTx
    ensures Closed(allTx, list, Descendants(allTx, list, hs))
  {
    forall m, g | m in Descendants(allTx, list, hs) && Depends(allTx, list, m, g)
      ensures g in Descendants(allTx, list, hs)
    {
      var h :| h in hs && Descends(allTx, list, h, m);
      var n: nat :| Below(allTx, list, h, m, n);
      BelowSnoc(allTx, list, h, m, g, n);
      assert Below(allTx, list, h, g, n + 1);
    }
  }

  lemma {:induction false} BelowSnoc(allTx: map<Hash, Tx>, list: seq<Hash>, h: Hash, m: Hash, g: Hash, n: nat)
    requires h in allTx && m in allTx && forall f :: f in list ==> f in allTx
    requires Below(allTx, list, h, m, n) && Depends(allTx, list, m, g)
    ensures Below(allTx, list, h, g, n + 1)
    decreases n
  {
    if n == 0 {
      assert Below(allTx, list, g, g, 0);
    } else {
      var x :| Depends(allTx, list, h, x) && Below(allTx, list, x, m, n - 1);
      BelowSnoc(allTx, list, x, m, g, n - 1);
    }
  }

  // A path to something that stays never passes through what is gone.
  lemma {:induction false} PathStays(allTx: map<Hash, Tx>, list: seq<Hash>, gone: set<Hash>, h: Hash, g: Hash, n: nat)
    requires h in allTx && (forall f :: f in list ==> f in allTx) && forall f :: f in gone ==> f in allTx
    requires Closed(allTx, list, gone) && g !in gone
    requires forall f :: f in Filter(list, gone) ==> f in allTx
    ensures Below(allTx, list, h, g, n) ==> h !in gone
    ensures Below(allTx, list, h, g, n) <==> Below(allTx, Filter(list, gone), h, g, n)
    decreases n
  {
    FilterExactly(list, gone);
    var rest := Filter(list, gone);
    if n > 0 {
      forall m | m in list
        ensures Below(allTx, list, m, g, n - 1) ==> m !in gone
        ensures Below(allTx, list, m, g, n - 1) <==> Below(allTx, rest, m, g, n - 1)
      {
        PathStays(allTx, list, gone, m, g, n - 1);
      }
      if Below(allTx, list, h, g, n) {
        var m :| Depends(allTx, list, h, m) && Below(allTx, list, m, g, n - 1);
        assert Depends(allTx, rest, h, m);
      }
      if Below(allTx, rest, h, g, n) {
        var m :| Depends(allTx, rest, h, m) && Below(allTx, rest, m, g, n - 1);
        assert Depends(allTx, list, h, m);
      }
    }
  }

  /** Removing the descendants of hs and then those of h that are left removes the descendants of both. */
  lemma RemoveBoth(allTx: map<Hash, Tx>, list: seq<Hash>, hs: set<Hash>, h: Hash)
    requires (forall f :: f in hs ==> f in allTx) && h in allTx && forall f :: f in list ==> f in allTx
    ensures
      var gone := Descendants(allTx, list, hs);
      var rest := Filter(list, gone);
      (forall f :: f in rest ==> f in allTx) &&
      Filter(rest, Descendants(allTx, rest, {h})) == Filter(list, Descendants(allTx, list, hs + {h}))
  {
    var gone := Descendants(allTx, list, hs);
    var rest := Filter(list, gone);
    FilterExactly(list, gone);
    DescendantsClosed(allTx, list, hs);
    forall g, n: nat | g in rest
      ensures Below(allTx, list, h, g, n) <==> Below(allTx, rest, h, g, n)
    {
      PathStays(allTx, list, gone, h, g, n);
    }
    FilterTwice(list, gone, Descendants(allTx, rest, {h}));
    assert gone + Descendants(allTx, rest, {h}) == Descendants(allTx, list, hs + {h}) by {
      forall g | g in list
        ensures g in gone + Descendants(allTx, rest, {h}) <==> g in Descendants(allTx, list, hs + {h})
      {
        assert g in rest ==> (Descends(allTx, list, h, g) <==> Descends(allTx, rest, h, g));
      }
    }
  }

  /** A transaction and its direct dependants have the same descendants as the transaction alone. */
  lemma DependantsSuffice(allTx: map<Hash, Tx>, list: seq<Hash>, h: Hash, hs: set<Hash>)
    requires h in allTx && forall f :: f in list ==> f in allTx
    requires forall g :: g in hs <==> Depends(allTx, list, h, g)
    ensures forall g :: g in hs ==> g in allTx
    ensures Descendants(allTx, list, hs + {h}) == Descendants(allTx, list, {h})
  {
    forall g, m | m in hs && Descends(allTx, list, m, g)
      ensures Descends(allTx, list, h, g)
    {
      var n: nat :| Below(allTx, list, m, g, n);
      assert Below(allTx, list, h, g, n + 1);
    }
  }

  lemma NoDependants(allTx: map<Hash, Tx>, list: seq<Hash>, h: Hash)
    requires h in allTx && forall f :: f in list ==> f in allTx
    requires forall g :: !Depends(allTx, list, h, g)
    ensures Descendants(allTx, list, {h}) == if h in list then {h} else {}
  {
    assert Below(allTx, list, h, h, 0);
    forall g, n: nat | Below(allTx, list, h, g, n)
      ensures g == h
    {
    }
  }

  // ---------- what a removal should take ----------

  // g is n spends by listed transactions away from h, whatever the heights.
  ghost predicate SpendsOver(allTx: map<Hash, Tx>, list: seq<Hash>, h: Hash, g: Hash, n: nat)
    requires forall f :: f in list ==> f in allTx
    decreases n
  {
    if n == 0 then g == h
    else g in list && exists m :: SpendsOver(allTx, list, h, m, n - 1) && Spends(allTx[g], m)
  }

  // h, and every listed transaction that depends on its outputs.
  ghost predicate Needs(allTx: map<Hash, Tx>, list: seq<Hash>, h: Hash, g: Hash)
    requires forall f :: f in list ==> f in allTx
  {
    exists n: nat :: SpendsOver(allTx, list, h, g, n)
  }

  // A removal of h takes every listed transaction that depends on its outputs, and no other.
  ghost predicate TakesAll(allTx: map<Hash, Tx>, list: seq<Hash>, h: Hash)
    requires h in allTx && forall f :: f in list ==> f in allTx
  {
    forall g :: g in list ==> (g in Descendants(allTx, list, {h}) <==> Needs(allTx, list, h, g))
  }

  // No listed transaction that a removal of h leaves spends something that is gone.
  ghost predicate LeavesNoSpender(allTx: map<Hash, Tx>, list: seq<Hash>, h: Hash)
    requires h in allTx && forall f :: f in list ==> f in allTx
  {
    var gone := Descendants(allTx, list, {h}) + {h};
    forall g, m :: g in list && m in gone && Spends(allTx[g], m) ==> g in gone
  }

  // Whatever depends on h stands at or above something it spends that is h or depends on h.
  ghost predicate Upheld(allTx: map<Hash, Tx>, list: seq<Hash>, h: Hash)
    requires forall f :: f in list ==> f in allTx
  {
    forall g :: g in list && g != h && Needs(allTx, list, h, g) ==> UpheldBy(allTx, list, h, g)
  }

  ghost predicate UpheldBy(allTx: map<Hash, Tx>, list: seq<Hash>, h: Hash, g: Hash)
    requires g in allTx && forall f :: f in list ==> f in allTx
  {
    exists m :: m in allTx && Needs(allTx, list, h, m) && Spends(allTx[g], m)
                && allTx[m].blockHeight <= allTx[g].blockHeight
  }

  /** The scan for dependants stops at the height of what is removed.  So a removal takes everything that depends on h,
      or equally leaves nothing that spends what is gone, exactly if no dependant stands below all it depends on. */
  lemma RemovesAllExactly(allTx: map<Hash, Tx>, list: seq<Hash>, h: Hash, rank: Hash -> nat)
    requires Acyclic(allTx, rank) && h in allTx && forall f :: f in list ==> f in allTx
    ensures TakesAll(allTx, list, h) <==> Upheld(allTx, list, h)
    ensures LeavesNoSpender(allTx, list, h) <==> Upheld(allTx, list, h)
  {
    hide Spends;
    if Upheld(allTx, list, h) { UpheldIsTaken(allTx, list, h, rank); }
    if TakesAll(allTx, list, h) { TakenIsUpheld(allTx, list, h); }
    if LeavesNoSpender(allTx, list, h) { CleanTakesAll(allTx, list, h); }
    if TakesAll(allTx, list, h) { AllLeavesClean(allTx, list, h); }
  }

  lemma {:induction false} TakenIsNeeded(allTx: map<Hash, Tx>, list: seq<Hash>, h: Hash, m: Hash, g: Hash, n: nat)
    requires m in allTx && forall f :: f in list ==> f in allTx
    requires Needs(allTx, list, h, m) && Below(allTx, list, m, g, n)
    ensures Needs(allTx, list, h, g)
    decreases n
  {
    if n > 0 {
      var x :| Depends(allTx, list, m, x) && Below(allTx, list, x, g, n - 1);
      var i: nat :| SpendsOver(allTx, list, h, m, i);
      assert SpendsOver(allTx, list, h, x, i + 1);
      TakenIsNeeded(allTx, list, h, x, g, n - 1);
    }
  }

  lemma DescendantsNeed(allTx: map<Hash, Tx>, list: seq<Hash>, h: Hash)
    requires h in allTx && forall f :: f in list ==> f in allTx
    ensures forall g :: g in Descendants(allTx, list, {h}) ==> Needs(allTx, list, h, g)
  {
    assert SpendsOver(allTx, list, h, h, 0);
    forall g | g in Descendants(allTx, list, {h})
      ensures Needs(allTx, list, h, g)
    {
      var n: nat :| Below(allTx, list, h, g, n);
      TakenIsNeeded(allTx, list, h, h, g, n);
    }
  }

  lemma UpheldIsTaken(allTx: map<Hash, Tx>, list: seq<Hash>, h: Hash, rank: Hash -> nat)
    requires Acyclic(allTx, rank) && h in allTx && forall f :: f in list ==> f in allTx
    requires Upheld(allTx, list, h)
    ensures TakesAll(allTx, list, h)
  {
    DescendantsNeed(allTx, list, h);
    forall g | g in list && Needs(allTx, list, h, g)
      ensures g in Descendants(allTx, list, {h})
    {
      ReachedFrom(allTx, list, h, g, rank);
    }
  }

  lemma {:induction false} ReachedFrom(allTx: map<Hash, Tx>, list: seq<Hash>, h: Hash, g: Hash, rank: Hash -> nat)
    requires Acyclic(allTx, rank) && h in allTx && forall f :: f in list ==> f in allTx
    requires Upheld(allTx, list, h) && g in allTx && Needs(allTx, list, h, g)
    ensures Descends(allTx, list, h, g)
    decreases rank(g)
  {
    if g == h {
      assert Below(allTx, list, h, h, 0);
    } else {
      var i: nat :| SpendsOver(allTx, list, h, g, i);
      assert g in list && UpheldBy(allTx, list, h, g);
      var m :| m in allTx && Needs(allTx, list, h, m) && Spends(allTx[g], m)
               && allTx[m].blockHeight <= allTx[g].blockHeight;
      assert rank(m) < rank(g);
      ReachedFrom(allTx, list, h, m, rank);
      var n: nat :| Below(allTx, list, h, m, n);
      BelowSnoc(allTx, list, h, m, g, n);
    }
  }

  lemma {:induction false} BelowLast(allTx: map<Hash, Tx>, list: seq<Hash>, h: Hash, g: Hash, n: nat) returns (m: Hash)
    requires h in allTx && (forall f :: f in list ==> f in allTx) && n > 0 && Below(allTx, list, h, g, n)
    ensures m in allTx && Below(allTx, list, h, m, n - 1) && Depends(allTx, list, m, g)
    decreases n
  {
    var x :| Depends(allTx, list, h, x) && Below(allTx, list, x, g, n - 1);
    if n == 1 {
      m := h;
    } else {
      m := BelowLast(allTx, list, x, g, n - 1);
    }
  }

  lemma TakenIsUpheld(allTx: map<Hash, Tx>, list: seq<Hash>, h: Hash)
    requires h in allTx && (forall f :: f in list ==> f in allTx) && TakesAll(allTx, list, h)
    ensures Upheld(allTx, list, h)
  {
    assert SpendsOver(allTx, list, h, h, 0);
    forall g | g in list && g != h && Needs(allTx, list, h, g)
      ensures UpheldBy(allTx, list, h, g)
    {
      var n: nat :| Below(allTx, list, h, g, n);
      var m := BelowLast(allTx, list, h, g, n);
      TakenIsNeeded(allTx, list, h, h, m, n - 1);
    }
  }

  lemma CleanTakesAll(allTx: map<Hash, Tx>, list: seq<Hash>, h: Hash)
    requires h in allTx && (forall f :: f in list ==> f in allTx) && LeavesNoSpender(allTx, list, h)
    ensures TakesAll(allTx, list, h)
  {
    DescendantsNeed(allTx, list, h);
    assert Below(allTx, list, h, h, 0);
    forall g, n: nat | g in list && SpendsOver(allTx, list, h, g, n)
      ensures g in Descendants(allTx, list, {h})
    {
      NeededIsGone(allTx, list, h, g, n);
    }
  }

  lemma {:induction false} NeededIsGone(allTx: map<Hash, Tx>, list: seq<Hash>, h: Hash, g: Hash, n: nat)
    requires h in allTx && (forall f :: f in list ==> f in allTx) && LeavesNoSpender(allTx, list, h)
    requires SpendsOver(allTx, list, h, g, n)
    ensures g in Descendants(allTx, list, {h}) + {h}
    decreases n
  {
    if n > 0 {
      var m :| SpendsOver(allTx, list, h, m, n - 1) && Spends(allTx[g], m);
      NeededIsGone(allTx, list, h, m, n - 1);
    }
  }

  lemma AllLeavesClean(allTx: map<Hash, Tx>, list: seq<Hash>, h: Hash)
    requires h in allTx && (forall f :: f in list ==> f in allTx) && TakesAll(allTx, list, h)
    ensures LeavesNoSpender(allTx, list, h)
  {
    assert SpendsOver(allTx, list, h, h, 0);
    var gone := Descendants(allTx, list, {h}) + {h};
    forall g, m | g in list && m in gone && Spends(allTx[g], m)
      ensures g in gone
    {
      assert Needs(allTx, list, h, m);
      var n: nat :| SpendsOver(allTx, list, h, m, n);
      assert SpendsOver(allTx, list, h, g, n + 1);
    }
  }

  /** For example: a payment that is not confirmed yet and a confirmed transaction that spends it.  Removing the payment
      leaves the transaction that spends it. */
  lemma SpenderStays(parent: Tx, child: Tx)
    requires parent == Tx(1, [TxInput(UTXO(8, 0), 0)], [TxOutput("a", 1)], 0, 100, TX_UNCONFIRMED, 0)
    requires child == Tx(2, [TxInput(UTXO(1, 0), 0)], [TxOutput("a", 1)], 0, 100, 100, 0)
    ensures
      var allTx, list := map[1 := parent, 2 := child], [2, 1];
      && Acyclic(allTx, (h: Hash) => if h == 8 then 0 else h) && Sorted(allTx, list) && Distinct(list)
      && Involves(allTx, {"a"}, parent) && Involves(allTx, {"a"}, child)
      && Spends(child, 1) && Filter(list, Descendants(allTx, list, {1})) == [2]
  {
    var allTx, list := map[1 := parent, 2 := child], [2, 1];
    assert child.inputs[0].outpoint.hash == 1;
    assert parent.outputs[0].address in {"a"} && child.outputs[0].address in {"a"};
    NoDependants(allTx, list, 1);
    assert list[..1] == [2] && [2][..0] == [];
  }

  // ---------- parents and children in the same block ----------

  // Within a block no transaction stands before one that it spends.
  ghost predicate ParentsFirst(allTx: map<Hash, Tx>, list: seq<Hash>)
    requires forall h :: h in list ==> h in allTx
  {
    forall i, j :: 0 <= i < j < |list| && allTx[list[i]].blockHeight == allTx[list[j]].blockHeight
                   ==> !Spends(allTx[list[i]], list[j])
  }

  // From every child of tx in its block on, all that is listed compares above tx.
  ghost predicate ChildrenAbove(allTx: map<Hash, Tx>, internal: seq<Address>, external: seq<Address>, list: seq<Hash>,
                                tx: Tx, rank: Hash -> nat)
    requires Acyclic(allTx, rank) && tx.txHash in allTx && allTx[tx.txHash] == tx
    requires forall h :: h in list ==> h in allTx
  {
    forall j, i :: 0 <= j <= i < |list| && allTx[list[j]].blockHeight == tx.blockHeight
                   && Spends(allTx[list[j]], tx.txHash)
                   ==> Compare(allTx, internal, external, allTx[list[i]], tx, rank) > 0
  }

  /** A transaction never compares above one of its block that spends it. */
  lemma CompareParent(allTx: map<Hash, Tx>, internal: seq<Address>, external: seq<Address>, parent: Tx, tx: Tx,
                      rank: Hash -> nat)
    requires Acyclic(allTx, rank) && parent.txHash in allTx && allTx[parent.txHash] == parent
    requires tx.txHash in allTx && allTx[tx.txHash] == tx
    requires parent.blockHeight == tx.blockHeight && Spends(tx, parent.txHash)
    ensures Compare(allTx, internal, external, parent, tx, rank) < 0
  {
    assert rank(parent.txHash) < rank(tx.txHash);
    assert !Spends(parent, tx.txHash);
  }

  /** The insertion sort puts a transaction behind all its listed parents that are not above it. */
  lemma BehindParents(allTx: map<Hash, Tx>, internal: seq<Address>, external: seq<Address>, list: seq<Hash>,
                      tx: Tx, k: nat, rank: Hash -> nat)
    requires Acyclic(allTx, rank) && (forall h :: h in list ==> h in allTx) && k <= |list|
    requires tx.txHash in allTx && allTx[tx.txHash] == tx
    requires forall i :: k <= i < |list| ==> Compare(allTx, internal, external, allTx[list[i]], tx, rank) > 0
    ensures forall j :: 0 <= j < |list| && Spends(tx, list[j]) && allTx[list[j]].blockHeight <= tx.blockHeight ==> j < k
  {
    hide Spends, Compare;
    forall j | 0 <= j < |list| && Spends(tx, list[j]) && allTx[list[j]].blockHeight <= tx.blockHeight
      ensures j < k
    {
      if allTx[list[j]].blockHeight == tx.blockHeight {
        CompareParent(allTx, internal, external, allTx[list[j]], tx, rank);
      } else {
        CompareByHeight(allTx, internal, external, allTx[list[j]], tx, rank);
      }
    }
  }

  lemma InsertedAt(list: seq<Hash>, k: nat, h: Hash)
    requires k <= |list|
    ensures |InsertAt(list, k, h)| == |list| + 1 && InsertAt(list, k, h)[k] == h
    ensures forall j :: 0 <= j < k ==> InsertAt(list, k, h)[j] == list[j]
    ensures forall j :: k < j <= |list| ==> InsertAt(list, k, h)[j] == list[j - 1]
    ensures forall j :: k <= j < |list| ==> InsertAt(list, k, h)[j + 1] == list[j]
    ensures forall g :: g in InsertAt(list, k, h) <==> g in list || g == h
  {
    assert InsertAt(list, k, h)[k] == h;
    assert forall j :: 0 <= j < |list| ==> InsertAt(list, k, h)[if j < k then j else j + 1] == list[j];
  }

  /** A list in which parents stand first stays so exactly if from every child on everything compares above the new
      transaction. */
  lemma ParentsFirstExactly(allTx: map<Hash, Tx>, internal: seq<Address>, external: seq<Address>, list: seq<Hash>,
                            tx: Tx, k: nat, rank: Hash -> nat)
    requires Acyclic(allTx, rank) && (forall h :: h in list ==> h in allTx) && k <= |list|
    requires tx.txHash in allTx && allTx[tx.txHash] == tx && ParentsFirst(allTx, list)
    requires forall i :: k <= i < |list| ==> Compare(allTx, internal, external, allTx[list[i]], tx, rank) > 0
    requires k > 0 ==> Compare(allTx, internal, external, allTx[list[k - 1]], tx, rank) <= 0
    ensures forall h :: h in InsertAt(list, k, tx.txHash) ==> h in allTx
    ensures ParentsFirst(allTx, InsertAt(list, k, tx.txHash))
       <==> ChildrenAbove(allTx, internal, external, list, tx, rank)
  {
    hide Spends, Compare, InsertAt;
    InsertedAt(list, k, tx.txHash);
    BehindParents(allTx, internal, external, list, tx, k, rank);
    if ChildrenAbove(allTx, internal, external, list, tx, rank) {
      StaysFirst(allTx, internal, external, list, tx, k, rank);
    }
    if ParentsFirst(allTx, InsertAt(list, k, tx.txHash)) {
      forall j, i | 0 <= j <= i < |list| && allTx[list[j]].blockHeight == tx.blockHeight
                    && Spends(allTx[list[j]], tx.txHash)
        ensures Compare(allTx, internal, external, allTx[list[i]], tx, rank) > 0
      {
        assert j < k ==> InsertAt(list, k, tx.txHash)[j] == list[j];
      }
    }
  }

  lemma StaysFirst(allTx: map<Hash, Tx>, internal: seq<Address>, external: seq<Address>, list: seq<Hash>,
                   tx: Tx, k: nat, rank: Hash -> nat)
    requires Acyclic(allTx, rank) && (forall h :: h in list ==> h in allTx) && k <= |list|
    requires tx.txHash in allTx && allTx[tx.txHash] == tx && ParentsFirst(allTx, list)
    requires forall j :: 0 <= j < |list| && Spends(tx, list[j]) && allTx[list[j]].blockHeight <= tx.blockHeight ==>
              j < k
    requires k > 0 ==> Compare(allTx, internal, external, allTx[list[k - 1]], tx, rank) <= 0
    requires ChildrenAbove(allTx, internal, external, list, tx, rank)
    ensures forall h :: h in InsertAt(list, k, tx.txHash) ==> h in allTx
    ensures ParentsFirst(allTx, InsertAt(list, k, tx.txHash))
  {
    hide Spends, Compare, InsertAt;
    var now := InsertAt(list, k, tx.txHash);
    InsertedAt(list, k, tx.txHash);
    assert k > 0 ==> Compare(allTx, internal, external, allTx[list[k - 1]], tx, rank) <= 0;
    forall i, j | 0 <= i < j < |now| && allTx[now[i]].blockHeight == allTx[now[j]].blockHeight
      ensures !Spends(allTx[now[i]], now[j])
    {
      assert j != k ==> now[j] == list[if j < k then j else j - 1];
    }
  }

  /** So a parent can end up after its child in the same block: an unrelated transaction at the end stops it. */
  lemma ParentAfterChild(rank: Hash -> nat, child: Tx, other: Tx, parent: Tx, k: nat)
    requires child == Tx(3, [TxInput(UTXO(1, 0), 0)], [TxOutput("a", 1)], 0, 100, 7, 0)
    requires other == Tx(2, [TxInput(UTXO(9, 0), 0)], [TxOutput("a", 1)], 0, 100, 7, 0)
    requires parent == Tx(1, [TxInput(UTXO(8, 0), 0)], [TxOutput("b", 1)], 0, 100, 7, 0)
    requires rank(1) < rank(3) && rank(9) < rank(2) && rank(8) < rank(1)
    requires k <= 2
    requires var allTx, list, chain := map[3 := child, 2 := other, 1 := parent], [3, 2], ["a", "b"];
      && Acyclic(allTx, rank)
      && (forall i :: k <= i < 2 ==> Compare(allTx, [], chain, allTx[list[i]], parent, rank) > 0)
      && (k > 0 ==> Compare(allTx, [], chain, allTx[list[k - 1]], parent, rank) <= 0)
    ensures Spends(child, parent.txHash) && InsertAt([3, 2], k, parent.txHash) == [3, 2, 1]
  {
    var allTx, chain := map[3 := child, 2 := other, 1 := parent], ["a", "b"];
    assert child.inputs[0].outpoint.hash == 1;
    assert !Ascending(allTx, other, parent, rank);
    assert parent.outputs[0].address == chain[1] && ChainIndex(parent, chain) == Some(1);
    assert other.outputs[0].address == chain[..1][0] && chain[..1][..0] == [] && ChainIndex(other, chain) == Some(0);
    assert Compare(allTx, [], chain, allTx[[3, 2][1]], parent, rank) <= 0;
    assert k == 2;
  }
}
