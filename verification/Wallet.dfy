/** BRWallet.c: the functions that change the wallet struct in place. */
module Wallet {
  import opened Ledger
  import LedgerLaws
  import opened Prelude
  import opened TxOrder

  class BRWallet {
    var balance: nat
    var totalSent: nat
    var totalReceived: nat
    var balanceHist: seq<nat>
    var blockHeight: nat
    var utxos: seq<UTXO>
    var transactions: seq<Hash>       // the listed transactions, held in allTx
    var allTx: map<Hash, Tx>
    var invalidTx: set<Hash>
    var pendingTx: set<Hash>
    var spentOutputs: set<UTXO>
    var usedAddrs: set<Address>
    var allAddrs: set<Address>
    var internalChain: seq<Address>
    var externalChain: seq<Address>

    // The list only holds registered transactions, each once.
    ghost predicate Valid()
      reads this`transactions, this`allTx
    {
      && (forall h :: h in allTx ==> allTx[h].txHash == h)
      && (forall h :: h in transactions ==> h in allTx)
      && (forall j, k :: 0 <= j < k < |transactions| ==> transactions[j] != transactions[k])
    }

    // What registering, updating, reorganising and removing keep: the list is sorted by block height, and every listed
    // transaction pays to or spends from an address of the wallet.
    ghost predicate Ordered(rank: Hash -> nat)
      reads this`transactions, this`allTx, this`allAddrs
    {
      && Valid() && Acyclic(allTx, rank) && Sorted(allTx, transactions)
      && forall h :: h in transactions ==> Involves(allTx, allAddrs, allTx[h])
    }

    // The listed transactions, in list order.
    function Listed(): (txs: seq<Tx>)
      requires forall h :: h in transactions ==> h in allTx
      reads this`transactions, this`allTx
    {
      Lookup(allTx, transactions)
    }

    function EnvAt(now: nat): Env
      reads this`allTx, this`allAddrs, this`blockHeight
    {
      Env(allTx, allAddrs, blockHeight, now)
    }

    // "check if any inputs are invalid or already spent"
    method CheckInputs(tx: Tx, ghost s: State) returns (isInvalid: bool)
      requires s.spent == spentOutputs && s.invalid == invalidTx
      ensures isInvalid <==> AnyBadInput(s, tx)
    {
      var j := 0;
      isInvalid := false;
      while !isInvalid && j < |tx.inputs|
        invariant 0 <= j <= |tx.inputs|
        invariant isInvalid ==> exists i :: i in tx.inputs && BadInput(s, i)
        invariant !isInvalid ==> forall k :: 0 <= k < j ==> !BadInput(s, tx.inputs[k])
      {
        if tx.inputs[j].outpoint in spentOutputs || tx.inputs[j].outpoint.hash in invalidTx {
          assert BadInput(s, tx.inputs[j]);
          isInvalid := true;
        }
        j := j + 1;
      }
    }

    // "add inputs to spent output set"
    method SpendInputs(tx: Tx)
      modifies this`spentOutputs
      ensures spentOutputs == old(spentOutputs) + Outpoints(tx)
    {
      var j := 0;
      while j < |tx.inputs|
        invariant 0 <= j <= |tx.inputs|
        invariant spentOutputs == old(spentOutputs) + (set k | 0 <= k < j :: tx.inputs[k].outpoint)
      {
        spentOutputs := spentOutputs + {tx.inputs[j].outpoint};
        j := j + 1;
      }
    }

    // "check if tx is pending"
    method CheckPending(tx: Tx, now: nat, ghost env: Env, ghost s: State) returns (isPending: bool)
      requires env.height == blockHeight && env.now == now && s.pending == pendingTx
      ensures isPending <==> HeldBack(env, s, tx)
    {
      isPending := tx.size > TX_MAX_SIZE;
      var j := 0;
      while !isPending && j < |tx.outputs|
        invariant 0 <= j <= |tx.outputs|
        invariant isPending ==> tx.size > TX_MAX_SIZE || exists o :: o in tx.outputs && o.amount < TX_MIN_OUTPUT_AMOUNT
        invariant !isPending ==> tx.size <= TX_MAX_SIZE
                                 && forall k :: 0 <= k < j ==> tx.outputs[k].amount >= TX_MIN_OUTPUT_AMOUNT
      {
        if tx.outputs[j].amount < TX_MIN_OUTPUT_AMOUNT { isPending := true; }
        j := j + 1;
      }
      ghost var early := isPending;
      j := 0;
      while !isPending && j < |tx.inputs|
        invariant 0 <= j <= |tx.inputs|
        invariant early ==> isPending
        invariant isPending && !early ==> exists i :: i in tx.inputs && HoldsBack(env, s, tx, i)
        invariant !isPending ==> forall k :: 0 <= k < j ==> !HoldsBack(env, s, tx, tx.inputs[k])
      {
        var i := tx.inputs[j];
        if i.sequence < UINT32_MAX - 1 { isPending := true; }
        if i.sequence < UINT32_MAX && tx.lockTime < TX_MAX_LOCK_HEIGHT && tx.lockTime > blockHeight + 1 {
          isPending := true;
        }
        if i.sequence < UINT32_MAX && tx.lockTime > now { isPending := true; }
        if i.outpoint.hash in pendingTx { isPending := true; }
        assert isPending <==> HoldsBack(env, s, tx, tx.inputs[j]);
        j := j + 1;
      }
    }

    // "add outputs to UTXO set"
    method AddOutputs(tx: Tx, bal: nat, ghost env: Env) returns (b: nat)
      requires env.addrs == allAddrs && env.allTx == allTx && tx.txHash in allTx && allTx[tx.txHash] == tx
      modifies this`utxos, this`usedAddrs
      ensures utxos == old(utxos) + NewUtxos(env, tx, |tx.outputs|)
      ensures usedAddrs == old(usedAddrs) + UsedBy(tx, |tx.outputs|)
      ensures b == bal + Total(env, NewUtxos(env, tx, |tx.outputs|))
    {
      hide Total, NewUtxos, UsedBy;
      NoOutputs(env, tx);
      b := bal;
      var j := 0;
      while j < |tx.outputs|
        invariant 0 <= j <= |tx.outputs|
        invariant utxos == old(utxos) + NewUtxos(env, tx, j)
        invariant usedAddrs == old(usedAddrs) + UsedBy(tx, j)
        invariant b == bal + Total(env, NewUtxos(env, tx, j))
      {
        var o := tx.outputs[j];
        OutputStep(env, tx, j);
        if o.address != "" {
          usedAddrs := usedAddrs + {o.address};
          if o.address in allAddrs {
            utxos := utxos + [UTXO(tx.txHash, j)];
            b := b + o.amount;
          }
        }
        j := j + 1;
      }
    }

    // "check the entire UTXO set against the entire spent output set"
    method Sweep(bal: nat, ghost env: Env) returns (b: nat)
      requires env.allTx == allTx && forall u :: u in utxos ==> Resolves(env, u)
      requires bal == Total(env, utxos)
      modifies this`utxos
      ensures utxos == Unspent(old(utxos), spentOutputs)
      ensures b == Total(env, utxos)
    {
      hide Unspent, Total;
      ghost var u0 := utxos;
      ghost var rest: seq<UTXO> := [];
      NothingToSweep(env, u0, spentOutputs);
      b := bal;
      var j := |utxos|;
      while j > 0
        invariant 0 <= j <= |u0|
        invariant utxos == u0[..j] + rest
        invariant Unspent(u0, spentOutputs) == Unspent(u0[..j], spentOutputs) + rest
        invariant b == Total(env, u0[..j]) + Total(env, rest)
      {
        SweepStep(env, u0, spentOutputs, j, rest);
        if utxos[j - 1] !in spentOutputs {
          rest := [u0[j - 1]] + rest;
        } else {
          assert utxos[j - 1] in u0;
          var t := allTx[utxos[j - 1].hash];
          b := b - t.outputs[utxos[j - 1].n].amount;
          assert utxos[..j - 1] == u0[..j - 1] && utxos[j..] == rest;
          utxos := utxos[..j - 1] + utxos[j..];
        }
        j := j - 1;
      }
      assert u0[..0] == [] && utxos == rest;
    }

    ghost function Caches(bal: nat, prevBalance: nat): State
      reads this
    {
      State(utxos, spentOutputs, invalidTx, pendingTx, usedAddrs, bal, prevBalance, totalSent, totalReceived,
            balanceHist)
    }

    // The body of the loop over the transaction list in _BRWalletUpdateBalance.
    method ReplayTx(tx: Tx, now: nat, bal: nat, prevBalance: nat) returns (b: nat, p: nat)
      requires tx.txHash in allTx && allTx[tx.txHash] == tx && bal == Total(EnvAt(now), utxos)
      requires forall u :: u in utxos ==> Resolves(EnvAt(now), u)
      modifies this`totalSent, this`totalReceived, this`balanceHist, this`utxos,
               this`invalidTx, this`pendingTx, this`spentOutputs, this`usedAddrs
      ensures Caches(b, p) == Step(EnvAt(now), old(Caches(bal, prevBalance)), tx)
      ensures b == Total(EnvAt(now), utxos)
    {
      ghost var env, s := EnvAt(now), Caches(bal, prevBalance);
      b, p := bal, prevBalance;
      if tx.blockHeight == TX_UNCONFIRMED {
        var isInvalid := CheckInputs(tx, s);
        if isInvalid {
          assert StatusOf(env, s, tx) == Invalid;
          invalidTx := invalidTx + {tx.txHash};
          balanceHist := balanceHist + [bal];
          return;
        }
      }
      SpendInputs(tx);
      if tx.blockHeight == TX_UNCONFIRMED {
        var isPending := CheckPending(tx, now, env, s);
        if isPending {
          assert StatusOf(env, s, tx) == Pending;
          pendingTx := pendingTx + {tx.txHash};
          balanceHist := balanceHist + [bal];
          return;
        }
      }
      assert StatusOf(env, s, tx) == Applied;
      b, p := ApplyTx(tx, bal, prevBalance, env, s);
    }

    method Record(b: nat, prevBalance: nat)
      modifies this`totalSent, this`totalReceived, this`balanceHist
      ensures totalReceived >= old(totalReceived) && totalSent >= old(totalSent)
      ensures totalReceived == old(totalReceived) || totalSent == old(totalSent)
      ensures totalReceived - totalSent == old(totalReceived) - old(totalSent) + b - prevBalance
      ensures balanceHist == old(balanceHist) + [b]
    {
      if prevBalance < b { totalReceived := totalReceived + (b - prevBalance); }
      if b < prevBalance { totalSent := totalSent + (prevBalance - b); }
      balanceHist := balanceHist + [b];
    }

    // The rest of that loop body, for a transaction that is neither invalid nor pending and whose inputs are spent.
    method ApplyTx(tx: Tx, bal: nat, prevBalance: nat, ghost env: Env, ghost s: State) returns (b: nat, p: nat)
      requires env.addrs == allAddrs && env.allTx == allTx
      requires tx.txHash in allTx && allTx[tx.txHash] == tx && bal == Total(env, utxos)
      requires Caches(bal, prevBalance) == s.(spent := s.spent + Outpoints(tx))
      requires forall u :: u in utxos ==> Resolves(env, u)
      modifies this`totalSent, this`totalReceived, this`balanceHist, this`utxos, this`usedAddrs
      ensures Caches(b, p) == Apply(env, s, tx)
      ensures b == Total(env, utxos)
    {
      hide Unspent, Total, NewUtxos;
      NewUtxosExactly(env, tx, |tx.outputs|);
      TotalConcat(env, utxos, NewUtxos(env, tx, |tx.outputs|));
      b := AddOutputs(tx, bal, env);
      b := Sweep(b, env);
      Record(b, prevBalance);
      p := b;
    }

    /** _BRWalletUpdateBalance: throws the caches away and replays the transaction list. */
    method UpdateBalance(now: nat)
      requires Valid()
      modifies this`balance, this`totalSent, this`totalReceived, this`balanceHist, this`utxos,
               this`invalidTx, this`pendingTx, this`spentOutputs, this`usedAddrs
      ensures Caches(balance, balance) == Replay(EnvAt(now), Listed())
    {
      hide Step, Total, Replay;
      var bal, prevBalance := 0, 0;
      utxos, balanceHist, spentOutputs, invalidTx, pendingTx, usedAddrs := [], [], {}, {}, {}, {};
      totalSent, totalReceived := 0, 0;
      ghost var env, txs := EnvAt(now), Listed();
      assert Registered(env, txs);
      assert txs[..0] == [] && txs[..|txs|] == txs;
      ReplayNothing(env);
      var i := 0;
      while i < |transactions|
        invariant 0 <= i <= |transactions|
        invariant Caches(bal, prevBalance) == Replay(env, txs[..i])
      {
        ReplayStep(env, txs, i);
        BalanceIsTotal(env, txs[..i]);
        bal, prevBalance := ReplayTx(allTx[transactions[i]], now, bal, prevBalance);
        i := i + 1;
      }
      balance := bal;
      BalanceIsTotal(env, txs);
    }

    // ---------- the order of the list ----------

    method TxIsAscending(t1: Tx, t2: Tx, ghost rank: Hash -> nat) returns (r: bool)
      requires Acyclic(allTx, rank) && t1.txHash in allTx && allTx[t1.txHash] == t1
      ensures r == Ascending(allTx, t1, t2, rank)
      decreases rank(t1.txHash)
    {
      if t1.blockHeight > t2.blockHeight { return true; }
      if t1.blockHeight < t2.blockHeight { return false; }
      for i := 0 to |t1.inputs|
        invariant forall k :: 0 <= k < i ==> t1.inputs[k].outpoint.hash != t2.txHash
      {
        if t1.inputs[i].outpoint.hash == t2.txHash { return true; }
      }
      for i := 0 to |t2.inputs|
        invariant forall k :: 0 <= k < i ==> t2.inputs[k].outpoint.hash != t1.txHash
      {
        if t2.inputs[i].outpoint.hash == t1.txHash { return false; }
      }
      for i := 0 to |t1.inputs|
        invariant forall k :: 0 <= k < i ==> t1.inputs[k].outpoint.hash in allTx ==>
                    !Ascending(allTx, allTx[t1.inputs[k].outpoint.hash], t2, rank)
      {
        var h := t1.inputs[i].outpoint.hash;
        if h in allTx {
          var above := TxIsAscending(allTx[h], t2, rank);
          if above { return true; }
        }
      }
      return false;
    }

    method TxChainIndex(tx: Tx, chain: seq<Address>) returns (r: Option<nat>)
      ensures r == ChainIndex(tx, chain)
    {
      assert chain[..|chain|] == chain;
      var i: nat := |chain|;
      while i > 0
        invariant i <= |chain| && ChainIndex(tx, chain) == ChainIndex(tx, chain[..i])
      {
        for j := 0 to |tx.outputs|
          invariant forall k :: 0 <= k < j ==> tx.outputs[k].address != chain[i - 1]
        {
          if tx.outputs[j].address == chain[i - 1] { return Some(i - 1); }
        }
        assert chain[..i][..i - 1] == chain[..i - 1];
        i := i - 1;
      }
      return None;
    }

    method TxCompare(t1: Tx, t2: Tx, ghost rank: Hash -> nat) returns (r: int)
      requires Acyclic(allTx, rank) && t1.txHash in allTx && allTx[t1.txHash] == t1
      requires t2.txHash in allTx && allTx[t2.txHash] == t2
      ensures r == Compare(allTx, internalChain, externalChain, t1, t2, rank)
    {
      hide Ascending, ChainIndex;
      var after := TxIsAscending(t1, t2, rank);
      if after { return 1; }
      after := TxIsAscending(t2, t1, rank);
      if after { return -1; }
      var i := TxChainIndex(t1, internalChain);
      var j := TxChainIndex(t2, if i.None? then externalChain else internalChain);
      if i.None? && j.Some? {
        i := TxChainIndex(t1, externalChain);
      }
      if i.Some? && j.Some? && i.value != j.value { return if i.value > j.value then 1 else -1; }
      return 0;
    }

    // The loop of _BRWalletInsertTx: transactions that compare above tx move up by one.
    method ShiftIn(tx: Tx, ghost rank: Hash -> nat) returns (ghost k: nat)
      requires Acyclic(allTx, rank) && tx.txHash in allTx && allTx[tx.txHash] == tx
      requires forall h :: h in transactions ==> h in allTx && allTx[h].txHash == h
      modifies this`transactions
      ensures k <= |old(transactions)| && transactions == InsertAt(old(transactions), k, tx.txHash)
      ensures forall j :: k <= j < |old(transactions)| ==>
                Compare(allTx, internalChain, externalChain, allTx[old(transactions)[j]], tx, rank) > 0
      ensures k > 0 ==> Compare(allTx, internalChain, externalChain, allTx[old(transactions)[k - 1]], tx, rank) <= 0
    {
      hide Compare, Acyclic, InsertAt;
      ghost var was := transactions;
      var i: nat := |transactions|;
      transactions := transactions + [tx.txHash];
      while i > 0
        invariant i <= |was| && |transactions| == |was| + 1
        invariant transactions[..i] == was[..i] && transactions[i + 1..] == was[i..]
        invariant forall j :: i <= j < |was| ==>
                    Compare(allTx, internalChain, externalChain, allTx[was[j]], tx, rank) > 0
      {
        MoveGap(was, transactions, i);
        var c := TxCompare(allTx[transactions[i - 1]], tx, rank);
        if c <= 0 { break; }
        transactions := transactions[i := transactions[i - 1]];
        i := i - 1;
      }
      FillGap(was, transactions, i, tx.txHash);
      transactions := transactions[i := tx.txHash];
      k := i;
    }

    /** _BRWalletInsertTx: an insertion sort step from the end of the list. */
    method InsertTx(tx: Tx, ghost rank: Hash -> nat) returns (ghost k: nat)
      requires Valid() && Acyclic(allTx, rank) && Sorted(allTx, transactions)
      requires tx.txHash in allTx && allTx[tx.txHash] == tx && tx.txHash !in transactions
      modifies this`transactions
      ensures k <= |old(transactions)| && transactions == InsertAt(old(transactions), k, tx.txHash)
      ensures forall j :: k <= j < |old(transactions)| ==>
                Compare(allTx, internalChain, externalChain, allTx[old(transactions)[j]], tx, rank) > 0
      ensures k > 0 ==> Compare(allTx, internalChain, externalChain, allTx[old(transactions)[k - 1]], tx, rank) <= 0
      ensures Valid() && Sorted(allTx, transactions)
      ensures multiset(transactions) == multiset(old(transactions)) + multiset{tx.txHash}
      ensures old(ParentsFirst(allTx, transactions)) ==>
                (ParentsFirst(allTx, transactions)
                 <==> ChildrenAbove(allTx, internalChain, externalChain, old(transactions), tx, rank))
    {
      hide Compare, Acyclic, Sorted, Distinct, InsertAt, ParentsFirst, ChildrenAbove;
      ghost var was := transactions;
      ListedOnce(was);
      k := ShiftIn(tx, rank);
      Inserted(allTx, internalChain, externalChain, was, tx, k, rank);
      ListedOnce(transactions);
      if ParentsFirst(allTx, was) {
        ParentsFirstExactly(allTx, internalChain, externalChain, was, tx, k, rank);
      }
    }

    // Where the scan from the end first meets a transaction below the height.
    method FirstAtLeast(height: nat) returns (n: nat)
      requires Valid() && Sorted(allTx, transactions)
      ensures n <= |transactions|
      ensures forall h :: h in transactions[n..] <==> h in transactions && allTx[h].blockHeight >= height
      ensures AtLeast(allTx, transactions, |transactions|, height) == transactions[n..]
    {
      hide Sorted, AtLeast;
      n := |transactions|;
      while n > 0 && allTx[transactions[n - 1]].blockHeight >= height
        invariant n <= |transactions|
        invariant forall k :: n <= k < |transactions| ==> allTx[transactions[k]].blockHeight >= height
      {
        n := n - 1;
      }
      SuffixExactly(allTx, transactions, n, height);
      SuffixIsScan(allTx, transactions, n, |transactions|, height);
    }

    /** BRWalletTxUnconfirmedBefore: the suffix scan finds what a scan of the whole list would, in list order.  Without
        an array to write to (room is None) only the number is asked for. */
    method TxUnconfirmedBefore(room: Option<nat>, height: nat) returns (txs: seq<Hash>, txCount: nat)
      requires Valid() && Sorted(allTx, transactions)
      ensures
        var all := AtLeast(allTx, transactions, |transactions|, height);
        && txCount == (if room.None? || |all| < room.value then |all| else room.value)
        && txs == if room.None? then [] else all[..txCount]
    {
      hide Sorted, AtLeast;
      var n := FirstAtLeast(height);
      txCount := if room.None? || |transactions| - n < room.value then |transactions| - n else room.value;
      txs := if room.None? then [] else transactions[n..n + txCount];
    }

    /** BRWalletSetTxUnconfirmedAfter: exactly the listed transactions above the height lose their confirmation. */
    method SetTxUnconfirmedAfter(height: nat, now: nat, ghost rank: Hash -> nat) returns (hashes: seq<Hash>)
      requires Ordered(rank) && forall h :: h in allTx ==> allTx[h].blockHeight <= TX_UNCONFIRMED
      modifies this
      ensures transactions == old(transactions) && allAddrs == old(allAddrs) && blockHeight == height
      ensures allTx.Keys == old(allTx).Keys
      ensures forall h :: h in allTx ==>
                allTx[h] == Reset(old(allTx)[h], h in transactions && old(allTx)[h].blockHeight > height)
      ensures forall h :: h in hashes <==> h in transactions && old(allTx)[h].blockHeight > height
      ensures forall h :: h in hashes ==> allTx[h].blockHeight == TX_UNCONFIRMED
      ensures forall h :: h in allTx ==> allTx[h] == old(allTx)[h].(blockHeight := allTx[h].blockHeight)
      ensures Ordered(rank)
      ensures hashes != [] ==> Caches(balance, balance) == Replay(EnvAt(now), Listed())
      ensures hashes == [] ==> Caches(balance, balance) == old(Caches(balance, balance))
    {
      hide Replay, Involves, Sorted, Acyclic, Distinct, AtLeast;
      ghost var was := allTx;
      var n := FirstAtLeast(height + 1);
      blockHeight := height;
      hashes := Unconfirm(n);
      UnconfirmedOrder(was, allTx, transactions, height, rank);
      HeightsDoNotInvolve(was, allTx, allAddrs);
      if hashes != [] {
        UpdateBalance(now);
      }
    }

    // The listed transactions from position n on become unconfirmed.
    method Unconfirm(n: nat) returns (hashes: seq<Hash>)
      requires Valid() && n <= |transactions|
      modifies this`allTx
      ensures hashes == transactions[n..] && allTx.Keys == old(allTx).Keys && Valid()
      ensures forall h :: h in allTx ==> allTx[h] == Reset(old(allTx)[h], h in transactions[n..])
    {
      hashes := [];
      for j := n to |transactions|
        invariant allTx.Keys == old(allTx).Keys && hashes == transactions[n..j] && Valid()
        invariant forall h :: h in allTx ==> allTx[h] == Reset(old(allTx)[h], h in transactions[n..j])
      {
        var h := transactions[j];
        assert forall k | n <= k < j :: transactions[n..j][k - n] == transactions[k] != h;
        assert transactions[n..j + 1] == transactions[n..j] + [h];
        allTx := allTx[h := allTx[h].(blockHeight := TX_UNCONFIRMED)];
        hashes := hashes + [h];
      }
    }

    method ContainsTx(tx: Tx) returns (r: bool)
      ensures r <==> Involves(allTx, allAddrs, tx)
    {
      for i := 0 to |tx.outputs|
        invariant forall k :: 0 <= k < i ==> tx.outputs[k].address !in allAddrs
      {
        if tx.outputs[i].address in allAddrs { return true; }
      }
      for i := 0 to |tx.inputs|
        invariant forall k :: 0 <= k < i ==> !SpendsFrom(allTx, allAddrs, tx.inputs[k].outpoint)
      {
        var h, n := tx.inputs[i].outpoint.hash, tx.inputs[i].outpoint.n;
        if h in allTx && n < |allTx[h].outputs| && allTx[h].outputs[n].address in allAddrs {
          assert SpendsFrom(allTx, allAddrs, tx.inputs[i].outpoint);
          return true;
        }
      }
      return false;
    }

    // Takes a listed transaction out and sorts it in again under its new height.
    method Resort(tx: Tx, ghost rank: Hash -> nat, ghost was: map<Hash, Tx>)
      requires Valid() && Acyclic(allTx, rank) && tx.txHash in allTx && allTx[tx.txHash] == tx
      requires was.Keys == allTx.Keys && Sorted(was, transactions)
      requires forall h :: h in allTx && h != tx.txHash ==> allTx[h] == was[h]
      modifies this`transactions
      ensures Valid() && Sorted(allTx, transactions) && multiset(transactions) == multiset(old(transactions))
    {
      hide Acyclic, Sorted, Distinct, InsertAt, RemoveAt, ParentsFirst, ChildrenAbove, Compare;
      ListedOnce(transactions);
      var k: nat := |transactions|;
      while k > 0
        invariant k <= |transactions| && transactions == old(transactions)
        invariant forall j :: k <= j < |transactions| ==> transactions[j] != tx.txHash
      {
        if transactions[k - 1] == tx.txHash {
          RemoveKeepsSorted(was, transactions, k - 1, allTx);
          RemoveKeepsDistinct(transactions, k - 1);
          ListedOnce(RemoveAt(transactions, k - 1));
          transactions := RemoveAt(transactions, k - 1);
          ghost var at := InsertTx(tx, rank);
          return;
        }
        k := k - 1;
      }
      NotListed(was, allTx, transactions, tx.txHash);
    }

    /** The body of the loop of BRWalletUpdateTransactions: h gets its height, and the list stays in order. */
    method UpdateTransaction(h: Hash, height: nat, timestamp: nat, ghost rank: Hash -> nat)
      returns (updated: bool, needsUpdate: bool)
      requires Ordered(rank)
      modifies this`allTx, this`transactions
      ensures Ordered(rank) && multiset(transactions) == multiset(old(transactions))
      ensures h in transactions ==> h in allTx && allTx[h].blockHeight == height && allTx[h].timestamp == timestamp
      ensures updated <==> Changes(old(allTx), allAddrs, h, height, timestamp)
      ensures Updated(old(allTx), allTx, allAddrs, [h], height, timestamp)
      ensures needsUpdate <==> updated && (h in pendingTx || h in invalidTx)
    {
      hide Acyclic, Sorted, Involves, Updated;
      updated, needsUpdate := false, false;
      ghost var was := allTx;
      if h !in allTx || (allTx[h].blockHeight == height && allTx[h].timestamp == timestamp) {
        UpdatedOne(was, allTx, allAddrs, h, height, timestamp);
        return;
      }
      var tx := allTx[h].(blockHeight := height, timestamp := timestamp);
      allTx := allTx[h := tx];
      HeightsDoNotInvolve(was, allTx, allAddrs);
      DatedAcyclic(was, allTx, rank);
      var ours := ContainsTx(tx);
      if ours {
        Resort(tx, rank, was);
        SameMembers(old(transactions), transactions);
        updated, needsUpdate := true, h in pendingTx || h in invalidTx;
      } else {
        assert h !in transactions;
        NotListed(was, allTx, transactions, h);
        if height != TX_UNCONFIRMED {
          ForgetKeepsInvolved(allTx, allAddrs, h);
          Forgotten(allTx, transactions, h, rank);
          allTx := allTx - {h};
        }
      }
      UpdatedOne(was, allTx, allAddrs, h, height, timestamp);
    }

    // The loop of BRWalletUpdateTransactions.
    method UpdateAll(txHashes: seq<Hash>, height: nat, timestamp: nat, ghost rank: Hash -> nat)
      returns (hashes: seq<Hash>, needsUpdate: bool)
      requires Ordered(rank)
      modifies this`allTx, this`transactions
      ensures Ordered(rank) && multiset(transactions) == multiset(old(transactions))
      ensures Updated(old(allTx), allTx, allAddrs, txHashes, height, timestamp)
      ensures forall g :: g in hashes <==> g in txHashes && Changes(old(allTx), allAddrs, g, height, timestamp)
      ensures needsUpdate <==> exists g :: g in hashes && (g in pendingTx || g in invalidTx)
    {
      hide Acyclic, Sorted, Involves, Changes, Updated;
      needsUpdate := false;
      hashes := [];
      NothingUpdated(allTx, allAddrs, height, timestamp);
      for i := 0 to |txHashes|
        invariant Ordered(rank) && multiset(transactions) == multiset(old(transactions))
        invariant Updated(old(allTx), allTx, allAddrs, txHashes[..i], height, timestamp)
        invariant forall g :: g in hashes <==> g in txHashes[..i] && Changes(old(allTx), allAddrs, g, height, timestamp)
        invariant needsUpdate <==> exists g :: g in hashes && (g in pendingTx || g in invalidTx)
      {
        ghost var mid := allTx;
        var updated, needed := UpdateTransaction(txHashes[i], height, timestamp, rank);
        UpdatedMore(old(allTx), mid, allTx, allAddrs, txHashes[..i], txHashes[i], height, timestamp);
        assert txHashes[..i + 1] == txHashes[..i] + [txHashes[i]];
        if updated {
          hashes := hashes + [txHashes[i]];
          assert txHashes[i] in hashes;
          if needed { needsUpdate := true; }
        }
      }
      assert txHashes[..|txHashes|] == txHashes;
    }

    /** BRWalletUpdateTransactions: exactly the named transactions get the height and time, and the list stays a sorted
        permutation of itself.  The caches are rebuilt only when a transaction was pending or invalid. */
    method UpdateTransactions(txHashes: seq<Hash>, height: nat, timestamp: nat, now: nat, ghost rank: Hash -> nat)
      returns (hashes: seq<Hash>, ghost needs: bool)
      requires Ordered(rank)
      modifies this
      ensures Ordered(rank) && multiset(transactions) == multiset(old(transactions)) && allAddrs == old(allAddrs)
      ensures blockHeight == if height > old(blockHeight) then height else old(blockHeight)
      ensures Updated(old(allTx), allTx, allAddrs, txHashes, height, timestamp)
      ensures forall g :: g in hashes <==> g in txHashes && Changes(old(allTx), allAddrs, g, height, timestamp)
      ensures needs <==> exists g :: g in hashes && (g in old(pendingTx) || g in old(invalidTx))
      ensures needs ==> Caches(balance, balance) == Replay(EnvAt(now), Listed())
      ensures !needs ==> Caches(balance, balance) == old(Caches(balance, balance))
    {
      hide Acyclic, Sorted, Involves, Replay;
      if height > blockHeight { blockHeight := height; }
      var needsUpdate;
      hashes, needsUpdate := UpdateAll(txHashes, height, timestamp, rank);
      needs := needsUpdate;
      if needsUpdate { UpdateBalance(now); }
    }

    // The scan of BRWalletRemoveTransaction for transactions that spend tx.
    method Dependants(tx: Tx, ghost rank: Hash -> nat) returns (hashes: seq<Hash>)
      requires Valid() && Sorted(allTx, transactions) && tx.txHash in allTx && allTx[tx.txHash] == tx
      ensures forall g :: g in hashes <==> Depends(allTx, transactions, tx.txHash, g)
    {
      hashes := [];
      var i: nat := |transactions|;
      while i > 0
        invariant i <= |transactions|
        invariant forall g :: g in hashes ==> Depends(allTx, transactions, tx.txHash, g)
        invariant forall k :: i <= k < |transactions| && Depends(allTx, transactions, tx.txHash, transactions[k])
                              ==> transactions[k] in hashes
      {
        var t := allTx[transactions[i - 1]];
        if t.blockHeight < tx.blockHeight {
          assert forall k :: 0 <= k < i ==> allTx[transactions[k]].blockHeight < tx.blockHeight;
          return;
        }
        var spends := false;
        for j := 0 to |t.inputs|
          invariant spends <==> exists k :: 0 <= k < j && t.inputs[k].outpoint.hash == tx.txHash
        {
          if t.inputs[j].outpoint.hash == tx.txHash { spends := true; }
        }
        if t.txHash != tx.txHash && spends {
          hashes := hashes + [t.txHash];
        }
        i := i - 1;
      }
    }

    // Takes a transaction out of the list; it stays in allTx.
    method Unlist(h: Hash, ghost rank: Hash -> nat)
      requires Ordered(rank)
      modifies this`transactions
      ensures transactions == Filter(old(transactions), {h}) && Ordered(rank)
    {
      hide Involves, Acyclic, Sorted, Distinct, Filter, RemoveAt;
      ListedOnce(transactions);
      FilterKeepsOrder(allTx, transactions, {h});
      FilterExactly(transactions, {h});
      ListedOnce(Filter(transactions, {h}));
      var i: nat := |transactions|;
      while i > 0
        invariant i <= |transactions| && transactions == old(transactions)
        invariant forall j :: i <= j < |transactions| ==> transactions[j] != h
      {
        if transactions[i - 1] == h {
          FilterOne(transactions, i - 1);
          transactions := RemoveAt(transactions, i - 1);
          return;
        }
        i := i - 1;
      }
      FilterNothing(transactions, {h});
    }

    /** BRWalletRemoveTransaction: what leaves the list is the transaction and exactly the descendants that the scan
        finds, each listed at or above the height of what it spends. TxOrder.RemovesAllExactly says when these are
        all that spend what was removed. */
    method RemoveTransaction(h: Hash, now: nat, ghost rank: Hash -> nat, ghost top: nat)
      requires Ordered(rank) && forall g :: g in allTx ==> rank(g) <= top
      modifies this`transactions, this`balance, this`totalSent, this`totalReceived, this`balanceHist, this`utxos,
               this`invalidTx, this`pendingTx, this`spentOutputs, this`usedAddrs
      ensures Ordered(rank)
      ensures h !in allTx ==>
                transactions == old(transactions) && Caches(balance, balance) == old(Caches(balance, balance))
      ensures h in allTx ==> transactions == Filter(old(transactions), Descendants(allTx, old(transactions), {h}))
      ensures h in allTx ==> Caches(balance, balance) == Replay(EnvAt(now), Listed())
      decreases |transactions|, if h in allTx then top - rank(h) else 0
    {
      hide Involves, Acyclic, Sorted, Replay, Filter, Descendants;
      if h !in allTx { return; }
      var hashes := Dependants(allTx[h], rank);
      if |hashes| > 0 {
        ghost var was, done: set<Hash> := transactions, {};
        NothingBelowNothing(allTx, was);
        var i: nat := |hashes|;
        while i > 0
          invariant i <= |hashes| && Ordered(rank) && done == set j | i <= j < |hashes| :: hashes[j]
          invariant forall g :: g in done ==> g in allTx
          invariant transactions == Filter(was, Descendants(allTx, was, done)) && |transactions| <= |was|
          invariant i < |hashes| ==> |transactions| < |was|
        {
          var c := hashes[i - 1];
          assert Depends(allTx, was, h, c);
          DependantBelow(allTx, was, h, c, rank);
          RemoveTransaction(c, now, rank, top);
          RemoveBoth(allTx, was, done, c);
          done := done + {c};
          i := i - 1;
          FilterShorter(allTx, was, done, c);
        }
        RemoveTransaction(h, now, rank, top);
        RemoveBoth(allTx, was, done, h);
        assert forall g :: g in done <==> g in hashes;
        DependantsSuffice(allTx, was, h, done);
      } else {
        assert forall g :: g !in hashes;
        NoDependants(allTx, transactions, h);
        ghost var was := transactions;
        Unlist(h, rank);
        if h !in was { FilterNothing(was, {h}); FilterNothing(was, {}); }
        UpdateBalance(now);
      }
    }

    // ---------- addresses and registration ----------

    // The two loops of BRWalletUnusedAddrs: find the trailing unused block, generate until it is long enough.
    method ExtendChain(was: seq<Address>, gapLimit: nat, derive: nat -> Option<Address>)
      returns (chain: seq<Address>, i: nat)
      requires Injective(derive) && Derived(was, derive)
      ensures Extended(was, chain, derive) && FirstUnused(chain, usedAddrs, i)
      ensures |chain| == |was| || |chain| <= i + gapLimit
      ensures i + gapLimit <= |chain| || derive(|chain|).None?
    {
      chain, i := was, |was|;
      while i > 0 && chain[i - 1] !in usedAddrs
        invariant i <= |chain| && forall k :: i <= k < |chain| ==> chain[k] !in usedAddrs
      {
        i := i - 1;
      }
      while i + gapLimit > |chain|
        invariant Extended(was, chain, derive) && FirstUnused(chain, usedAddrs, i)
        invariant |chain| == |was| || |chain| <= i + gapLimit
        decreases Ahead(usedAddrs, chain), i + gapLimit - |chain|
      {
        var address := derive(|chain|);
        if address.None? { break; }
        FreshAddress(usedAddrs, chain, derive);
        chain := chain + [address.value];
        if address.value in usedAddrs { i := |chain|; }
      }
    }

    /** BRWalletUnusedAddrs.  derive is the BIP32 derivation of the chain, moved the reallocation of its array. */
    method UnusedAddrs(gapLimit: nat, internal: bool, wanted: bool, moved: bool, derive: nat -> Option<Address>)
      returns (addrs: seq<Address>, ghost first: nat)
      requires AddrsMatch() && Injective(derive) && Derived(if internal then internalChain else externalChain, derive)
      modifies this`internalChain, this`externalChain, this`allAddrs
      ensures AddrsMatch() && old(allAddrs) <= allAddrs
      ensures internal ==> externalChain == old(externalChain) && Extended(old(internalChain), internalChain, derive)
      ensures !internal ==> internalChain == old(internalChain) && Extended(old(externalChain), externalChain, derive)
      ensures var chain, was := if internal then internalChain else externalChain,
                                if internal then old(internalChain) else old(externalChain);
        && FirstUnused(chain, usedAddrs, first)
        && (|chain| == |was| || |chain| <= first + gapLimit)
        && (first + gapLimit <= |chain| || derive(|chain|).None?)
        && addrs == (if wanted && first + gapLimit <= |chain| then chain[first..first + gapLimit] else [])
    {
      hide FirstUnused, Derived;
      var was := if internal then internalChain else externalChain;
      var chain, i := ExtendChain(was, gapLimit, derive);
      first := i;
      addrs := if wanted && i + gapLimit <= |chain| then chain[i..i + gapLimit] else [];
      if internal { internalChain := chain; } else { externalChain := chain; }
      if moved {
        allAddrs := {};
        AddAll(internalChain, 0);
        AddAll(externalChain, 0);
      } else {
        AddAll(chain, |was|);
        assert chain == was + chain[|was|..];
      }
    }

    /** BRWalletRegisterTransaction. */
    method RegisterTransaction(tx: Tx, signed: bool, now: nat, movedEx: bool, movedIn: bool,
                               deriveEx: nat -> Option<Address>, deriveIn: nat -> Option<Address>,
                               ghost rank: Hash -> nat)
      returns (r: bool, ghost k: nat)
      requires Ordered(rank) && AddrsMatch() && forall i :: i in tx.inputs ==> rank(i.outpoint.hash) < rank(tx.txHash)
      requires Injective(deriveEx) && Injective(deriveIn)
      requires Derived(externalChain, deriveEx) && Derived(internalChain, deriveIn)
      modifies this
      ensures Ordered(rank) && AddrsMatch() && old(allAddrs) <= allAddrs && blockHeight == old(blockHeight)
      ensures Extended(old(externalChain), externalChain, deriveEx)
      ensures Extended(old(internalChain), internalChain, deriveIn)
      ensures r <==> signed && (tx.txHash in old(allTx) || Involves(old(allTx), old(allAddrs), tx))
      ensures r && tx.txHash !in old(allTx) ==>
        && allTx == old(allTx)[tx.txHash := tx]
        && k <= |old(transactions)| && transactions == InsertAt(old(transactions), k, tx.txHash)
        && Caches(balance, balance) == Replay(Env(allTx, old(allAddrs), blockHeight, now), Listed())
        && LedgerLaws.Lags(Env(allTx, old(allAddrs), blockHeight, now), allAddrs, Listed())
        && Stocked(old(externalChain), externalChain, usedAddrs, deriveEx, 10)
        && Stocked(old(internalChain), internalChain, usedAddrs, deriveIn, 5)
      ensures !(r && tx.txHash !in old(allTx)) ==>
        && transactions == old(transactions) && Caches(balance, balance) == old(Caches(balance, balance))
        && externalChain == old(externalChain) && internalChain == old(internalChain)
        && allTx == if signed && tx.txHash !in old(allTx) && tx.blockHeight == TX_UNCONFIRMED
                    then old(allTx)[tx.txHash := tx] else old(allTx)
    {
      hide Replay, Acyclic, Sorted, Involves, InsertAt, Derived, Injective, Stocked, LedgerLaws.Lags;
      r, k := signed, 0;
      if !signed || tx.txHash in allTx { return; }
      var ours := ContainsTx(tx);
      if !ours && tx.blockHeight != TX_UNCONFIRMED { return false, 0; }
      k := Store(tx, ours, now, rank);
      if !ours { return false, 0; }
      TopUpChains(movedEx, movedIn, deriveEx, deriveIn, rank);
      LedgerLaws.MissedExactly(Env(allTx, old(allAddrs), blockHeight, now), allAddrs, Listed());
    }

    // A new transaction is stored, and listed if it is the wallet's.
    method Store(tx: Tx, ours: bool, now: nat, ghost rank: Hash -> nat) returns (ghost k: nat)
      requires Ordered(rank) && tx.txHash !in allTx && (ours <==> Involves(allTx, allAddrs, tx))
      requires forall i :: i in tx.inputs ==> rank(i.outpoint.hash) < rank(tx.txHash)
      modifies this`balance, this`totalSent, this`totalReceived, this`balanceHist, this`utxos, this`invalidTx,
               this`pendingTx, this`spentOutputs, this`usedAddrs, this`allTx, this`transactions
      ensures Ordered(rank) && allTx == old(allTx)[tx.txHash := tx]
      ensures ours ==> k <= |old(transactions)| && transactions == InsertAt(old(transactions), k, tx.txHash)
      ensures ours ==> Caches(balance, balance) == Replay(Env(allTx, allAddrs, blockHeight, now), Listed())
      ensures !ours ==>
        transactions == old(transactions) && Caches(balance, balance) == old(Caches(balance, balance))
    {
      hide Replay, Acyclic, Sorted, Involves, InsertAt, ParentsFirst, ChildrenAbove, Compare;
      k := 0;
      ghost var was, list := allTx, transactions;
      Learned(was, list, tx, rank);
      allTx := allTx[tx.txHash := tx];
      MoreKeepsInvolved(was, allTx, allAddrs, allAddrs);
      if ours {
        ComesToInvolve(was, allTx, allAddrs, tx);
        k := InsertTx(tx, rank);
        InsertedIn(list, k, tx.txHash);
        UpdateBalance(now);
      }
    }

    // Both chains are extended after a transaction was registered, with the gap limits 10 and 5.
    method TopUpChains(movedEx: bool, movedIn: bool, deriveEx: nat -> Option<Address>, deriveIn: nat -> Option<Address>,
                       ghost rank: Hash -> nat)
      requires Ordered(rank) && AddrsMatch() && Injective(deriveEx) && Injective(deriveIn)
      requires Derived(externalChain, deriveEx) && Derived(internalChain, deriveIn)
      modifies this`internalChain, this`externalChain, this`allAddrs
      ensures Ordered(rank) && AddrsMatch() && old(allAddrs) <= allAddrs
      ensures Extended(old(externalChain), externalChain, deriveEx)
      ensures Extended(old(internalChain), internalChain, deriveIn)
      ensures Stocked(old(externalChain), externalChain, usedAddrs, deriveEx, 10)
      ensures Stocked(old(internalChain), internalChain, usedAddrs, deriveIn, 5)
    {
      hide Acyclic, Sorted, Involves, Derived, Injective, FirstUnused;
      ghost var first;
      var unused;
      unused, first := UnusedAddrs(10, false, false, movedEx, deriveEx);
      assert Stocked(old(externalChain), externalChain, usedAddrs, deriveEx, 10);
      unused, first := UnusedAddrs(5, true, false, movedIn, deriveIn);
      MoreKeepsInvolved(allTx, allTx, old(allAddrs), allAddrs);
    }

    method AddAll(chain: seq<Address>, start: nat)
      requires start <= |chain|
      modifies this`allAddrs
      ensures forall a :: a in allAddrs <==> a in old(allAddrs) || a in chain[start..]
    {
      for i := start to |chain|
        invariant forall a :: a in allAddrs <==> a in old(allAddrs) || a in chain[start..i]
      {
        assert chain[start..i + 1] == chain[start..i] + [chain[i]];
        allAddrs := allAddrs + {chain[i]};
      }
    }

    // allAddrs is the union of both chains.
    ghost predicate AddrsMatch()
      reads this`allAddrs, this`internalChain, this`externalChain
    {
      allAddrs == (set a | a in internalChain) + (set a | a in externalChain)
    }
  }

  lemma NothingToSweep(env: Env, u0: seq<UTXO>, spent: set<UTXO>)
    ensures u0[..|u0|] == u0 == u0 + [] && u0[..0] == [] && Total(env, []) == 0 && Unspent([], spent) == []
    ensures Unspent(u0, spent) == Unspent(u0, spent) + []
  {
  }

  // Entry j - 1 is looked at, with rest left behind it.
  lemma SweepStep(env: Env, u0: seq<UTXO>, spent: set<UTXO>, j: nat, rest: seq<UTXO>)
    requires 0 < j <= |u0|
    ensures
      var u, more := u0[j - 1], [u0[j - 1]] + rest;
      && u0[..j] + rest == u0[..j - 1] + more
      && Unspent(u0[..j], spent) + rest == Unspent(u0[..j - 1], spent) + (if u in spent then rest else more)
      && Total(env, u0[..j]) == Total(env, u0[..j - 1]) + Amount(env, u)
      && Total(env, more) == Amount(env, u) + Total(env, rest)
  {
    assert u0[..j][..j - 1] == u0[..j - 1];
    TotalConcat(env, [u0[j - 1]], rest);
    assert [u0[j - 1]][..0] == [] && Total(env, []) == 0;
    hide Amount;
  }

  /** Raising everything above a height to TX_UNCONFIRMED leaves the list in order. */
  lemma UnconfirmedOrder(was: map<Hash, Tx>, now: map<Hash, Tx>, list: seq<Hash>, height: nat, rank: Hash -> nat)
    requires was.Keys == now.Keys && Acyclic(was, rank) && forall h :: h in list ==> h in was
    requires Sorted(was, list) && forall h :: h in was ==> was[h].blockHeight <= TX_UNCONFIRMED
    requires forall h :: h in now ==> now[h] == Reset(was[h], h in list && was[h].blockHeight > height)
    ensures Sorted(now, list) && Acyclic(now, rank)
  {
  }

  lemma ListedOnce(list: seq<Hash>)
    ensures Distinct(list) <==> forall j, k :: 0 <= j < k < |list| ==> list[j] != list[k]
  {
  }

  lemma InsertedIn(list: seq<Hash>, k: nat, h: Hash)
    requires k <= |list|
    ensures forall g :: g in InsertAt(list, k, h) <==> g in list || g == h
  {
  }

  lemma SameMembers(a: seq<Hash>, b: seq<Hash>)
    requires multiset(a) == multiset(b)
    ensures forall g :: g in a <==> g in b
  {
    assert forall g :: g in a <==> g in multiset(a);
    assert forall g :: g in b <==> g in multiset(b);
  }

  // g is known with another height or time.
  predicate Outdated(allTx: map<Hash, Tx>, g: Hash, height: nat, timestamp: nat) {
    g in allTx && !(allTx[g].blockHeight == height && allTx[g].timestamp == timestamp)
  }

  // An update gives g of the wallet its new height and time.
  ghost predicate Changes(allTx: map<Hash, Tx>, addrs: set<Address>, g: Hash, height: nat, timestamp: nat) {
    Outdated(allTx, g, height, timestamp) && Involves(allTx, addrs, allTx[g])
  }

  // An update forgets g, which is not the wallet's and is confirmed.
  ghost predicate Forgets(allTx: map<Hash, Tx>, addrs: set<Address>, g: Hash, height: nat, timestamp: nat) {
    Outdated(allTx, g, height, timestamp) && !Involves(allTx, addrs, allTx[g]) && height != TX_UNCONFIRMED
  }

  /** What an update of the named transactions makes of the known ones: the named ones have the new height and time, and
      exactly the named ones that the wallet has no part in are forgotten. */
  ghost predicate Updated(was: map<Hash, Tx>, now: map<Hash, Tx>, addrs: set<Address>, named: seq<Hash>, height: nat,
                          timestamp: nat)
  {
    && (forall g :: g in now ==> g in was && now[g] == Dated(was[g], g in named, height, timestamp))
    && (forall g :: g in was ==> (g in now <==> !(g in named && Forgets(was, addrs, g, height, timestamp))))
    && (forall g :: g in now ==> (Involves(now, addrs, now[g]) <==> Involves(was, addrs, was[g])))
  }

  lemma NothingUpdated(allTx: map<Hash, Tx>, addrs: set<Address>, height: nat, timestamp: nat)
    ensures Updated(allTx, allTx, addrs, [], height, timestamp)
  {
  }

  lemma UpdatedOne(was: map<Hash, Tx>, now: map<Hash, Tx>, addrs: set<Address>, h: Hash, height: nat, timestamp: nat)
    requires now == if !Outdated(was, h, height, timestamp) then was
                    else var dated := was[h := Dated(was[h], true, height, timestamp)];
                         if Involves(was, addrs, was[h]) || height == TX_UNCONFIRMED then dated else dated - {h}
    ensures Updated(was, now, addrs, [h], height, timestamp)
  {
    hide Involves;
    if Outdated(was, h, height, timestamp) {
      var dated := was[h := Dated(was[h], true, height, timestamp)];
      HeightsDoNotInvolve(was, dated, addrs);
      if !Involves(was, addrs, was[h]) { ForgetKeepsInvolved(dated, addrs, h); }
    }
  }

  /** The known transactions that an update forgets are the named ones that get a height, had another height or time,
      and neither pay to nor spend from an address of the wallet; the others keep all but height and time. */
  lemma ForgottenExactly(was: map<Hash, Tx>, now: map<Hash, Tx>, addrs: set<Address>, named: seq<Hash>, height: nat,
                         timestamp: nat, g: Hash)
    requires Updated(was, now, addrs, named, height, timestamp) && g in was
    ensures g !in now
       <==> && g in named && height != 0x7fff_ffff
            && (was[g].blockHeight != height || was[g].timestamp != timestamp)
            && (forall o :: o in was[g].outputs ==> o.address !in addrs)
            && (forall i :: i in was[g].inputs ==> !SpendsFrom(was, addrs, i.outpoint))
    ensures g in now ==>
              now[g] == if g in named then was[g].(blockHeight := height, timestamp := timestamp) else was[g]
  {
    hide SpendsFrom;
  }

  lemma UpdatedMore(was: map<Hash, Tx>, mid: map<Hash, Tx>, now: map<Hash, Tx>, addrs: set<Address>, named: seq<Hash>,
                    h: Hash, height: nat, timestamp: nat)
    requires Updated(was, mid, addrs, named, height, timestamp) && Updated(mid, now, addrs, [h], height, timestamp)
    ensures Updated(was, now, addrs, named + [h], height, timestamp)
    ensures h in named ==> !Changes(mid, addrs, h, height, timestamp)
    ensures h !in named ==> (Changes(mid, addrs, h, height, timestamp) <==> Changes(was, addrs, h, height, timestamp))
  {
    hide Involves;
  }

  lemma NotListed(was: map<Hash, Tx>, now: map<Hash, Tx>, list: seq<Hash>, h: Hash)
    requires (forall g :: g in list ==> g in was && g in now) && Sorted(was, list)
    requires (forall j :: 0 <= j < |list| ==> list[j] != h) && forall g :: g in list && g != h ==> now[g] == was[g]
    ensures Sorted(now, list)
  {
  }

  lemma DatedAcyclic(was: map<Hash, Tx>, now: map<Hash, Tx>, rank: Hash -> nat)
    requires Acyclic(was, rank) && was.Keys == now.Keys
    requires forall h :: h in was ==> now[h].inputs == was[h].inputs && now[h].txHash == was[h].txHash
    ensures Acyclic(now, rank)
  {
  }

  lemma Forgotten(allTx: map<Hash, Tx>, list: seq<Hash>, h: Hash, rank: Hash -> nat)
    requires Acyclic(allTx, rank) && h !in list && (forall g :: g in list ==> g in allTx) && Sorted(allTx, list)
    ensures Acyclic(allTx - {h}, rank) && Sorted(allTx - {h}, list)
  {
  }

  lemma NothingBelowNothing(allTx: map<Hash, Tx>, list: seq<Hash>)
    requires forall f :: f in list ==> f in allTx
    ensures Filter(list, Descendants(allTx, list, {})) == list
  {
    FilterNothing(list, Descendants(allTx, list, {}));
  }

  lemma DependantBelow(allTx: map<Hash, Tx>, list: seq<Hash>, h: Hash, c: Hash, rank: Hash -> nat)
    requires Acyclic(allTx, rank) && h in allTx && forall f :: f in list ==> f in allTx
    requires Depends(allTx, list, h, c)
    ensures c in allTx && rank(h) < rank(c)
  {
  }

  lemma FilterShorter(allTx: map<Hash, Tx>, list: seq<Hash>, hs: set<Hash>, c: Hash)
    requires (forall h :: h in hs ==> h in allTx) && forall f :: f in list ==> f in allTx
    requires c in hs && c in list
    ensures |Filter(list, Descendants(allTx, list, hs))| < |list|
  {
    assert Below(allTx, list, c, c, 0);
    FilterExactly(list, Descendants(allTx, list, hs));
  }

  // ---------- address chains ----------

  ghost predicate Injective(derive: nat -> Option<Address>) {
    forall j: nat, k: nat :: derive(j).Some? && derive(j) == derive(k) ==> j == k
  }

  ghost predicate Derived(chain: seq<Address>, derive: nat -> Option<Address>) {
    forall k: nat :: k < |chain| ==> derive(k) == Some(chain[k])
  }

  ghost predicate Extended(was: seq<Address>, chain: seq<Address>, derive: nat -> Option<Address>) {
    was <= chain && Derived(chain, derive)
  }

  // Position i comes directly after the last used address.
  ghost predicate FirstUnused(chain: seq<Address>, used: set<Address>, i: nat) {
    && i <= |chain| && (i > 0 ==> chain[i - 1] in used)
    && forall k :: i <= k < |chain| ==> chain[k] !in used
  }

  // At least gap addresses follow the last used one, unless no further one could be derived; at most gap follow it if
  // the chain was extended for them.
  ghost predicate Stocked(was: seq<Address>, chain: seq<Address>, used: set<Address>, derive: nat -> Option<Address>,
                          gap: nat)
  {
    exists i: nat :: FirstUnused(chain, used, i) && (|chain| == |was| || |chain| <= i + gap)
                     && (i + gap <= |chain| || derive(|chain|).None?)
  }

  // The used addresses that the chain has not reached.
  ghost function Ahead(used: set<Address>, chain: seq<Address>): set<Address> { set a | a in used && a !in chain }

  lemma FreshAddress(used: set<Address>, chain: seq<Address>, derive: nat -> Option<Address>)
    requires Injective(derive) && Derived(chain, derive) && derive(|chain|).Some?
    ensures var a := derive(|chain|).value;
      && a !in chain
      && (if a in used then Ahead(used, chain + [a]) < Ahead(used, chain)
          else Ahead(used, chain + [a]) == Ahead(used, chain))
  {
    var a := derive(|chain|).value;
    assert forall k: nat | k < |chain| :: derive(k) == Some(chain[k]) && derive(k) != derive(|chain|);
    if a in used {
      assert a in Ahead(used, chain) && a !in Ahead(used, chain + [a]);
    }
  }

  lemma Learned(allTx: map<Hash, Tx>, list: seq<Hash>, tx: Tx, rank: Hash -> nat)
    requires Acyclic(allTx, rank) && tx.txHash !in allTx
    requires (forall g :: g in list ==> g in allTx) && Sorted(allTx, list)
    requires forall i :: i in tx.inputs ==> rank(i.outpoint.hash) < rank(tx.txHash)
    ensures Acyclic(allTx[tx.txHash := tx], rank) && Sorted(allTx[tx.txHash := tx], list)
  {
  }

  lemma ComesToInvolve(was: map<Hash, Tx>, allTx: map<Hash, Tx>, addrs: set<Address>, tx: Tx)
    requires Involves(was, addrs, tx) && tx.txHash !in was && allTx == was[tx.txHash := tx]
    ensures Involves(allTx, addrs, tx)
  {
  }
}
