/** What the ledger replay of BRWallet.c means: closed forms for its caches, no double spend among the accepted
    transactions, the balance history, and independence of list order for confirmed transactions. */
module LedgerLaws {
  import opened Ledger
  import opened Prelude

  // How the replay classifies the k-th listed transaction.
  function StatusAt(env: Env, txs: seq<Tx>, k: nat): Status
    requires k < |txs|
  {
    StatusOf(env, Replay(env, txs[..k]), txs[k])
  }

  lemma StatusOfPrefix(env: Env, txs: seq<Tx>, m: nat)
    requires m <= |txs|
    ensures forall k :: 0 <= k < m ==> StatusAt(env, txs[..m], k) == StatusAt(env, txs, k)
  {
    forall k | 0 <= k < m
      ensures StatusAt(env, txs[..m], k) == StatusAt(env, txs, k)
    {
      assert txs[..m][..k] == txs[..k];
    }
  }

  // ---------- the spent, invalid and pending sets ----------

  ghost predicate SpendsAt(env: Env, txs: seq<Tx>, k: int, u: UTXO) {
    0 <= k < |txs| && StatusAt(env, txs, k) != Invalid && u in Outpoints(txs[k])
  }

  ghost predicate MarkedAt(env: Env, txs: seq<Tx>, k: int, h: Hash, st: Status) {
    0 <= k < |txs| && StatusAt(env, txs, k) == st && txs[k].txHash == h
  }

  lemma SetsStep(env: Env, txs: seq<Tx>, m: nat)
    requires m + 1 == |txs|
    ensures var s, t, st := Replay(env, txs[..m]), Replay(env, txs), StatusAt(env, txs, m);
      && t.spent == s.spent + (if st != Invalid then Outpoints(txs[m]) else {})
      && t.invalid == s.invalid + (if st == Invalid then {txs[m].txHash} else {})
      && t.pending == s.pending + (if st == Pending then {txs[m].txHash} else {})
  {
  }

  /** spentOutputs holds exactly the inputs of the listed transactions not found invalid. */
  lemma {:induction false} SpentClosedForm(env: Env, txs: seq<Tx>, u: UTXO)
    ensures u in Replay(env, txs).spent <==> exists k :: SpendsAt(env, txs, k, u)
  {
    hide StatusAt, Replay;
    if txs == [] {
      ReplayNothing(env);
    } else {
      var m := |txs| - 1;
      SpentClosedForm(env, txs[..m], u);
      StatusOfPrefix(env, txs, m);
      SetsStep(env, txs, m);
      if k :| SpendsAt(env, txs[..m], k, u) { assert SpendsAt(env, txs, k, u); }
      if StatusAt(env, txs, m) != Invalid && u in Outpoints(txs[m]) { assert SpendsAt(env, txs, m, u); }
      if k :| SpendsAt(env, txs, k, u) { assert k < m ==> SpendsAt(env, txs[..m], k, u); }
    }
  }

  /** invalidTx and pendingTx hold exactly the transactions so classified. */
  lemma {:induction false} MarkedClosedForm(env: Env, txs: seq<Tx>, h: Hash, st: Status)
    requires st != Applied
    ensures (if st == Invalid then h in Replay(env, txs).invalid else h in Replay(env, txs).pending)
       <==> exists k :: MarkedAt(env, txs, k, h, st)
  {
    hide StatusAt, Replay;
    if txs == [] {
      ReplayNothing(env);
    } else {
      var m := |txs| - 1;
      MarkedClosedForm(env, txs[..m], h, st);
      StatusOfPrefix(env, txs, m);
      SetsStep(env, txs, m);
      if k :| MarkedAt(env, txs[..m], k, h, st) { assert MarkedAt(env, txs, k, h, st); }
      if StatusAt(env, txs, m) == st && txs[m].txHash == h { assert MarkedAt(env, txs, m, h, st); }
      if k :| MarkedAt(env, txs, k, h, st) { assert k < m ==> MarkedAt(env, txs[..m], k, h, st); }
    }
  }

  ghost predicate UsesAt(env: Env, txs: seq<Tx>, k: int, a: Address) {
    0 <= k < |txs| && StatusAt(env, txs, k) == Applied && exists o :: o in txs[k].outputs && o.address == a != ""
  }

  /** usedAddrs holds exactly the addresses that applied transactions pay to, the wallet's own or not. */
  lemma {:induction false} UsedClosedForm(env: Env, txs: seq<Tx>, a: Address)
    ensures a in Replay(env, txs).used <==> exists k :: UsesAt(env, txs, k, a)
  {
    hide StatusAt, Replay;
    if txs == [] {
      ReplayNothing(env);
    } else {
      var m := |txs| - 1;
      UsedClosedForm(env, txs[..m], a);
      StatusOfPrefix(env, txs, m);
      UsedStep(env, txs, m, a);
      if k :| UsesAt(env, txs[..m], k, a) { assert UsesAt(env, txs, k, a); }
      if k :| UsesAt(env, txs, k, a) { assert k < m ==> UsesAt(env, txs[..m], k, a); }
    }
  }

  lemma UsedStep(env: Env, txs: seq<Tx>, m: nat, a: Address)
    requires m + 1 == |txs|
    ensures a in Replay(env, txs).used <==> a in Replay(env, txs[..m]).used || UsesAt(env, txs, m, a)
  {
    hide Unspent, Total, NewUtxos;
    if o :| o in txs[m].outputs && o.address == a != "" {
      var j :| 0 <= j < |txs[m].outputs| && txs[m].outputs[j] == o;
    }
  }

  // ---------- which transactions are invalid ----------

  // The k-th transaction loses to the earlier j-th: it double-spends it, or depends on it and it is invalid.
  ghost predicate LosesTo(env: Env, txs: seq<Tx>, j: int, k: int) {
    && 0 <= j < k < |txs|
    && if StatusAt(env, txs, j) == Invalid then exists i :: i in txs[k].inputs && i.outpoint.hash == txs[j].txHash
       else Outpoints(txs[j]) * Outpoints(txs[k]) != {}
  }

  /** A listed transaction is invalid exactly if it is unconfirmed and an earlier listed one beats it. */
  lemma InvalidExactly(env: Env, txs: seq<Tx>, k: nat)
    requires k < |txs|
    ensures StatusAt(env, txs, k) == Invalid
       <==> txs[k].blockHeight == TX_UNCONFIRMED && exists j :: LosesTo(env, txs, j, k)
  {
    hide Replay;
    var s := Replay(env, txs[..k]);
    StatusOfPrefix(env, txs, k);
    if i :| i in txs[k].inputs && BadInput(s, i) {
      if i.outpoint in s.spent {
        SpentClosedForm(env, txs[..k], i.outpoint);
        var j :| SpendsAt(env, txs[..k], j, i.outpoint);
        assert i.outpoint in Outpoints(txs[j]) * Outpoints(txs[k]);
        assert LosesTo(env, txs, j, k);
      } else {
        MarkedClosedForm(env, txs[..k], i.outpoint.hash, Invalid);
        var j :| MarkedAt(env, txs[..k], j, i.outpoint.hash, Invalid);
        assert LosesTo(env, txs, j, k);
      }
    }
    if j :| LosesTo(env, txs, j, k) {
      if StatusAt(env, txs, j) == Invalid {
        var i :| i in txs[k].inputs && i.outpoint.hash == txs[j].txHash;
        MarkedClosedForm(env, txs[..k], i.outpoint.hash, Invalid);
        assert MarkedAt(env, txs[..k], j, i.outpoint.hash, Invalid);
        assert BadInput(s, i);
      } else {
        var u :| u in Outpoints(txs[j]) * Outpoints(txs[k]);
        var i :| i in txs[k].inputs && i.outpoint == u;
        SpentClosedForm(env, txs[..k], u);
        assert SpendsAt(env, txs[..k], j, u);
        assert BadInput(s, i);
      }
    }
  }

  // Input i of the k-th transaction lets it be replaced, is time-locked beyond the next block and now, or spends an
  // earlier pending transaction.
  ghost predicate Delays(env: Env, txs: seq<Tx>, k: nat, i: TxInput)
    requires k < |txs|
  {
    || i.sequence <= 0xffff_fffd
    || (i.sequence < 0xffff_ffff && env.height + 1 < txs[k].lockTime < 500000000)
    || (i.sequence < 0xffff_ffff && env.now < txs[k].lockTime)
    || exists j :: DependsOn(env, txs, j, k, i)
  }

  ghost predicate DependsOn(env: Env, txs: seq<Tx>, j: int, k: nat, i: TxInput) {
    0 <= j < k <= |txs| && StatusAt(env, txs, j) == Pending && i.outpoint.hash == txs[j].txHash
  }

  /** A listed transaction is pending exactly if it is unconfirmed and not invalid, and it is too large, has an output
      that is dust, or has an input that delays it. */
  lemma PendingExactly(env: Env, txs: seq<Tx>, k: nat)
    requires k < |txs|
    ensures StatusAt(env, txs, k) == Pending
       <==> && txs[k].blockHeight == 0x7fff_ffff && StatusAt(env, txs, k) != Invalid
            && (|| txs[k].size > 100000
                || (exists o :: o in txs[k].outputs && o.amount < 546)
                || exists i :: i in txs[k].inputs && Delays(env, txs, k, i))
  {
    hide Replay;
    var s := Replay(env, txs[..k]);
    StatusOfPrefix(env, txs, k);
    forall i | i in txs[k].inputs
      ensures HoldsBack(env, s, txs[k], i) <==> Delays(env, txs, k, i)
    {
      MarkedClosedForm(env, txs[..k], i.outpoint.hash, Pending);
      if j :| MarkedAt(env, txs[..k], j, i.outpoint.hash, Pending) { assert DependsOn(env, txs, j, k, i); }
      if j :| DependsOn(env, txs, j, k, i) { assert MarkedAt(env, txs[..k], j, i.outpoint.hash, Pending); }
    }
  }

  /** No accepted unconfirmed transaction spends an output that an earlier accepted one spends, or depends on an
      invalid one. */
  lemma NoDoubleSpend(env: Env, txs: seq<Tx>, j: nat, k: nat)
    requires j < k < |txs| && txs[k].blockHeight == TX_UNCONFIRMED && StatusAt(env, txs, k) != Invalid
    ensures StatusAt(env, txs, j) != Invalid ==> forall u :: u in Outpoints(txs[j]) ==> u !in Outpoints(txs[k])
    ensures StatusAt(env, txs, j) == Invalid ==> forall i :: i in txs[k].inputs ==> i.outpoint.hash != txs[j].txHash
  {
    InvalidExactly(env, txs, k);
    assert !LosesTo(env, txs, j, k);
    var a, b := Outpoints(txs[j]), Outpoints(txs[k]);
    if StatusAt(env, txs, j) != Invalid {
      assert a * b == {};
      assert forall u :: u in a && u in b ==> u in a * b;
    }
  }

  // ---------- the UTXO list ----------

  // The k-th transaction is applied and u is one of its outputs that pay the wallet.
  ghost predicate CreatesAt(env: Env, txs: seq<Tx>, k: int, u: UTXO) {
    && 0 <= k < |txs| && StatusAt(env, txs, k) == Applied
    && u.hash == txs[k].txHash && u.n < |txs[k].outputs| && Owned(env, txs[k].outputs[u.n])
  }

  // How many transactions are listed up to and including the last applied one.
  function LastApplied(env: Env, txs: seq<Tx>): (n: nat)
    ensures n <= |txs|
  {
    if txs == [] then 0
    else if StatusAt(env, txs, |txs| - 1) == Applied then |txs|
    else LastApplied(env, txs[..|txs| - 1])
  }

  function SpentAsOfLastApplied(env: Env, txs: seq<Tx>): set<UTXO> {
    Replay(env, txs[..LastApplied(env, txs)]).spent
  }

  lemma UtxosStep(env: Env, txs: seq<Tx>, m: nat, u: UTXO)
    requires m + 1 == |txs|
    ensures var s, t := Replay(env, txs[..m]), Replay(env, txs);
            if StatusAt(env, txs, m) == Applied
            then u in t.utxos <==> (u in s.utxos || u in NewUtxos(env, txs[m], |txs[m].outputs|)) && u !in t.spent
            else t.utxos == s.utxos
  {
    var s := Replay(env, txs[..m]);
    UnspentExactly(s.utxos + NewUtxos(env, txs[m], |txs[m].outputs|), s.spent + Outpoints(txs[m]));
  }

  lemma {:induction false} SpentGrows(env: Env, txs: seq<Tx>, n: nat)
    requires n <= |txs|
    ensures Replay(env, txs[..n]).spent <= Replay(env, txs).spent
  {
    if n < |txs| {
      var m := |txs| - 1;
      assert txs[..m][..n] == txs[..n];
      SpentGrows(env, txs[..m], n);
      SetsStep(env, txs, m);
    } else {
      assert txs[..n] == txs;
    }
  }

  /** After the replay u is listed as unspent exactly if it is a wallet output of an applied transaction that was
      not in the spent set when the last applied transaction was processed. */
  lemma {:induction false} UtxoClosedForm(env: Env, txs: seq<Tx>, u: UTXO)
    ensures u in Replay(env, txs).utxos
       <==> (exists k :: CreatesAt(env, txs, k, u)) && u !in SpentAsOfLastApplied(env, txs)
  {
    hide Replay, StatusAt;
    if txs == [] {
      ReplayNothing(env);
    } else {
      var m := |txs| - 1;
      var n := LastApplied(env, txs[..m]);
      UtxoClosedForm(env, txs[..m], u);
      UtxosStep(env, txs, m, u);
      StatusOfPrefix(env, txs, m);
      NewUtxosExactly(env, txs[m], |txs[m].outputs|);
      assert txs[..m][..n] == txs[..n] && txs[..|txs|] == txs;
      SpentGrows(env, txs, n);
      if k :| CreatesAt(env, txs[..m], k, u) { assert CreatesAt(env, txs, k, u); }
      if u in NewUtxos(env, txs[m], |txs[m].outputs|) && StatusAt(env, txs, m) == Applied {
        assert CreatesAt(env, txs, m, u);
      }
      if k :| CreatesAt(env, txs, k, u) { assert k < m ==> CreatesAt(env, txs[..m], k, u); }
    }
  }

  lemma {:induction false} UnspentDistinct(utxos: seq<UTXO>, spent: set<UTXO>)
    requires Distinct(utxos)
    ensures Distinct(Unspent(utxos, spent))
  {
    if utxos != [] {
      UnspentDistinct(utxos[..|utxos| - 1], spent);
      UnspentExactly(utxos[..|utxos| - 1], spent);
    }
  }

  lemma {:induction false} NewUtxosDistinct(env: Env, tx: Tx, k: nat)
    requires k <= |tx.outputs|
    ensures Distinct(NewUtxos(env, tx, k))
  {
    if k > 0 {
      NewUtxosDistinct(env, tx, k - 1);
      NewUtxosExactly(env, tx, k - 1);
    }
  }

  /** The UTXO list holds no outpoint twice. */
  lemma {:induction false} UtxosDistinct(env: Env, txs: seq<Tx>)
    requires Registered(env, txs)
    ensures Distinct(Replay(env, txs).utxos)
  {
    if txs != [] {
      var m := |txs| - 1;
      UtxosDistinct(env, txs[..m]);
      var s := Replay(env, txs[..m]);
      var new' := NewUtxos(env, txs[m], |txs[m].outputs|);
      NewUtxosDistinct(env, txs[m], |txs[m].outputs|);
      NewUtxosExactly(env, txs[m], |txs[m].outputs|);
      forall u | u in s.utxos
        ensures u !in new'
      {
        UtxoClosedForm(env, txs[..m], u);
        var k :| CreatesAt(env, txs[..m], k, u);
        assert u.hash == txs[k].txHash;
      }
      UnspentDistinct(s.utxos + new', s.spent + Outpoints(txs[m]));
    }
  }

  // ---------- balance, totals and history ----------

  // All the wallet was ever paid by the listed transactions.
  function PaidToWallet(env: Env, txs: seq<Tx>): nat {
    if txs == [] then 0 else
    var m := |txs| - 1;
    PaidToWallet(env, txs[..m]) + Total(env, NewUtxos(env, txs[m], |txs[m].outputs|))
  }

  lemma {:induction false} UnspentTotal(env: Env, utxos: seq<UTXO>, spent: set<UTXO>)
    ensures Total(env, Unspent(utxos, spent)) <= Total(env, utxos)
  {
    if utxos != [] {
      var m := |utxos| - 1;
      UnspentTotal(env, utxos[..m], spent);
      TotalConcat(env, Unspent(utxos[..m], spent), []);
      if utxos[m] !in spent {
        TotalConcat(env, Unspent(utxos[..m], spent), [utxos[m]]);
        TotalConcat(env, utxos[..m], [utxos[m]]);
        assert utxos == utxos[..m] + [utxos[m]];
      } else {
        assert Unspent(utxos, spent) == Unspent(utxos[..m], spent);
      }
    }
  }

  /** The balance is the sum of the UTXOs and the difference of the totals, and nothing the replay accumulates
      exceeds what the listed transactions paid the wallet: if that fits a machine word, no step wraps around. */
  lemma {:induction false} BalanceAndTotals(env: Env, txs: seq<Tx>)
    ensures var s := Replay(env, txs);
      && s.balance == Total(env, s.utxos)
      && s.balance == s.received - s.sent
      && s.balance <= s.received <= PaidToWallet(env, txs)
  {
    BalanceIsTotal(env, txs);
    if txs != [] {
      var m := |txs| - 1;
      BalanceAndTotals(env, txs[..m]);
      BalanceIsTotal(env, txs[..m]);
      var s := Replay(env, txs[..m]);
      var new' := NewUtxos(env, txs[m], |txs[m].outputs|);
      TotalConcat(env, s.utxos, new');
      UnspentTotal(env, s.utxos + new', s.spent + Outpoints(txs[m]));
    }
  }

  // By how much a history rises, and falls, in all.
  function Rises(hist: seq<nat>): nat {
    if hist == [] then 0
    else
      var m := |hist| - 1;
      var was := if m == 0 then 0 else hist[m - 1];
      Rises(hist[..m]) + if hist[m] > was then hist[m] - was else 0
  }

  function Falls(hist: seq<nat>): nat {
    if hist == [] then 0
    else
      var m := |hist| - 1;
      var was := if m == 0 then 0 else hist[m - 1];
      Falls(hist[..m]) + if hist[m] < was then was - hist[m] else 0
  }

  /** What was received in all is what the balance rose from transaction to transaction, and what was sent what it
      fell. */
  lemma {:induction false} TotalsAreMoves(env: Env, txs: seq<Tx>)
    ensures var s := Replay(env, txs);
      && s.received == Rises(s.hist) && s.sent == Falls(s.hist)
      && s.prev == s.balance == if txs == [] then 0 else s.hist[|txs| - 1]
  {
    hide Replay;
    if txs == [] {
      ReplayNothing(env);
    } else {
      hide Rises, Falls;
      var m := |txs| - 1;
      TotalsAreMoves(env, txs[..m]);
      TotalsStep(env, txs, m);
      MovesSnoc(Replay(env, txs[..m]).hist, Replay(env, txs).balance);
    }
  }

  lemma MovesSnoc(hist: seq<nat>, b: nat)
    ensures
      var was := if hist == [] then 0 else hist[|hist| - 1];
      && Rises(hist + [b]) == Rises(hist) + (if b > was then b - was else 0)
      && Falls(hist + [b]) == Falls(hist) + (if b < was then was - b else 0)
  {
    assert (hist + [b])[..|hist|] == hist;
  }

  lemma TotalsStep(env: Env, txs: seq<Tx>, m: nat)
    requires m + 1 == |txs| && Replay(env, txs[..m]).prev == Replay(env, txs[..m]).balance
    ensures
      var s, t := Replay(env, txs[..m]), Replay(env, txs);
      && t.hist == s.hist + [t.balance] && t.prev == t.balance
      && t.received == s.received + (if t.balance > s.balance then t.balance - s.balance else 0)
      && t.sent == s.sent + (if t.balance < s.balance then s.balance - t.balance else 0)
  {
    hide Unspent, Total, NewUtxos, StatusOf;
  }

  /** balanceHist records, for every listed transaction, the balance of the list that ends with it. */
  lemma {:induction false} HistoryIsPrefixBalance(env: Env, txs: seq<Tx>, k: nat)
    requires k < |txs|
    ensures Replay(env, txs).hist[k] == Replay(env, txs[..k + 1]).balance
  {
    var m := |txs| - 1;
    if k < m {
      HistoryIsPrefixBalance(env, txs[..m], k);
      assert txs[..m][..k + 1] == txs[..k + 1];
    } else {
      assert txs[..k + 1] == txs;
    }
  }

  // ---------- confirmed lists ----------

  ghost predicate AllConfirmed(txs: seq<Tx>) { forall k :: 0 <= k < |txs| ==> txs[k].blockHeight != TX_UNCONFIRMED }

  lemma ConfirmedUtxo(env: Env, txs: seq<Tx>, u: UTXO)
    requires AllConfirmed(txs)
    ensures u in Replay(env, txs).utxos
       <==> && (exists tx :: tx in txs && u.hash == tx.txHash && u.n < |tx.outputs| && Owned(env, tx.outputs[u.n]))
            && (forall tx :: tx in txs ==> u !in Outpoints(tx))
  {
    hide Replay;
    UtxoClosedForm(env, txs, u);
    SpentClosedForm(env, txs, u);
    assert txs[..|txs|] == txs && LastApplied(env, txs) == |txs|;
    if k :| CreatesAt(env, txs, k, u) { assert txs[k] in txs; }
    if tx :| tx in txs && u.hash == tx.txHash && u.n < |tx.outputs| && Owned(env, tx.outputs[u.n]) {
      var k :| 0 <= k < |txs| && txs[k] == tx;
      assert CreatesAt(env, txs, k, u);
    }
    if tx :| tx in txs && u in Outpoints(tx) {
      var k :| 0 <= k < |txs| && txs[k] == tx;
      assert SpendsAt(env, txs, k, u);
    }
  }

  lemma {:induction false} DistinctCount<T>(a: seq<T>, x: T)
    requires Distinct(a)
    ensures multiset(a)[x] == if x in a then 1 else 0
  {
    if a != [] {
      var m := |a| - 1;
      assert a == a[..m] + [a[m]];
      DistinctCount(a[..m], x);
    }
  }

  lemma TotalWithout(env: Env, b: seq<UTXO>, j: nat)
    requires j < |b|
    ensures Total(env, b) == Total(env, b[..j] + b[j + 1..]) + Amount(env, b[j])
    ensures multiset(b[..j] + b[j + 1..]) == multiset(b) - multiset{b[j]}
  {
    assert b == b[..j] + ([b[j]] + b[j + 1..]);
    assert [b[j]][..0] == [];
    TotalConcat(env, b[..j], b[j + 1..]);
    TotalConcat(env, b[..j], [b[j]] + b[j + 1..]);
    TotalConcat(env, [b[j]], b[j + 1..]);
  }

  lemma {:induction false} TotalOfPermutation(env: Env, a: seq<UTXO>, b: seq<UTXO>)
    requires multiset(a) == multiset(b)
    ensures Total(env, a) == Total(env, b)
  {
    hide Total;
    if a == [] {
      assert b == [] by { assert |multiset(b)| == 0; }
    } else {
      var j := IndexIn(b, a[0]);
      TotalWithout(env, a, 0);
      TotalWithout(env, b, j);
      var rest := a[..0] + a[1..];
      assert |rest| < |a|;
      TotalOfPermutation(env, rest, b[..j] + b[j + 1..]);
    }
  }

  lemma IndexIn<T>(b: seq<T>, x: T) returns (j: nat)
    requires x in multiset(b)
    ensures j < |b| && b[j] == x
  {
    assert x in b;
    j :| 0 <= j < |b| && b[j] == x;
  }

  /** Once everything is confirmed the UTXO set and the balance do not depend on the order of the list. */
  lemma ConfirmedOrderIrrelevant(env: Env, a: seq<Tx>, b: seq<Tx>)
    requires Registered(env, a) && Registered(env, b) && AllConfirmed(a) && multiset(a) == multiset(b)
    ensures forall u :: u in Replay(env, a).utxos <==> u in Replay(env, b).utxos
    ensures Replay(env, a).balance == Replay(env, b).balance
  {
    hide Replay;
    assert forall tx :: tx in a <==> tx in b by {
      forall tx
        ensures tx in a <==> tx in b
      {
        assert tx in a <==> tx in multiset(a);
        assert tx in b <==> tx in multiset(b);
      }
    }
    assert AllConfirmed(b) by {
      forall k | 0 <= k < |b|
        ensures b[k].blockHeight != TX_UNCONFIRMED
      {
        assert b[k] in a;
      }
    }
    forall u
      ensures u in Replay(env, a).utxos <==> u in Replay(env, b).utxos
    {
      ConfirmedUtxo(env, a, u);
      ConfirmedUtxo(env, b, u);
    }
    UtxosDistinct(env, a);
    UtxosDistinct(env, b);
    forall u
      ensures multiset(Replay(env, a).utxos)[u] == multiset(Replay(env, b).utxos)[u]
    {
      DistinctCount(Replay(env, a).utxos, u);
      DistinctCount(Replay(env, b).utxos, u);
    }
    TotalOfPermutation(env, Replay(env, a).utxos, Replay(env, b).utxos);
    BalanceIsTotal(env, a);
    BalanceIsTotal(env, b);
  }

  // ---------- addresses that the wallet learns of later ----------

  function With(env: Env, addrs: set<Address>): Env { env.(addrs := addrs) }

  // The states agree in everything that decides on the status of a transaction.
  predicate Alike(s: State, t: State) {
    s.spent == t.spent && s.invalid == t.invalid && s.pending == t.pending && s.used == t.used
  }

  /** The addresses of the wallet play no part in what is spent, invalid, pending or used. */
  lemma {:induction false} AddrsDecideNothing(env: Env, addrs: set<Address>, txs: seq<Tx>)
    ensures Alike(Replay(env, txs), Replay(With(env, addrs), txs))
    ensures LastApplied(env, txs) == LastApplied(With(env, addrs), txs)
    ensures forall k :: 0 <= k < |txs| ==> StatusAt(env, txs, k) == StatusAt(With(env, addrs), txs, k)
  {
    if txs != [] {
      var m := |txs| - 1;
      AddrsDecideNothing(env, addrs, txs[..m]);
      StatusOfPrefix(env, txs, m);
      StatusOfPrefix(With(env, addrs), txs, m);
      SameStatus(env, addrs, Replay(env, txs[..m]), Replay(With(env, addrs), txs[..m]), txs[m]);
      hide StatusOf;
    }
  }

  lemma SameStatus(env: Env, addrs: set<Address>, s: State, t: State, tx: Tx)
    requires Alike(s, t)
    ensures StatusOf(env, s, tx) == StatusOf(With(env, addrs), t, tx)
    ensures Alike(Step(env, s, tx), Step(With(env, addrs), t, tx))
  {
    assert forall i :: BadInput(s, i) == BadInput(t, i);
    assert forall i :: HoldsBack(env, s, tx, i) == HoldsBack(With(env, addrs), t, tx, i);
  }

  lemma {:induction false} NewUtxosSplit(env: Env, a: set<Address>, b: set<Address>, tx: Tx, k: nat)
    requires a !! b && k <= |tx.outputs|
    ensures multiset(NewUtxos(With(env, a + b), tx, k))
         == multiset(NewUtxos(With(env, a), tx, k)) + multiset(NewUtxos(With(env, b), tx, k))
  {
    if k > 0 { NewUtxosSplit(env, a, b, tx, k - 1); }
  }

  lemma {:induction false} UnspentCount(utxos: seq<UTXO>, spent: set<UTXO>, u: UTXO)
    ensures multiset(Unspent(utxos, spent))[u] == if u in spent then 0 else multiset(utxos)[u]
  {
    if utxos != [] {
      var m := |utxos| - 1;
      UnspentCount(utxos[..m], spent, u);
      assert utxos == utxos[..m] + [utxos[m]];
    }
  }

  lemma UnspentSplit(all: seq<UTXO>, x: seq<UTXO>, y: seq<UTXO>, spent: set<UTXO>)
    requires multiset(all) == multiset(x) + multiset(y)
    ensures multiset(Unspent(all, spent)) == multiset(Unspent(x, spent)) + multiset(Unspent(y, spent))
  {
    forall u: UTXO
      ensures multiset(Unspent(all, spent))[u] == multiset(Unspent(x, spent))[u] + multiset(Unspent(y, spent))[u]
    {
      UnspentCount(all, spent, u);
      UnspentCount(x, spent, u);
      UnspentCount(y, spent, u);
    }
  }

  lemma {:induction false} TotalIgnoresAddrs(env: Env, addrs: set<Address>, utxos: seq<UTXO>)
    ensures Total(With(env, addrs), utxos) == Total(env, utxos)
  {
    if utxos != [] { TotalIgnoresAddrs(env, addrs, utxos[..|utxos| - 1]); }
  }

  /** With two disjoint sets of addresses the wallet owns what it owns with the one and with the other. */
  lemma {:induction false} UtxosAdd(env: Env, a: set<Address>, b: set<Address>, txs: seq<Tx>)
    requires a !! b
    ensures multiset(Replay(With(env, a + b), txs).utxos)
         == multiset(Replay(With(env, a), txs).utxos) + multiset(Replay(With(env, b), txs).utxos)
  {
    if txs != [] {
      var m := |txs| - 1;
      var r, s, t := Replay(With(env, a + b), txs[..m]), Replay(With(env, a), txs[..m]), Replay(With(env, b), txs[..m]);
      UtxosAdd(env, a, b, txs[..m]);
      AddrsDecideNothing(With(env, a + b), a, txs[..m]);
      AddrsDecideNothing(With(env, a + b), b, txs[..m]);
      SameStatus(With(env, a + b), a, r, s, txs[m]);
      SameStatus(With(env, a + b), b, r, t, txs[m]);
      var n := |txs[m].outputs|;
      NewUtxosSplit(env, a, b, txs[m], n);
      UnspentSplit(r.utxos + NewUtxos(With(env, a + b), txs[m], n), s.utxos + NewUtxos(With(env, a), txs[m], n),
                   t.utxos + NewUtxos(With(env, b), txs[m], n), r.spent + Outpoints(txs[m]));
    }
  }

  lemma BalancesAdd(env: Env, a: set<Address>, b: set<Address>, txs: seq<Tx>)
    requires a !! b
    ensures Replay(With(env, a + b), txs).balance
         == Replay(With(env, a), txs).balance + Replay(With(env, b), txs).balance
  {
    var r, s, t := Replay(With(env, a + b), txs), Replay(With(env, a), txs), Replay(With(env, b), txs);
    UtxosAdd(env, a, b, txs);
    BalanceIsTotal(With(env, a + b), txs);
    BalanceIsTotal(With(env, a), txs);
    BalanceIsTotal(With(env, b), txs);
    hide Replay, Total;
    TotalIgnoresAddrs(env, a + b, r.utxos);
    TotalIgnoresAddrs(env, a, s.utxos);
    TotalIgnoresAddrs(env, b, t.utxos);
    TotalOfPermutation(env, r.utxos, s.utxos + t.utxos);
    TotalConcat(env, s.utxos, t.utxos);
  }

  // The k-th transaction is applied, and its output u pays one of the addresses without being spent in time.
  ghost predicate MissedAt(env: Env, addrs: set<Address>, txs: seq<Tx>, k: int, u: UTXO) {
    CreatesAt(With(env, addrs), txs, k, u) && u !in SpentAsOfLastApplied(env, txs)
  }

  /** What a replay misses that does not know some of the addresses yet: it has the same UTXOs as one that does exactly
      if no applied transaction pays a missing address an output that was not spent as of the last applied one.  The
      balances differ by what a wallet of the missing addresses alone would have. */
  ghost predicate Lags(env: Env, more: set<Address>, txs: seq<Tx>) {
    var s, t, gap := Replay(env, txs), Replay(With(env, more), txs), Replay(With(env, more - env.addrs), txs);
    && multiset(t.utxos) == multiset(s.utxos) + multiset(gap.utxos)
    && t.balance == s.balance + gap.balance
    && (forall u :: u in gap.utxos <==> exists k :: MissedAt(env, more - env.addrs, txs, k, u))
    && (multiset(s.utxos) == multiset(t.utxos) <==> !exists k, u :: MissedAt(env, more - env.addrs, txs, k, u))
  }

  lemma MissedExactly(env: Env, more: set<Address>, txs: seq<Tx>)
    requires env.addrs <= more
    ensures Lags(env, more, txs)
  {
    var new' := more - env.addrs;
    var gap := Replay(With(env, new'), txs);
    assert env.addrs + new' == more && With(env, env.addrs) == env;
    UtxosAdd(env, env.addrs, new', txs);
    BalancesAdd(env, env.addrs, new', txs);
    NoneAdded(Replay(env, txs).utxos, Replay(With(env, more), txs).utxos, gap.utxos);
    hide Replay, MissedAt, With;
    forall u
      ensures u in gap.utxos <==> exists k :: MissedAt(env, new', txs, k, u)
    {
      MissedIs(env, new', txs, u);
    }
    if gap.utxos != [] {
      var u := gap.utxos[0];
      MissedIs(env, new', txs, u);
      var k :| MissedAt(env, new', txs, k, u);
    }
    if k, u :| MissedAt(env, new', txs, k, u) { MissedIs(env, new', txs, u); }
  }

  lemma NoneAdded(s: seq<UTXO>, t: seq<UTXO>, gap: seq<UTXO>)
    requires multiset(t) == multiset(s) + multiset(gap)
    ensures multiset(s) == multiset(t) <==> gap == []
  {
    assert |multiset(t)| == |s| + |gap|;
  }

  lemma MissedIs(env: Env, addrs: set<Address>, txs: seq<Tx>, u: UTXO)
    ensures u in Replay(With(env, addrs), txs).utxos <==> exists k :: MissedAt(env, addrs, txs, k, u)
  {
    var n := LastApplied(env, txs);
    AddrsDecideNothing(env, addrs, txs);
    AddrsDecideNothing(env, addrs, txs[..n]);
    hide Replay, CreatesAt, LastApplied;
    UtxoClosedForm(With(env, addrs), txs, u);
    if k :| CreatesAt(With(env, addrs), txs, k, u) {
      assert u !in SpentAsOfLastApplied(env, txs) ==> MissedAt(env, addrs, txs, k, u);
    }
  }

  /** For example: a confirmed transaction that pays an address of the wallet and the one just past the end of its
      chain. Registering it generates that address, but the balance was computed before. */
  lemma NextAddressMissed(env: Env, more: set<Address>, tx: Tx, i: TxInput, o: TxOutput, next: TxOutput)
    requires tx.inputs == [i] && tx.outputs == [o, next] && tx.blockHeight == 100 && i.outpoint.hash != tx.txHash
    requires Owned(env, o) && next.address != "" && next.address !in env.addrs && env.addrs + {next.address} <= more
    requires tx.txHash in env.allTx && env.allTx[tx.txHash] == tx
    ensures Replay(env, [tx]).balance == o.amount
    ensures Replay(With(env, more), [tx]).balance == o.amount + next.amount
  {
    var new' := more - env.addrs;
    assert env.addrs + new' == more && With(env, env.addrs) == env;
    OneOutput(env, tx, i, 0);
    OneOutput(With(env, new'), tx, i, 1);
    BalancesAdd(env, env.addrs, new', [tx]);
  }

  lemma OneOutput(env: Env, tx: Tx, i: TxInput, j: nat)
    requires tx.inputs == [i] && |tx.outputs| == 2 && tx.blockHeight == 100 && i.outpoint.hash != tx.txHash && j < 2
    requires Owned(env, tx.outputs[j]) && !Owned(env, tx.outputs[1 - j])
    requires tx.txHash in env.allTx && env.allTx[tx.txHash] == tx
    ensures Replay(env, [tx]).balance == tx.outputs[j].amount
  {
    var u := UTXO(tx.txHash, j);
    hide Unspent, Total, Replay;
    assert NewUtxos(env, tx, 0) == [] && NewUtxos(env, tx, 1) == (if j == 0 then [u] else []);
    assert NewUtxos(env, tx, 2) == [u];
    hide NewUtxos;
    OneUtxo(env, tx, u, Outpoints(tx));
    ReplayNothing(env);
    ReplayOne(env, tx);
    assert EMPTY.utxos + [u] == [u] && EMPTY.spent + Outpoints(tx) == Outpoints(tx);
  }

  // ---------- pending transactions and the UTXO list ----------

  // The k-th transaction is pending, comes after the last applied one, and spends a wallet output of an applied one.
  ghost predicate LateSpend(env: Env, txs: seq<Tx>, k: int, u: UTXO) {
    && LastApplied(env, txs) <= k < |txs| && StatusAt(env, txs, k) == Pending && u in Outpoints(txs[k])
    && exists j :: CreatesAt(env, txs, j, u)
  }

  /** The UTXO list overlaps the spent set exactly if some pending transaction after the last applied one spends an
      output of an applied one: a pending transaction marks its inputs spent without the sweep. */
  lemma UtxosOverlapSpentExactly(env: Env, txs: seq<Tx>)
    ensures (exists u :: u in Replay(env, txs).utxos && u in Replay(env, txs).spent)
       <==> (exists k, u :: LateSpend(env, txs, k, u))
  {
    hide Replay;
    var n := LastApplied(env, txs);
    var pre := txs[..n];
    StatusOfPrefix(env, txs, n);
    if u :| u in Replay(env, txs).utxos && u in Replay(env, txs).spent {
      UtxoClosedForm(env, txs, u);
      SpentClosedForm(env, txs, u);
      SpentClosedForm(env, txs[..n], u);
      AfterLastApplied(env, txs);
      var k :| SpendsAt(env, txs, k, u);
      assert k < n ==> SpendsAt(env, pre, k, u);
      assert LateSpend(env, txs, k, u);
    }
    if k, u :| LateSpend(env, txs, k, u) {
      UtxoClosedForm(env, txs, u);
      SpentClosedForm(env, txs, u);
      SpentClosedForm(env, txs[..n], u);
      assert SpendsAt(env, txs, k, u);
      if j :| SpendsAt(env, txs[..n], j, u) {
        LateIsUnconfirmed(env, txs, k);
        NoDoubleSpend(env, txs, j, k);
      }
      assert u in Replay(env, txs).utxos && u in Replay(env, txs).spent;
    }
  }

  lemma {:induction false} AfterLastApplied(env: Env, txs: seq<Tx>)
    ensures forall k :: LastApplied(env, txs) <= k < |txs| ==> StatusAt(env, txs, k) != Applied
  {
    if txs != [] && StatusAt(env, txs, |txs| - 1) != Applied {
      AfterLastApplied(env, txs[..|txs| - 1]);
      StatusOfPrefix(env, txs, |txs| - 1);
    }
  }

  lemma LateIsUnconfirmed(env: Env, txs: seq<Tx>, k: nat)
    requires k < |txs| && StatusAt(env, txs, k) == Pending
    ensures txs[k].blockHeight == TX_UNCONFIRMED
  {
  }

  /** For example: a confirmed payment whose only output is then spent by a replaceable transaction.  The wallet
      still lists that output as unspent and counts it in its balance. */
  lemma PendingSpendStaysListed(env: Env, receive: Tx, rbf: Tx, i: TxInput, o: TxOutput, u: UTXO)
    requires receive.inputs == [i] && i.outpoint.hash != receive.txHash
    requires receive.outputs == [o] && Owned(env, o) && receive.blockHeight == 100
    requires u == UTXO(receive.txHash, 0) && receive.txHash in env.allTx && env.allTx[receive.txHash] == receive
    requires rbf.inputs == [TxInput(u, 0)] && rbf.blockHeight == TX_UNCONFIRMED
    ensures var s := Replay(env, [receive, rbf]);
            s.utxos == [u] && u in s.spent && s.pending == {rbf.txHash} && s.balance == o.amount
  {
    var s := AfterReceive(env, receive, i, o, u);
    assert [receive, rbf][..1] == [receive];
    assert rbf.inputs[0] in rbf.inputs && HoldsBack(env, s, rbf, rbf.inputs[0]);
    assert StatusOf(env, s, rbf) == Pending;
    assert rbf.inputs[0].outpoint in Outpoints(rbf);
  }

  lemma AfterReceive(env: Env, receive: Tx, i: TxInput, o: TxOutput, u: UTXO) returns (s: State)
    requires receive.inputs == [i] && i.outpoint.hash != receive.txHash
    requires receive.outputs == [o] && Owned(env, o) && receive.blockHeight == 100
    requires u == UTXO(receive.txHash, 0) && receive.txHash in env.allTx && env.allTx[receive.txHash] == receive
    ensures s == Replay(env, [receive])
    ensures s.utxos == [u] && s.spent == {i.outpoint} && s.invalid == {} && s.pending == {} && s.balance == o.amount
  {
    hide Unspent, Total, NewUtxos, Replay;
    OneUtxo(env, receive, u, {i.outpoint});
    assert EMPTY.utxos + [u] == [u];
    assert receive.inputs[0].outpoint in Outpoints(receive);
    assert EMPTY.spent + Outpoints(receive) == {i.outpoint};
    ReplayNothing(env);
    ReplayOne(env, receive);
    s := Replay(env, [receive]);
  }

  lemma OneUtxo(env: Env, tx: Tx, u: UTXO, spent: set<UTXO>)
    requires u !in spent
    ensures Unspent([u], spent) == [u]
    ensures Total(env, [u]) == Amount(env, u)
    ensures |tx.outputs| == 1 && Owned(env, tx.outputs[0]) && u == UTXO(tx.txHash, 0) ==> NewUtxos(env, tx, 1) == [u]
  {
  }

  lemma ReplayOne(env: Env, tx: Tx)
    ensures Replay(env, [tx]) == Step(env, Replay(env, []), tx)
  {
  }
}
