/** The wallet ledger of BRWallet.c: the replay of the transaction list that rebuilds the UTXO list, the spent,
    invalid and pending sets, the balance and its history.  This module holds the data model and the replay as a
    function; Wallet.dfy proves the in-place loops against it, LedgerLaws.dfy what the replay means. */
module Ledger {

  const TX_UNCONFIRMED: nat := 0x7fff_ffff      // block height of an unconfirmed transaction
  const TX_MAX_SIZE: nat := 100000
  const TX_MIN_OUTPUT_AMOUNT: nat := 1000 * 3 * (34 + 148) / 1000
  const TX_MAX_LOCK_HEIGHT: nat := 500000000    // a lockTime below this is a block height
  const UINT32_MAX: nat := 0xffff_ffff

  type Hash = nat
  type Address = string                          // "" when a script has no address

  datatype UTXO = UTXO(hash: Hash, n: nat)
  datatype TxInput = TxInput(outpoint: UTXO, sequence: nat)
  datatype TxOutput = TxOutput(address: Address, amount: nat)
  datatype Tx = Tx(txHash: Hash, inputs: seq<TxInput>, outputs: seq<TxOutput>, lockTime: nat, size: nat,
                   blockHeight: nat, timestamp: nat)

  // What a replay reads besides the list itself.
  datatype Env = Env(allTx: map<Hash, Tx>, addrs: set<Address>, height: nat, now: nat)

  datatype State = State(utxos: seq<UTXO>, spent: set<UTXO>, invalid: set<Hash>, pending: set<Hash>,
                         used: set<Address>, balance: nat, prev: nat, sent: nat, received: nat, hist: seq<nat>)

  const EMPTY: State := State([], {}, {}, {}, {}, 0, 0, 0, 0, [])

  datatype Status = Invalid | Pending | Applied

  // ---------- classification of one transaction ----------

  predicate BadInput(s: State, i: TxInput) {
    i.outpoint in s.spent || i.outpoint.hash in s.invalid
  }

  predicate HoldsBack(env: Env, s: State, tx: Tx, i: TxInput) {
    || i.sequence < UINT32_MAX - 1
    || (i.sequence < UINT32_MAX && tx.lockTime < TX_MAX_LOCK_HEIGHT && tx.lockTime > env.height + 1)
    || (i.sequence < UINT32_MAX && tx.lockTime > env.now)
    || i.outpoint.hash in s.pending
  }

  predicate AnyBadInput(s: State, tx: Tx) { exists i :: i in tx.inputs && BadInput(s, i) }

  predicate HeldBack(env: Env, s: State, tx: Tx) {
    || tx.size > TX_MAX_SIZE
    || (exists o :: o in tx.outputs && o.amount < TX_MIN_OUTPUT_AMOUNT)
    || (exists i :: i in tx.inputs && HoldsBack(env, s, tx, i))
  }

  function StatusOf(env: Env, s: State, tx: Tx): Status {
    if tx.blockHeight != TX_UNCONFIRMED then Applied
    else if AnyBadInput(s, tx) then Invalid
    else if HeldBack(env, s, tx) then Pending
    else Applied
  }

  // ---------- the replay ----------

  function Outpoints(tx: Tx): set<UTXO> { set i | i in tx.inputs :: i.outpoint }

  predicate Owned(env: Env, o: TxOutput) { o.address != "" && o.address in env.addrs }

  // The wallet's outputs among the first k of tx, in order.
  function NewUtxos(env: Env, tx: Tx, k: nat): seq<UTXO>
    requires k <= |tx.outputs|
  {
    if k == 0 then []
    else NewUtxos(env, tx, k - 1) + if Owned(env, tx.outputs[k - 1]) then [UTXO(tx.txHash, k - 1)] else []
  }

  function UsedBy(tx: Tx, k: nat): set<Address>
    requires k <= |tx.outputs|
  {
    set j | 0 <= j < k && tx.outputs[j].address != "" :: tx.outputs[j].address
  }

  function Unspent(utxos: seq<UTXO>, spent: set<UTXO>): seq<UTXO> {
    if utxos == [] then [] else
    var m := |utxos| - 1;
    Unspent(utxos[..m], spent) + if utxos[m] in spent then [] else [utxos[m]]
  }

  predicate Resolves(env: Env, u: UTXO) { u.hash in env.allTx && u.n < |env.allTx[u.hash].outputs| }

  function Amount(env: Env, u: UTXO): nat {
    if Resolves(env, u) then env.allTx[u.hash].outputs[u.n].amount else 0
  }

  function Total(env: Env, utxos: seq<UTXO>): nat {
    if utxos == [] then 0 else Total(env, utxos[..|utxos| - 1]) + Amount(env, utxos[|utxos| - 1])
  }

  function Apply(env: Env, s: State, tx: Tx): State {
    var spent := s.spent + Outpoints(tx);
    var new' := NewUtxos(env, tx, |tx.outputs|);
    var utxos := Unspent(s.utxos + new', spent);
    var balance := Total(env, utxos);
    State(utxos, spent, s.invalid, s.pending, s.used + UsedBy(tx, |tx.outputs|), balance, balance,
          if balance < s.prev then s.sent + (s.prev - balance) else s.sent,
          if s.prev < balance then s.received + (balance - s.prev) else s.received,
          s.hist + [balance])
  }

  function Step(env: Env, s: State, tx: Tx): State {
    match StatusOf(env, s, tx)
    case Invalid => s.(invalid := s.invalid + {tx.txHash}, hist := s.hist + [s.balance])
    case Pending => s.(spent := s.spent + Outpoints(tx), pending := s.pending + {tx.txHash},
                       hist := s.hist + [s.balance])
    case Applied => Apply(env, s, tx)
  }

  function Replay(env: Env, txs: seq<Tx>): (s: State)
    ensures |s.hist| == |txs|
  {
    if txs == [] then EMPTY else Step(env, Replay(env, txs[..|txs| - 1]), txs[|txs| - 1])
  }

  // The transactions that a list of hashes stands for.
  function Lookup(allTx: map<Hash, Tx>, hashes: seq<Hash>): seq<Tx>
    requires forall h :: h in hashes ==> h in allTx
  {
    seq(|hashes|, k requires 0 <= k < |hashes| => allTx[hashes[k]])
  }

  // The listed transactions are the ones registered under their hashes, each listed once.
  ghost predicate Registered(env: Env, txs: seq<Tx>) {
    && (forall k :: 0 <= k < |txs| ==> txs[k].txHash in env.allTx && env.allTx[txs[k].txHash] == txs[k])
    && (forall j, k :: 0 <= j < k < |txs| ==> txs[j].txHash != txs[k].txHash)
  }

  // ---------- basic facts ----------

  lemma {:induction false} TotalConcat(env: Env, a: seq<UTXO>, b: seq<UTXO>)
    ensures Total(env, a + b) == Total(env, a) + Total(env, b)
  {
    if b == [] {
      assert a + b == a;
    } else {
      var m := |b| - 1;
      TotalConcat(env, a, b[..m]);
      assert (a + b)[..|a + b| - 1] == a + b[..m];
    }
  }

  lemma {:induction false} NewUtxosExactly(env: Env, tx: Tx, k: nat)
    requires k <= |tx.outputs|
    ensures forall u :: u in NewUtxos(env, tx, k) <==> u.hash == tx.txHash && u.n < k && Owned(env, tx.outputs[u.n])
  {
    if k > 0 { NewUtxosExactly(env, tx, k - 1); }
  }

  /** What one output adds to the UTXO list and to the used addresses. */
  lemma OutputStep(env: Env, tx: Tx, j: nat)
    requires j < |tx.outputs| && tx.txHash in env.allTx && env.allTx[tx.txHash] == tx
    ensures var o, u := tx.outputs[j], UTXO(tx.txHash, j);
      && UsedBy(tx, j + 1) == UsedBy(tx, j) + (if o.address != "" then {o.address} else {})
      && NewUtxos(env, tx, j + 1) == NewUtxos(env, tx, j) + (if Owned(env, o) then [u] else [])
      && Total(env, NewUtxos(env, tx, j + 1))
         == Total(env, NewUtxos(env, tx, j)) + (if Owned(env, o) then o.amount else 0)
  {
    var u := UTXO(tx.txHash, j);
    TotalConcat(env, NewUtxos(env, tx, j), [u]);
    assert [u][..0] == [] && Total(env, [u]) == Amount(env, u);
    assert NewUtxos(env, tx, j) + [] == NewUtxos(env, tx, j);
  }

  lemma NoOutputs(env: Env, tx: Tx)
    ensures UsedBy(tx, 0) == {} && NewUtxos(env, tx, 0) == [] && Total(env, []) == 0
  {
  }

  lemma {:induction false} UnspentExactly(utxos: seq<UTXO>, spent: set<UTXO>)
    ensures forall u :: u in Unspent(utxos, spent) <==> u in utxos && u !in spent
  {
    if utxos != [] {
      var m := |utxos| - 1;
      UnspentExactly(utxos[..m], spent);
      assert utxos == utxos[..m] + [utxos[m]];
    }
  }

  /** Every UTXO the replay keeps can be looked up again. */
  lemma {:induction false} ReplayResolves(env: Env, txs: seq<Tx>)
    requires Registered(env, txs)
    ensures forall u :: u in Replay(env, txs).utxos ==> Resolves(env, u)
  {
    if txs != [] {
      var m := |txs| - 1;
      ReplayResolves(env, txs[..m]);
      var s := Replay(env, txs[..m]);
      NewUtxosExactly(env, txs[m], |txs[m].outputs|);
      UnspentExactly(s.utxos + NewUtxos(env, txs[m], |txs[m].outputs|), s.spent + Outpoints(txs[m]));
    }
  }

  lemma ReplayNothing(env: Env)
    ensures Replay(env, []) == EMPTY
  {
  }

  lemma ReplayStep(env: Env, txs: seq<Tx>, i: nat)
    requires Registered(env, txs) && i < |txs|
    ensures Replay(env, txs[..i + 1]) == Step(env, Replay(env, txs[..i]), txs[i])
    ensures txs[i].txHash in env.allTx && env.allTx[txs[i].txHash] == txs[i]
    ensures forall u :: u in Replay(env, txs[..i]).utxos ==> Resolves(env, u)
  {
    assert txs[..i + 1][..i] == txs[..i];
    ReplayResolves(env, txs[..i]);
  }

  lemma {:induction false} BalanceIsTotal(env: Env, txs: seq<Tx>)
    ensures Replay(env, txs).balance == Replay(env, txs).prev == Total(env, Replay(env, txs).utxos)
  {
    if txs != [] { BalanceIsTotal(env, txs[..|txs| - 1]); }
  }
}
