/** Coin selection of BRWallet.c: BRWalletCreateTxForOutputs picks UTXOs in list order until the fee is covered,
    BRWalletMaxOutputAmount promises how much can be sent.  A transaction that outgrows TX_MAX_SIZE is tried again with
    less, by a recursion whose depth is bounded here only by a parameter. */
module CoinSelection {
  import opened Ledger
  import LedgerLaws
  import opened Prelude
  import Shuffle
  import TxCodec
  import Arith
  import opened Bytes

  const TX_FEE_PER_KB: nat := 1000
  const TX_OUTPUT_SIZE: nat := 34

  datatype Payment = Payment(amount: nat, scriptLen: nat)

  // The part of a wallet that coin selection reads.
  datatype Purse = Purse(env: Env, utxos: seq<UTXO>, balance: nat, feePerKb: nat)

  // Astray: the code reads the output before its first one.  Exhausted: the recursion was cut off.
  datatype Outcome =
    | Built(inputs: seq<UTXO>, outputs: seq<Payment>)
    | Insufficient
    | Oversize
    | Astray
    | Exhausted

  // ---------- sizes and fees ----------

  function AmountOf(o: Payment): nat { o.amount }

  function SizeOf(o: Payment): nat { 8 + VarIntSize(o.scriptLen) + o.scriptLen }

  function SumBy(f: Payment -> nat, outs: seq<Payment>): nat {
    if outs == [] then 0 else SumBy(f, outs[..|outs| - 1]) + f(outs[|outs| - 1])
  }

  function Sum(outs: seq<Payment>): nat { SumBy(AmountOf, outs) }

  // BRTransactionSize of an unsigned transaction.
  function TxSize(inCount: nat, outs: seq<Payment>): nat {
    8 + VarIntSize(inCount) + VarIntSize(|outs|) + TxCodec.TX_INPUT_SIZE * inCount + SumBy(SizeOf, outs)
  }

  function Payments(outs: seq<TxCodec.Output>): seq<Payment> {
    seq(|outs|, i requires 0 <= i < |outs| => Payment(outs[i].amount, |outs[i].script|))
  }

  /** The size that coin selection reckons with is BRTransactionSize of the transaction before it is signed. */
  lemma UnsignedSize(tx: TxCodec.Tx)
    requires forall i :: 0 <= i < |tx.inputs| ==> tx.inputs[i].signature.None?
    ensures TxSize(|tx.inputs|, Payments(tx.outputs)) == TxCodec.TotalSize(tx)
  {
    UnsignedInputs(tx.inputs);
    OutputsSum(tx.outputs);
  }

  lemma {:induction false} UnsignedInputs(ins: seq<TxCodec.Input>)
    requires forall i :: 0 <= i < |ins| ==> ins[i].signature.None?
    ensures TxCodec.InputSizes(ins) == TxCodec.TX_INPUT_SIZE * |ins|
  {
    if ins != [] { UnsignedInputs(ins[..|ins| - 1]); }
  }

  lemma {:induction false} OutputsSum(outs: seq<TxCodec.Output>)
    ensures TxCodec.OutputSizes(outs) == SumBy(SizeOf, Payments(outs))
  {
    if outs != [] {
      var m := |outs| - 1;
      OutputsSum(outs[..m]);
      assert Payments(outs)[..m] == Payments(outs[..m]);
    }
  }

  function Max(a: nat, b: nat): nat { if a > b then a else b }

  function TxFee(feePerKb: nat, size: nat): nat {
    Max((size * feePerKb / 1000 + 99) / 100 * 100, size * TX_FEE_PER_KB / 1000)
  }

  function MinOutputAmount(feePerKb: nat): nat {
    Max((TX_MIN_OUTPUT_AMOUNT * feePerKb + TX_FEE_PER_KB - 1) / TX_FEE_PER_KB, TX_MIN_OUTPUT_AMOUNT)
  }

  /** A fee is enough exactly if it is a satoshi per byte and its whole hundreds cover the wallet's rate. */
  lemma TxFeeExactly(feePerKb: nat, size: nat, fee: nat)
    ensures fee >= TxFee(feePerKb, size) <==> fee >= size && fee / 100 * 100 >= size * feePerKb / 1000
  {
  }

  /** An amount reaches the minimum exactly if it is no dust, also at the wallet's fee rate. */
  lemma MinOutputExactly(feePerKb: nat, amount: nat)
    ensures amount >= MinOutputAmount(feePerKb)
       <==> amount >= TX_MIN_OUTPUT_AMOUNT && amount * 1000 >= TX_MIN_OUTPUT_AMOUNT * feePerKb
  {
  }

  lemma TxFeeMonotone(feePerKb: nat, a: nat, b: nat)
    requires a <= b
    ensures TxFee(feePerKb, a) <= TxFee(feePerKb, b)
  {
    Arith.MulMonotone(a, b, feePerKb);
    var x, y := a * feePerKb, b * feePerKb;
    assert x / 1000 <= y / 1000;
  }

  // ---------- the walk over the UTXO list ----------

  // UTXOs whose transaction is known and has that output, in list order.
  function Usable(env: Env, utxos: seq<UTXO>): seq<UTXO> {
    if utxos == [] then []
    else
      var m := |utxos| - 1;
      Usable(env, utxos[..m]) + if Resolves(env, utxos[m]) then [utxos[m]] else []
  }

  function All(p: Purse): seq<UTXO> { Usable(p.env, p.utxos) }

  // What the first k usable UTXOs are worth.
  function Funds(p: Purse, k: nat): nat
    requires k <= |All(p)|
  {
    Total(p.env, All(p)[..k])
  }

  // The fee with k inputs and a change output.
  function BaseFee(p: Purse, outs: seq<Payment>, k: nat): nat {
    TxFee(p.feePerKb, TxSize(k, outs) + TX_OUTPUT_SIZE)
  }

  // The fee raised so that the balance left over is a multiple of 100.
  function Fee(p: Purse, outs: seq<Payment>, k: nat): nat {
    var fee := BaseFee(p, outs, k);
    if k > 0 && p.balance > Sum(outs) + fee then fee + (p.balance - (Sum(outs) + fee)) % 100 else fee
  }

  predicate Stops(p: Purse, outs: seq<Payment>, k: nat)
    requires k <= |All(p)|
  {
    || Funds(p, k) == Sum(outs) + Fee(p, outs, k)
    || Funds(p, k) >= Sum(outs) + Fee(p, outs, k) + MinOutputAmount(p.feePerKb)
  }

  /** The walk stops exactly where the outputs and the fee leave nothing, or at least the minimum for a change output:
      546 satoshis, and those at the wallet's fee rate. */
  lemma StopsExactly(p: Purse, outs: seq<Payment>, k: nat)
    requires k <= |All(p)|
    ensures
      var left := Funds(p, k) - Sum(outs) - Fee(p, outs, k);
      Stops(p, outs, k) <==> left == 0 || (left >= 546 && left * 1000 >= 546 * p.feePerKb)
  {
    hide Funds, Sum, Fee, All, MinOutputAmount;
    var left := Funds(p, k) - Sum(outs) - Fee(p, outs, k);
    if left >= 0 { MinOutputExactly(p.feePerKb, left); }
  }

  predicate Fits(outs: seq<Payment>, k: nat) { TxSize(k, outs) + TX_OUTPUT_SIZE <= TX_MAX_SIZE }

  /** Inputs and outputs fit exactly if the unsigned transaction and a change output take no more than 100000 bytes. */
  lemma FitsExactly(tx: TxCodec.Tx)
    requires forall i :: 0 <= i < |tx.inputs| ==> tx.inputs[i].signature.None?
    ensures Fits(Payments(tx.outputs), |tx.inputs|) <==> TxCodec.TotalSize(tx) + 34 <= 100000
  {
    UnsignedSize(tx);
  }

  // What the loop settles on: a number of inputs, or a transaction that has become too large.
  datatype Walk = Settled(k: nat) | TooLarge(k: nat)

  ghost predicate Ends(p: Purse, outs: seq<Payment>, w: Walk) {
    && w.k <= |All(p)|
    && (forall i :: 0 < i < w.k ==> Fits(outs, i) && !Stops(p, outs, i))
    && match w
       case Settled(k) => (0 < k ==> Fits(outs, k)) && (k == |All(p)| || (0 < k && Stops(p, outs, k)))
       case TooLarge(k) => 0 < k && !Fits(outs, k)
  }

  /** The walk ends in exactly one way. */
  lemma EndsOnce(p: Purse, outs: seq<Payment>, v: Walk, w: Walk)
    requires Ends(p, outs, v) && Ends(p, outs, w)
    ensures v == w
  {
  }

  function Enough(p: Purse, outs: seq<Payment>, k: nat): bool
    requires k <= |All(p)|
  {
    |outs| >= 1 && Funds(p, k) >= Sum(outs) + Fee(p, outs, k)
  }

  // The change that k inputs leave: an output is added when it is worth more than the minimum.
  function Change(p: Purse, outs: seq<Payment>, k: nat, changeLen: nat): seq<Payment>
    requires k <= |All(p)| && Enough(p, outs, k)
  {
    var left := Funds(p, k) - (Sum(outs) + Fee(p, outs, k));
    if left > MinOutputAmount(p.feePerKb) then [Payment(left, changeLen)] else []
  }

  // A walk that settled: the first k usable UTXOs pay for the outputs and the change, or they do not suffice.
  ghost predicate Pays(p: Purse, outs: seq<Payment>, changeLen: nat, k: nat, r: Outcome)
    requires k <= |All(p)|
  {
    if !Enough(p, outs, k) then r == Insufficient
    else r.Built? && r.inputs == All(p)[..k] && multiset(r.outputs) == multiset(outs + Change(p, outs, k, changeLen))
  }

  // What the inputs before the k-th lack of paying for the outputs; negative if they pay more.
  function Lack(p: Purse, outs: seq<Payment>, k: nat): int
    requires 0 < k <= |All(p)|
  {
    Sum(outs) + Fee(p, outs, k - 1) - Funds(p, k - 1)
  }

  // The fee that is asked for before a smaller transaction is tried.
  function RetryFee(p: Purse, outCount: nat): nat {
    TxFee(p.feePerKb, 10 + |p.utxos| * TxCodec.TX_INPUT_SIZE + (outCount + 1) * TX_OUTPUT_SIZE)
  }

  datatype Retry = Over(r: Outcome) | Again(outs: seq<Payment>)

  // The last output takes less, or more if the lack is negative.
  function Reduced(outs: seq<Payment>, lack: int): seq<Payment>
    requires outs != [] && outs[|outs| - 1].amount >= lack
  {
    var m := |outs| - 1;
    outs[m := Payment(outs[m].amount - lack, outs[m].scriptLen)]
  }

  // What is tried after the k-th input made the transaction too large.
  function Retried(p: Purse, outs: seq<Payment>, k: nat): Retry
    requires 0 < k <= |All(p)|
  {
    if p.balance < Sum(outs) + RetryFee(p, |outs|) then Over(Oversize)
    else if outs == [] then Over(Astray)
    else if outs[|outs| - 1].amount > Lack(p, outs, k) + MinOutputAmount(p.feePerKb) then
      Again(Reduced(outs, Lack(p, outs, k)))
    else Again(outs[..|outs| - 1])
  }

  // The outcome of a call from which the recursion may go depth calls deep.
  ghost predicate Results(p: Purse, outs: seq<Payment>, changeLen: nat, depth: nat, r: Outcome)
    decreases depth
  {
    if depth == 0 then r == Exhausted
    else exists w :: Ends(p, outs, w) && Comes(p, outs, changeLen, depth, w, r)
  }

  ghost predicate Comes(p: Purse, outs: seq<Payment>, changeLen: nat, depth: nat, w: Walk, r: Outcome)
    requires 0 < depth && w.k <= |All(p)| && (w.TooLarge? ==> 0 < w.k)
    decreases depth, 0
  {
    match w
    case Settled(k) => Pays(p, outs, changeLen, k, r)
    case TooLarge(k) =>
      match Retried(p, outs, k)
      case Over(o) => r == o
      case Again(less) => Results(p, less, changeLen, depth - 1, r)
  }

  lemma {:induction false} UsablePrefix(env: Env, utxos: seq<UTXO>, i: nat)
    requires i <= |utxos|
    ensures Usable(env, utxos[..i]) <= Usable(env, utxos)
    decreases |utxos| - i
  {
    if i == |utxos| {
      assert utxos[..i] == utxos;
    } else {
      UsablePrefix(env, utxos, i + 1);
      assert utxos[..i + 1][..i] == utxos[..i];
    }
  }

  lemma UsableStep(p: Purse, i: nat)
    requires i < |p.utxos|
    ensures
      var before, after := Usable(p.env, p.utxos[..i]), Usable(p.env, p.utxos[..i + 1]);
      && before <= All(p) && after <= All(p)
      && after == (if Resolves(p.env, p.utxos[i]) then before + [p.utxos[i]] else before)
      && (Resolves(p.env, p.utxos[i]) ==>
            Funds(p, |after|) == Funds(p, |before|) + p.env.allTx[p.utxos[i].hash].outputs[p.utxos[i].n].amount)
  {
    UsablePrefix(p.env, p.utxos, i);
    UsablePrefix(p.env, p.utxos, i + 1);
    assert p.utxos[..i + 1][..i] == p.utxos[..i];
    var before, after := Usable(p.env, p.utxos[..i]), Usable(p.env, p.utxos[..i + 1]);
    assert after == if Resolves(p.env, p.utxos[i]) then before + [p.utxos[i]] else before;
    if Resolves(p.env, p.utxos[i]) {
      assert after[..|after| - 1] == before && after == All(p)[..|after|] && before == All(p)[..|before|];
    }
  }

  /** The coins considered are the UTXOs that can be looked up, each once. */
  lemma {:induction false} UsableExactly(env: Env, utxos: seq<UTXO>)
    ensures forall u :: u in Usable(env, utxos) <==> u in utxos && Resolves(env, u)
    ensures Distinct(utxos) ==> Distinct(Usable(env, utxos))
  {
    if utxos != [] {
      hide Resolves;
      var m := |utxos| - 1;
      UsableExactly(env, utxos[..m]);
      assert utxos == utxos[..m] + [utxos[m]];
    }
  }

  method SumOf(outs: seq<Payment>) returns (amount: nat)
    ensures amount == Sum(outs)
  {
    amount := 0;
    for i := 0 to |outs|
      invariant amount == Sum(outs[..i])
    {
      assert outs[..i + 1][..i] == outs[..i];
      amount := amount + outs[i].amount;
    }
    assert outs[..|outs|] == outs;
  }

  method FeeWith(p: Purse, outs: seq<Payment>, k: nat, amount: nat) returns (feeAmount: nat)
    requires k > 0 && amount == Sum(outs)
    ensures feeAmount == Fee(p, outs, k)
  {
    hide TxFee, TxSize, Sum;
    feeAmount := TxFee(p.feePerKb, TxSize(k, outs) + TX_OUTPUT_SIZE);
    if p.balance > amount + feeAmount {
      feeAmount := feeAmount + (p.balance - (amount + feeAmount)) % 100;
    }
  }

  // The loop of BRWalletCreateTxForOutputs over the UTXO list.
  method SelectInputs(p: Purse, outs: seq<Payment>, amount: nat, minAmount: nat)
    returns (inputs: seq<UTXO>, balance: nat, feeAmount: nat, large: bool)
    requires amount == Sum(outs) && minAmount == MinOutputAmount(p.feePerKb)
    ensures inputs <= All(p) && Ends(p, outs, if large then TooLarge(|inputs|) else Settled(|inputs|))
    ensures !large ==> balance == Funds(p, |inputs|) && feeAmount == Fee(p, outs, |inputs|)
    ensures large ==> balance == Funds(p, |inputs| - 1) && feeAmount == Fee(p, outs, |inputs| - 1)
  {
    hide Fits, Fee, Usable, Funds, All, TxFee, TxSize, MinOutputAmount, Sum, BaseFee;
    feeAmount := TxFee(p.feePerKb, TxSize(0, outs) + TX_OUTPUT_SIZE);
    inputs, balance, large := [], 0, false;
    NoInputs(p, outs);
    var i := 0;
    while i < |p.utxos|
      invariant i <= |p.utxos|
      invariant inputs == Usable(p.env, p.utxos[..i]) && inputs <= All(p)
      invariant balance == Funds(p, |inputs|) && feeAmount == Fee(p, outs, |inputs|)
      invariant forall j :: 0 < j <= |inputs| ==> Fits(outs, j) && !Stops(p, outs, j)
    {
      var o := p.utxos[i];
      UsableStep(p, i);
      i := i + 1;
      if o.hash !in p.env.allTx || o.n >= |p.env.allTx[o.hash].outputs| {
        continue;
      }
      inputs := inputs + [o];
      FitsIs(outs, |inputs|);
      if TxSize(|inputs|, outs) + TX_OUTPUT_SIZE > TX_MAX_SIZE {
        large := true;
        return;
      }
      balance := balance + p.env.allTx[o.hash].outputs[o.n].amount;
      feeAmount := FeeWith(p, outs, |inputs|, amount);
      if balance == amount + feeAmount || balance >= amount + feeAmount + minAmount {
        break;
      }
    }
  }

  /** BRWalletCreateTxForOutputs.  changeLen is the length of the change script, rand drives the shuffle. */
  method CreateTxForOutputs(p: Purse, outs: seq<Payment>, changeLen: nat, rand: nat -> nat, depth: nat)
    returns (r: Outcome)
    ensures Results(p, outs, changeLen, depth, r)
    decreases depth
  {
    hide Fits, Fee, Funds, All, MinOutputAmount, Sum, Stops, TxFee;
    if depth == 0 { return Exhausted; }
    var amount := SumOf(outs);
    var minAmount := MinOutputAmount(p.feePerKb);
    var inputs, balance, feeAmount, large := SelectInputs(p, outs, amount, minAmount);
    ghost var w := if large then TooLarge(|inputs|) else Settled(|inputs|);
    if large {
      r := Smaller(p, outs, changeLen, rand, depth, |inputs|, amount, balance, feeAmount, minAmount);
    } else if |outs| < 1 || balance < amount + feeAmount {
      r := Insufficient;
    } else if balance - (amount + feeAmount) > minAmount {
      var outputs := Shuffle.ShuffleOutputs(outs + [Payment(balance - (amount + feeAmount), changeLen)], rand);
      r := Built(inputs, outputs);
    } else {
      assert outs + [] == outs;
      r := Built(inputs, outs);
    }
    assert Ends(p, outs, w) && Comes(p, outs, changeLen, depth, w, r);
  }

  // What BRWalletCreateTxForOutputs does when the k-th input has made the transaction too large.
  method Smaller(p: Purse, outs: seq<Payment>, changeLen: nat, rand: nat -> nat, depth: nat, ghost k: nat,
                 amount: nat, balance: nat, feeAmount: nat, minAmount: nat)
    returns (r: Outcome)
    requires 0 < depth && Ends(p, outs, TooLarge(k)) && amount == Sum(outs) && minAmount == MinOutputAmount(p.feePerKb)
    requires balance == Funds(p, k - 1) && feeAmount == Fee(p, outs, k - 1)
    ensures Comes(p, outs, changeLen, depth, TooLarge(k), r)
    decreases depth, 0
  {
    hide Fits, Fee, Funds, All, MinOutputAmount, Sum, Stops, TxFee, Ends;
    var txSize := 10 + |p.utxos| * TxCodec.TX_INPUT_SIZE + (|outs| + 1) * TX_OUTPUT_SIZE;
    if p.balance < amount + TxFee(p.feePerKb, txSize) {
      return Oversize;
    }
    if |outs| == 0 {
      return Astray;
    }
    LackBounded(p, outs, k);
    var last := outs[|outs| - 1];
    if last.amount > amount + feeAmount + minAmount - balance {
      var newOutputs := outs[|outs| - 1 := Payment(last.amount - (amount + feeAmount - balance), last.scriptLen)];
      r := CreateTxForOutputs(p, newOutputs, changeLen, rand, depth - 1);
    } else {
      r := CreateTxForOutputs(p, outs[..|outs| - 1], changeLen, rand, depth - 1);
    }
  }

  /** The difference that the retry computes without a sign is never negative. */
  lemma LackBounded(p: Purse, outs: seq<Payment>, k: nat)
    requires Ends(p, outs, TooLarge(k))
    ensures Lack(p, outs, k) + MinOutputAmount(p.feePerKb) >= 0
  {
    hide Fits, Fee, MinOutputAmount, Sum, TxFee;
    if k == 1 {
      assert All(p)[..0] == [];
    } else {
      assert !Stops(p, outs, k - 1);
    }
  }

  lemma NoInputs(p: Purse, outs: seq<Payment>)
    ensures Usable(p.env, p.utxos[..0]) == [] && Funds(p, 0) == 0
    ensures Fee(p, outs, 0) == TxFee(p.feePerKb, TxSize(0, outs) + TX_OUTPUT_SIZE)
    ensures Usable(p.env, p.utxos[..|p.utxos|]) == All(p)
  {
    assert p.utxos[..|p.utxos|] == p.utxos;
  }

  lemma FitsIs(outs: seq<Payment>, k: nat)
    ensures Fits(outs, k) == (TxSize(k, outs) + TX_OUTPUT_SIZE <= TX_MAX_SIZE)
  {
  }

  // ---------- what can be sent at most ----------

  // The fee for all inputs and two outputs of 34 bytes.
  function MaxFee(p: Purse): nat {
    var n := |All(p)|;
    TxFee(p.feePerKb, 8 + VarIntSize(n) + TxCodec.TX_INPUT_SIZE * n + VarIntSize(2) + TX_OUTPUT_SIZE * 2)
  }

  function MaxOutput(p: Purse): nat {
    var n := |All(p)|;
    if Funds(p, n) > MaxFee(p) then Funds(p, n) - MaxFee(p) else 0
  }

  /** BRWalletMaxOutputAmount, which walks the UTXO list from its end. */
  method MaxOutputAmount(p: Purse) returns (r: nat)
    ensures r == MaxOutput(p)
  {
    hide Usable, Funds, All, TxFee;
    var amount, inCount: nat := 0, 0;
    var i: nat := |p.utxos|;
    NoInputs(p, []);
    while i > 0
      invariant i <= |p.utxos|
      invariant Usable(p.env, p.utxos[..i]) <= All(p)
      invariant inCount + |Usable(p.env, p.utxos[..i])| == |All(p)|
      invariant amount + Funds(p, |Usable(p.env, p.utxos[..i])|) == Funds(p, |All(p)|)
    {
      var o := p.utxos[i - 1];
      UsableStep(p, i - 1);
      i := i - 1;
      if o.hash in p.env.allTx && o.n < |p.env.allTx[o.hash].outputs| {
        inCount := inCount + 1;
        amount := amount + p.env.allTx[o.hash].outputs[o.n].amount;
      }
    }
    var txSize := 8 + VarIntSize(inCount) + TxCodec.TX_INPUT_SIZE * inCount + VarIntSize(2) + TX_OUTPUT_SIZE * 2;
    var fee := TxFee(p.feePerKb, txSize);
    r := if amount > fee then amount - fee else 0;
  }

  // ---------- soundness ----------

  lemma SumBySnoc(f: Payment -> nat, outs: seq<Payment>, o: Payment)
    ensures SumBy(f, outs + [o]) == SumBy(f, outs) + f(o)
  {
  }

  lemma {:induction false} SumByConcat(f: Payment -> nat, a: seq<Payment>, b: seq<Payment>)
    ensures SumBy(f, a + b) == SumBy(f, a) + SumBy(f, b)
  {
    if b == [] {
      assert a + b == a;
    } else {
      var m := |b| - 1;
      SumByConcat(f, a, b[..m]);
      SumBySnoc(f, a + b[..m], b[m]);
      assert a + b == (a + b[..m]) + [b[m]];
    }
  }

  /** Sums do not depend on the order that the shuffle leaves. */
  lemma {:induction false} SumByPermutation(f: Payment -> nat, a: seq<Payment>, b: seq<Payment>)
    requires multiset(a) == multiset(b)
    ensures SumBy(f, a) == SumBy(f, b) && |a| == |b|
  {
    hide SumBy;
    if a == [] {
      assert |multiset(b)| == |b| && a == b;
    } else {
      var m := |a| - 1;
      SumBySnoc(f, a[..m], a[m]);
      var j := LastIn(a, b);
      SumByWithout(f, b, j);
      SumByPermutation(f, a[..m], b[..j] + b[j + 1..]);
    }
  }

  lemma LastIn(a: seq<Payment>, b: seq<Payment>) returns (j: nat)
    requires a != [] && multiset(a) == multiset(b)
    ensures j < |b| && b[j] == a[|a| - 1] && a == a[..|a| - 1] + [a[|a| - 1]]
    ensures multiset(a[..|a| - 1]) == multiset(b) - multiset{b[j]}
  {
    var m := |a| - 1;
    assert a == a[..m] + [a[m]] && a[m] in multiset(b);
    j :| 0 <= j < |b| && b[j] == a[m];
  }

  lemma SumByWithout(f: Payment -> nat, b: seq<Payment>, j: nat)
    requires j < |b|
    ensures SumBy(f, b) == SumBy(f, b[..j] + b[j + 1..]) + f(b[j])
    ensures multiset(b[..j] + b[j + 1..]) == multiset(b) - multiset{b[j]}
  {
    hide SumBy;
    Without(b, j);
    SumBySnoc(f, b[..j], b[j]);
    SumByConcat(f, b[..j] + [b[j]], b[j + 1..]);
    SumByConcat(f, b[..j], b[j + 1..]);
  }

  lemma Without(b: seq<Payment>, j: nat)
    requires j < |b|
    ensures b == b[..j] + [b[j]] + b[j + 1..]
    ensures multiset(b[..j] + b[j + 1..]) == multiset(b) - multiset{b[j]}
  {
  }

  /** The fee is the least one from the fee for the size with change on that leaves the balance a multiple of 100 above
      what is spent, when the balance exceeds it. */
  lemma FeeExactly(p: Purse, outs: seq<Payment>, k: nat, fee: nat)
    ensures fee == Fee(p, outs, k)
       <==> BaseFee(p, outs, k) <= fee
            && if k > 0 && p.balance > Sum(outs) + BaseFee(p, outs, k)
               then fee < BaseFee(p, outs, k) + 100 && (p.balance - Sum(outs) - fee) % 100 == 0
               else fee == BaseFee(p, outs, k)
  {
    hide BaseFee, Sum;
  }

  /** What a transaction that was built pays: at least the computed fee and at most that plus the smallest output worth
      adding; the change, if any, is worth more than that. */
  lemma Sound(p: Purse, outs: seq<Payment>, changeLen: nat, k: nat, paid: seq<Payment>)
    requires k <= |All(p)| && Enough(p, outs, k)
    requires multiset(paid) == multiset(outs + Change(p, outs, k, changeLen))
    ensures
      var change, fee := Change(p, outs, k, changeLen), Funds(p, k) - Sum(paid);
      && Fee(p, outs, k) <= fee <= Fee(p, outs, k) + MinOutputAmount(p.feePerKb)
      && (change != [] ==> fee == Fee(p, outs, k))
      && TxSize(k, paid) == TxSize(k, outs) + if change == [] then 0 else ChangeSize(|outs|, changeLen)
    ensures |paid| <= |outs| + 1
    ensures forall c :: c in Change(p, outs, k, changeLen) ==> c.amount > MinOutputAmount(p.feePerKb)
  {
    hide TxFee, MinOutputAmount, Funds, All, Fee;
    var change := Change(p, outs, k, changeLen);
    SumByPermutation(AmountOf, paid, outs + change);
    SumByPermutation(SizeOf, paid, outs + change);
    if change == [] {
      assert outs + change == outs;
    } else {
      SumBySnoc(AmountOf, outs, change[0]);
      SumBySnoc(SizeOf, outs, change[0]);
      assert outs + change == outs + [change[0]];
    }
  }

  // How many bytes a change output adds, the count of outputs included.
  function ChangeSize(outCount: nat, changeLen: nat): int {
    SizeOf(Payment(0, changeLen)) + VarIntSize(outCount + 1) - VarIntSize(outCount)
  }

  // The numbers of outputs whose count takes more bytes with one output more.
  predicate CountGrows(outCount: nat) { outCount == 252 || outCount == 0xffff || outCount == 0xffff_ffff }

  /** What is paid covers the relay fee of the final size exactly if no change was added, or the change did not make the
      count of outputs longer, or the computed fee covers the longer count as well. */
  lemma FinalFeeExactly(p: Purse, outs: seq<Payment>, changeLen: nat, k: nat, paid: seq<Payment>)
    requires k <= |All(p)| && Enough(p, outs, k) && changeLen <= 25
    requires multiset(paid) == multiset(outs + Change(p, outs, k, changeLen))
    ensures TxFee(p.feePerKb, TxSize(k, paid)) <= Funds(p, k) - Sum(paid)
       <==> || Change(p, outs, k, changeLen) == []
            || !CountGrows(|outs|)
            || TxFee(p.feePerKb, TxSize(k, outs) + ChangeSize(|outs|, changeLen)) <= Fee(p, outs, k)
  {
    Sound(p, outs, changeLen, k, paid);
    hide TxFee, TxSize, MinOutputAmount, Funds, All, Fee, Sum, Change, Enough;
    FeeAboveBase(p, outs, k);
    if Change(p, outs, k, changeLen) == [] || !CountGrows(|outs|) {
      TxFeeMonotone(p.feePerKb, TxSize(k, paid), TxSize(k, outs) + TX_OUTPUT_SIZE);
    }
  }

  /** Of the counts that grow, a transaction small enough to be built has room for 252 only. */
  lemma OnlyOneCountGrows(outs: seq<Payment>, k: nat)
    requires Fits(outs, k) && CountGrows(|outs|)
    ensures |outs| == 252
  {
    OutputsTakeNine(outs);
  }

  lemma {:induction false} OutputsTakeNine(outs: seq<Payment>)
    ensures SumBy(SizeOf, outs) >= 9 * |outs|
  {
    if outs != [] { OutputsTakeNine(outs[..|outs| - 1]); }
  }

  lemma FeeAboveBase(p: Purse, outs: seq<Payment>, k: nat)
    ensures TxFee(p.feePerKb, TxSize(k, outs) + TX_OUTPUT_SIZE) <= Fee(p, outs, k)
  {
  }

  // ---------- completeness ----------

  lemma FitsBelow(outs: seq<Payment>, k: nat, n: nat)
    requires k <= n && Fits(outs, n)
    ensures Fits(outs, k)
  {
  }

  /** Exactly when a transaction is built, as long as all inputs together fit. */
  lemma BuiltExactly(p: Purse, outs: seq<Payment>, w: Walk)
    requires Ends(p, outs, w) && Fits(outs, |All(p)|)
    ensures w.Settled?
    ensures Enough(p, outs, w.k)
       <==> |outs| >= 1 && ((exists k: nat :: 0 < k <= |All(p)| && Stops(p, outs, k)) || Enough(p, outs, |All(p)|))
  {
    hide Fits, Fee, Funds, All, MinOutputAmount, Sum;
    FitsBelow(outs, w.k, |All(p)|);
  }

  /** A balance that is all usable UTXOs together and covers the amount and the fee for all of them is enough. */
  lemma Complete(p: Purse, outs: seq<Payment>, w: Walk)
    requires Ends(p, outs, w) && Fits(outs, |All(p)|) && |outs| >= 1
    requires p.balance == Funds(p, |All(p)|) >= Sum(outs) + BaseFee(p, outs, |All(p)|)
    ensures w.Settled? && Enough(p, outs, w.k)
  {
    BuiltExactly(p, outs, w);
    RoundingFits(p, outs, |All(p)|);
    hide Fits, BaseFee, Funds, All, Sum, Fee;
  }

  /** Raising the fee to round off what is left never asks for more than the balance. */
  lemma RoundingFits(p: Purse, outs: seq<Payment>, k: nat)
    requires p.balance >= Sum(outs) + BaseFee(p, outs, k)
    ensures p.balance >= Sum(outs) + Fee(p, outs, k)
  {
  }

  /** Exactly when the advertised maximum can be sent to a script of any length: the fee with that script must not
      exceed the fee the maximum leaves, or a part of the inputs must already do. */
  lemma MaxSentExactly(p: Purse, o: Payment, w: Walk)
    requires Ends(p, [o], w) && Fits([o], |All(p)|) && p.balance == Funds(p, |All(p)|) && o.amount == MaxOutput(p) > 0
    ensures w.Settled?
    ensures Enough(p, [o], w.k)
       <==> || BaseFee(p, [o], |All(p)|) <= MaxFee(p)
            || exists k: nat :: 0 < k <= |All(p)| && Stops(p, [o], k)
  {
    BuiltExactly(p, [o], w);
    SumBySnoc(AmountOf, [], o);
    assert [] + [o] == [o];
    var n := |All(p)|;
    assert Funds(p, n) == Sum([o]) + MaxFee(p);
    FeeAboveBase(p, [o], n);
    if BaseFee(p, [o], n) <= MaxFee(p) { RoundingFits(p, [o], n); }
    hide Fits, Fee, Funds, All, MinOutputAmount, Sum, MaxFee, Stops;
  }

  /** A wallet whose cache was just rebuilt can send any positive amount up to BRWalletMaxOutputAmount to a script of at
      most 25 bytes (P2PKH, P2SH), if its inputs fit one transaction. */
  lemma MaxCanBeSent(env: Env, txs: seq<Tx>, feePerKb: nat, o: Payment, w: Walk)
    requires Registered(env, txs)
    requires
      var s := Replay(env, txs);
      var p := Purse(env, s.utxos, s.balance, feePerKb);
      Ends(p, [o], w) && Fits([o], |s.utxos|) && 0 < o.amount <= MaxOutput(p) && o.scriptLen <= 25
    ensures
      var s := Replay(env, txs);
      var p := Purse(env, s.utxos, s.balance, feePerKb);
      w.Settled? && Enough(p, [o], w.k) && Distinct(All(p)[..w.k])
  {
    var s := Replay(env, txs);
    var p := Purse(env, s.utxos, s.balance, feePerKb);
    hide Replay;
    ReplayIsUsable(env, txs);
    var n := |All(p)|;
    BalanceIsTotal(env, txs);
    assert All(p)[..n] == s.utxos;
    OnePayment(p, o, n);
    hide MaxOutput, BaseFee, Fits, Ends;
    Complete(p, [o], w);
    LedgerLaws.UtxosDistinct(env, txs);
  }

  /** When all inputs fit, an amount goes to a script of 25 bytes exactly if it does not exceed the maximum or if some
      of the inputs alone stop the walk.  Where leaving inputs out never saves more in fees than they are worth, the
      maximum is the most that can be sent. */
  lemma MaxIsMost(p: Purse, o: Payment, w: Walk)
    requires Ends(p, [o], w) && Fits([o], |All(p)|) && p.balance == Funds(p, |All(p)|)
    requires o.amount > 0 && o.scriptLen == 25
    ensures w.Settled?
    ensures Enough(p, [o], w.k) <==> o.amount <= MaxOutput(p) || exists k: nat :: 0 < k < |All(p)| && Stops(p, [o], k)
    ensures (forall k: nat :: 0 < k < |All(p)| ==>
               BaseFee(p, [o], |All(p)|) - BaseFee(p, [o], k) <= Funds(p, |All(p)|) - Funds(p, k)) ==>
              (Enough(p, [o], w.k) <==> o.amount <= MaxOutput(p))
  {
    var n := |All(p)|;
    BuiltExactly(p, [o], w);
    SumBySnoc(AmountOf, [], o);
    SumBySnoc(SizeOf, [], o);
    assert [] + [o] == [o];
    assert BaseFee(p, [o], n) == MaxFee(p);
    hide Fits, Funds, All, MinOutputAmount, Sum, MaxFee, BaseFee, TxFee, TxSize, SumBy, Ends;
    FeeAboveBase(p, [o], n);
    if o.amount <= MaxOutput(p) { RoundingFits(p, [o], n); }
    forall k: nat | 0 < k <= n && Stops(p, [o], k)
      ensures k == n || BaseFee(p, [o], n) - BaseFee(p, [o], k) <= Funds(p, n) - Funds(p, k) ==>
                o.amount <= MaxOutput(p)
    {
      FeeAboveBase(p, [o], k);
    }
  }

  lemma OnePayment(p: Purse, o: Payment, n: nat)
    requires n == |All(p)| && 0 < o.amount <= MaxOutput(p) && o.scriptLen <= 25
    ensures Sum([o]) + BaseFee(p, [o], n) <= Funds(p, n)
  {
    hide TxFee, Funds, All;
    SumBySnoc(AmountOf, [], o);
    SumBySnoc(SizeOf, [], o);
    assert [] + [o] == [o];
    TxFeeMonotone(p.feePerKb, TxSize(n, [o]) + TX_OUTPUT_SIZE,
                  8 + VarIntSize(n) + TxCodec.TX_INPUT_SIZE * n + VarIntSize(2) + TX_OUTPUT_SIZE * 2);
  }

  lemma ReplayIsUsable(env: Env, txs: seq<Tx>)
    requires Registered(env, txs)
    ensures Usable(env, Replay(env, txs).utxos) == Replay(env, txs).utxos
  {
    ReplayResolves(env, txs);
    AllUsable(env, Replay(env, txs).utxos);
  }

  lemma {:induction false} AllUsable(env: Env, utxos: seq<UTXO>)
    requires forall u :: u in utxos ==> Resolves(env, u)
    ensures Usable(env, utxos) == utxos
  {
    if utxos != [] {
      var m := |utxos| - 1;
      AllUsable(env, utxos[..m]);
      assert utxos == utxos[..m] + [utxos[m]];
    }
  }

  // ---------- a transaction that outgrows the limit ----------

  // What a retry may do to the requested outputs: drop some at the end and change the amount of the last one left.
  predicate Trimmed(outs: seq<Payment>, less: seq<Payment>) {
    && |less| <= |outs|
    && (forall i :: 0 <= i < |less| - 1 ==> less[i] == outs[i])
    && (less != [] ==> less[|less| - 1].scriptLen == outs[|less| - 1].scriptLen)
  }

  lemma RetryTrims(p: Purse, outs: seq<Payment>, k: nat)
    requires 0 < k <= |All(p)|
    ensures match Retried(p, outs, k) case Over(r) => !r.Built? case Again(less) => Trimmed(outs, less)
  {
    hide Lack, RetryFee, MinOutputAmount, Sum, All;
  }

  /** The fee asked for before a retry is the fee of a transaction with all inputs, those outputs and change, as long as
      the scripts have 25 bytes and there are less than 253 inputs and outputs; with more it leaves out what the longer
      counts take. */
  lemma RetryFeeExactly(p: Purse, outs: seq<Payment>)
    requires forall o :: o in outs ==> o.scriptLen == 25
    ensures
      var n, counts := |p.utxos|, VarIntSize(|p.utxos|) + VarIntSize(|outs|) - 2;
      && TxSize(n, outs) + TX_OUTPUT_SIZE == 10 + 148 * n + 34 * (|outs| + 1) + counts
      && (counts == 0 <==> n < 253 && |outs| < 253)
      && (counts == 0 ==> RetryFee(p, |outs|) == BaseFee(p, outs, n))
      && RetryFee(p, |outs|) <= BaseFee(p, outs, n)
  {
    hide TxFee;
    AllOfSize(outs);
    var n := |p.utxos|;
    TxFeeMonotone(p.feePerKb, 10 + n * TxCodec.TX_INPUT_SIZE + (|outs| + 1) * TX_OUTPUT_SIZE,
                  TxSize(n, outs) + TX_OUTPUT_SIZE);
  }

  lemma {:induction false} AllOfSize(outs: seq<Payment>)
    requires forall o :: o in outs ==> o.scriptLen == 25
    ensures SumBy(SizeOf, outs) == 34 * |outs|
  {
    if outs != [] { AllOfSize(outs[..|outs| - 1]); }
  }

  lemma TrimmedNot(outs: seq<Payment>)
    ensures Trimmed(outs, outs)
  {
  }

  lemma TrimmedTwice(outs: seq<Payment>, next: seq<Payment>, less: seq<Payment>)
    requires Trimmed(outs, next) && Trimmed(next, less)
    ensures Trimmed(outs, less)
  {
  }

  /** However often it is tried again, a transaction that is built pays for the outputs it is left with. */
  lemma {:induction false} RetrySound(p: Purse, outs: seq<Payment>, changeLen: nat, depth: nat, r: Outcome)
    returns (less: seq<Payment>, k: nat)
    requires Results(p, outs, changeLen, depth, r) && r.Built?
    ensures Trimmed(outs, less) && Ends(p, less, Settled(k)) && Enough(p, less, k)
    ensures r.inputs == All(p)[..k] && multiset(r.outputs) == multiset(less + Change(p, less, k, changeLen))
    decreases depth
  {
    hide Enough, Change, All, MinOutputAmount, Retried, Stops, Fits, Trimmed;
    var w :| Ends(p, outs, w) && Comes(p, outs, changeLen, depth, w, r);
    if w.Settled? {
      less, k := outs, w.k;
      TrimmedNot(outs);
    } else {
      RetryTrims(p, outs, w.k);
      var next := Retried(p, outs, w.k).outs;
      less, k := RetrySound(p, next, changeLen, depth - 1, r);
      TrimmedTwice(outs, next, less);
    }
  }

  lemma SumOfLast(f: Payment -> nat, outs: seq<Payment>, o: Payment)
    requires outs != []
    ensures SumBy(f, outs[|outs| - 1 := o]) == SumBy(f, outs[..|outs| - 1]) + f(o)
  {
    assert outs[|outs| - 1 := o][..|outs| - 1] == outs[..|outs| - 1];
  }

  /** Changing the last amount changes the sum by as much and no size. */
  lemma ReducedBy(outs: seq<Payment>, lack: int)
    requires outs != [] && outs[|outs| - 1].amount >= lack
    ensures Sum(Reduced(outs, lack)) == Sum(outs) - lack
    ensures forall j: nat :: TxSize(j, Reduced(outs, lack)) == TxSize(j, outs)
  {
    var m := |outs| - 1;
    var o := Payment(outs[m].amount - lack, outs[m].scriptLen);
    SumOfLast(AmountOf, outs, o);
    SumOfLast(AmountOf, outs, outs[m]);
    SumOfLast(SizeOf, outs, o);
    SumOfLast(SizeOf, outs, outs[m]);
    assert outs[m := outs[m]] == outs;
  }

  /** What follows a transaction that has become too large.  Where the balance covers the outputs and the fee asked for,
      the last output takes the rest of what the inputs that fit are worth, if that is more than the minimum and at the
      same fee makes them come out even; otherwise it is dropped. */
  lemma RetriedExactly(p: Purse, outs: seq<Payment>, k: nat)
    requires 0 < k <= |All(p)|
    ensures Retried(p, outs, k) == Over(Oversize) <==> p.balance < Sum(outs) + RetryFee(p, |outs|)
    ensures Retried(p, outs, k) == Over(Astray) <==> outs == [] && p.balance >= RetryFee(p, 0)
    ensures outs != [] && p.balance >= Sum(outs) + RetryFee(p, |outs|) ==>
              var m := |outs| - 1;
              var rest := Funds(p, k - 1) - Fee(p, outs, k - 1) - Sum(outs[..m]);
              && Retried(p, outs, k).Again?
              && var less := Retried(p, outs, k).outs;
              && (rest > MinOutputAmount(p.feePerKb) ==>
                    less == outs[..m] + [Payment(rest, outs[m].scriptLen)]
                    && Sum(less) + Fee(p, outs, k - 1) == Funds(p, k - 1))
              && (rest <= MinOutputAmount(p.feePerKb) ==> less == outs[..m])
  {
    hide Fee, Funds, RetryFee, MinOutputAmount, All;
    if outs != [] {
      var m := |outs| - 1;
      SumOfLast(AmountOf, outs, outs[m]);
      assert outs[m := outs[m]] == outs;
      if outs[m].amount > Lack(p, outs, k) + MinOutputAmount(p.feePerKb) {
        ReducedBy(outs, Lack(p, outs, k));
      }
    }
  }

  // The outputs take what the inputs before the k-th are worth, but for the fee and less than 100.
  predicate Near(p: Purse, outs: seq<Payment>, k: nat)
    requires 1 < k <= |All(p)|
  {
    0 <= Funds(p, k - 1) - Sum(outs) - BaseFee(p, outs, k - 1) < 100
  }

  // What the wallet holds beyond the inputs before the k-th is a multiple of 100.
  predicate RestIsRound(p: Purse, k: nat)
    requires 1 < k <= |All(p)|
  {
    (p.balance - Funds(p, k - 1)) % 100 == 0
  }

  /** Then those inputs are spent whole exactly if the rest of the wallet holds a multiple of 100; otherwise they miss
      by less than 100. */
  lemma NearStopsExactly(p: Purse, outs: seq<Payment>, k: nat)
    requires 1 < k <= |All(p)| && Near(p, outs, k) && Funds(p, k - 1) <= p.balance
    ensures Stops(p, outs, k - 1) <==> RestIsRound(p, k)
    ensures -100 < Lack(p, outs, k) < 100 && (Stops(p, outs, k - 1) <==> Lack(p, outs, k) == 0)
  {
    MinOutputPositive(p.feePerKb);
    hide BaseFee, Sum, Funds, All, MinOutputAmount;
    RoundedTwice(p.balance - Funds(p, k - 1), Funds(p, k - 1) - Sum(outs) - BaseFee(p, outs, k - 1));
  }

  lemma RoundedTwice(rest: nat, round: nat)
    requires round < 100
    ensures (rest + round) % 100 == round <==> rest % 100 == 0
  {
  }

  /** A retry that changes the last output makes the outputs and the fee just computed take exactly what the inputs
      before the k-th are worth. */
  lemma RetrySpendsAll(p: Purse, outs: seq<Payment>, k: nat)
    requires 1 < k <= |All(p)| && outs != [] && outs[|outs| - 1].amount >= Lack(p, outs, k)
    ensures Sum(Reduced(outs, Lack(p, outs, k))) + Fee(p, outs, k - 1) == Funds(p, k - 1)
    ensures Near(p, Reduced(outs, Lack(p, outs, k)), k)
  {
    ReducedBy(outs, Lack(p, outs, k));
    hide TxSize, TxFee, Sum, Funds, All, Reduced;
  }

  // The k-th input makes the transaction too large; each one before the last of those that fit is worth 100 more than
  // its fee; the last output can take the changes; and the wallet covers the fee that the retry asks for.
  ghost predicate Drawn(p: Purse, outs: seq<Payment>, k: nat) {
    && 1 < k <= |All(p)| && outs != [] && Fits(outs, k - 1) && !Fits(outs, k)
    && (forall i: nat :: 0 < i < k - 1 ==>
          Funds(p, i) + BaseFee(p, outs, k - 1) + 100 <= Funds(p, k - 1) + BaseFee(p, outs, i))
    && Funds(p, k - 1) >= BaseFee(p, outs, k - 1) + Sum(outs[..|outs| - 1]) + MinOutputAmount(p.feePerKb) + 200
    && p.balance >= Funds(p, k - 1)
    && p.balance + BaseFee(p, outs, k - 1) >= Funds(p, k - 1) + RetryFee(p, |outs|)
  }

  lemma CutOff(p: Purse, outs: seq<Payment>, changeLen: nat, r: Outcome)
    requires Results(p, outs, changeLen, 0, r)
    ensures r == Exhausted
  {
  }

  lemma TriedAgain(p: Purse, outs: seq<Payment>, changeLen: nat, k: nat, less: seq<Payment>, depth: nat, r: Outcome)
    requires 0 < depth && 0 < k <= |All(p)| && Ends(p, outs, TooLarge(k)) && Retried(p, outs, k) == Again(less)
    requires Results(p, outs, changeLen, depth, r)
    ensures Results(p, less, changeLen, depth - 1, r)
  {
    hide Retried;
    var w :| Ends(p, outs, w) && Comes(p, outs, changeLen, depth, w, r);
    EndsOnce(p, outs, w, TooLarge(k));
  }

  lemma DrawnParts(p: Purse, outs: seq<Payment>, k: nat)
    requires Drawn(p, outs, k)
    ensures 1 < k <= |All(p)| && outs != [] && Funds(p, k - 1) <= p.balance
    ensures Near(p, outs, k) ==> p.balance >= Sum(outs) + RetryFee(p, |outs|)
  {
    hide Fits, Funds, All, Sum, BaseFee, RetryFee, MinOutputAmount;
  }

  lemma DrawnStill(p: Purse, outs: seq<Payment>, lack: int, k: nat)
    requires Drawn(p, outs, k) && outs[|outs| - 1].amount >= lack
    ensures Drawn(p, Reduced(outs, lack), k)
  {
    ReducedBy(outs, lack);
    var less := Reduced(outs, lack);
    assert less[..|less| - 1] == outs[..|outs| - 1];
    hide TxSize, TxFee, Sum, Funds, All, MinOutputAmount, Reduced, RetryFee;
    forall i: nat ensures BaseFee(p, less, i) == BaseFee(p, outs, i) && Fits(less, i) == Fits(outs, i) {}
  }

  /** The walk over such a wallet ends with the k-th input, if not one before. */
  lemma DrawnEnds(p: Purse, outs: seq<Payment>, k: nat)
    requires Drawn(p, outs, k) && Near(p, outs, k)
    ensures Ends(p, outs, if Stops(p, outs, k - 1) then Settled(k - 1) else TooLarge(k))
  {
    hide Sum, Funds, All, MinOutputAmount, BaseFee, RetryFee, Fits;
    forall i: nat | 0 < i < k - 1
      ensures Fits(outs, i) && !Stops(p, outs, i)
    {
      FitsBelow(outs, i, k - 1);
    }
  }

  /** Such a wallet is tried again with the same outputs but for the amount of the last one. */
  lemma DrawnRetries(p: Purse, outs: seq<Payment>, k: nat)
    requires Drawn(p, outs, k) && p.balance >= Sum(outs) + RetryFee(p, |outs|)
    ensures outs[|outs| - 1].amount > Lack(p, outs, k) + MinOutputAmount(p.feePerKb)
    ensures Retried(p, outs, k) == Again(Reduced(outs, Lack(p, outs, k)))
  {
    SumBySnoc(AmountOf, outs[..|outs| - 1], outs[|outs| - 1]);
    assert outs[..|outs| - 1] + [outs[|outs| - 1]] == outs;
    hide SumBy, Funds, All, MinOutputAmount, BaseFee, RetryFee, Fits;
  }

  /** While the rest of the wallet holds no multiple of 100, every try asks for another one. */
  lemma {:induction false} NeverSettles(p: Purse, outs: seq<Payment>, changeLen: nat, k: nat, depth: nat, r: Outcome)
    requires Drawn(p, outs, k) && Near(p, outs, k) && !RestIsRound(p, k)
    requires Results(p, outs, changeLen, depth, r)
    ensures r == Exhausted
    decreases depth
  {
    hide *;
    if depth == 0 {
      CutOff(p, outs, changeLen, r);
    } else {
      DrawnParts(p, outs, k);
      NearStopsExactly(p, outs, k);
      DrawnEnds(p, outs, k);
      DrawnRetries(p, outs, k);
      var less := Reduced(outs, Lack(p, outs, k));
      TriedAgain(p, outs, changeLen, k, less, depth, r);
      RetrySpendsAll(p, outs, k);
      DrawnStill(p, outs, Lack(p, outs, k), k);
      NeverSettles(p, less, changeLen, k, depth - 1, r);
    }
  }

  /** With a wallet that has more than one transaction can spend, the recursion ends, with a transaction that spends all
      inputs that fit and leaves no change, exactly if the rest of the wallet holds a multiple of 100. */
  lemma RetryEndsExactly(p: Purse, outs: seq<Payment>, changeLen: nat, k: nat, depth: nat, r: Outcome)
    requires Drawn(p, outs, k) && p.balance >= Sum(outs) + RetryFee(p, |outs|)
    requires Ends(p, outs, TooLarge(k)) && Results(p, outs, changeLen, depth, r)
    ensures !RestIsRound(p, k) ==> r == Exhausted
    ensures RestIsRound(p, k) && depth >= 2 ==>
              && r.Built? && r.inputs == All(p)[..k - 1]
              && outs[|outs| - 1].amount >= Lack(p, outs, k)
              && multiset(r.outputs) == multiset(Reduced(outs, Lack(p, outs, k)))
  {
    hide *;
    DrawnParts(p, outs, k);
    if depth == 0 {
      CutOff(p, outs, changeLen, r);
      return;
    }
    DrawnRetries(p, outs, k);
    LackBounded(p, outs, k);
    var less := Reduced(outs, Lack(p, outs, k));
    TriedAgain(p, outs, changeLen, k, less, depth, r);
    RetrySpendsAll(p, outs, k);
    DrawnStill(p, outs, Lack(p, outs, k), k);
    DrawnParts(p, less, k);
    NearStopsExactly(p, less, k);
    if !RestIsRound(p, k) {
      NeverSettles(p, less, changeLen, k, depth - 1, r);
    } else if depth >= 2 {
      DrawnEnds(p, less, k);
      SettlesThere(p, less, changeLen, k, depth - 1, r);
    }
  }

  lemma SettlesThere(p: Purse, less: seq<Payment>, changeLen: nat, k: nat, depth: nat, r: Outcome)
    requires depth > 0 && 1 < k <= |All(p)| && less != []
    requires Ends(p, less, Settled(k - 1)) && Lack(p, less, k) == 0 && Results(p, less, changeLen, depth, r)
    ensures r.Built? && r.inputs == All(p)[..k - 1] && multiset(r.outputs) == multiset(less)
  {
    var w :| Ends(p, less, w) && Comes(p, less, changeLen, depth, w, r);
    EndsOnce(p, less, w, Settled(k - 1));
    assert less + [] == less;
    MinOutputPositive(p.feePerKb);
    hide Ends, Fee, Sum, Funds, All, MinOutputAmount;
  }

  lemma MinOutputPositive(feePerKb: nat)
    ensures MinOutputAmount(feePerKb) >= TX_MIN_OUTPUT_AMOUNT > 100
  {
  }

  // ---------- where the promises stop ----------

  // A wallet with one UTXO.
  function OneCoin(amount: nat, feePerKb: nat): Purse {
    var tx := Tx(1, [TxInput(UTXO(9, 0), UINT32_MAX)], [TxOutput("a", amount)], 0, 100, 1, 0);
    Purse(Env(map[1 := tx], {"a"}, 1, 0), [UTXO(1, 0)], amount, feePerKb)
  }

  lemma OneCoinFunds(amount: nat, feePerKb: nat)
    ensures var p := OneCoin(amount, feePerKb); All(p) == [UTXO(1, 0)] && Funds(p, 0) == 0 && Funds(p, 1) == amount
  {
    var p := OneCoin(amount, feePerKb);
    assert p.utxos[..0] == [] && Usable(p.env, []) == [];
    assert All(p) == [UTXO(1, 0)];
    assert All(p)[..1] == [UTXO(1, 0)] && [UTXO(1, 0)][..0] == [] && Total(p.env, []) == 0;
  }

  /** BRWalletMaxOutputAmount reckons with two outputs of 34 bytes, so at the default fee rate the amount it returns
      cannot be sent to a script of 34 bytes (P2WSH). */
  lemma LongScriptFails(w: Walk)
    requires Ends(OneCoin(1000000, 10000), [Payment(997700, 34)], w)
    ensures MaxOutput(OneCoin(1000000, 10000)) == 997700
    ensures w.Settled? && !Enough(OneCoin(1000000, 10000), [Payment(997700, 34)], w.k)
  {
  }

  lemma {:induction false} Uniform(f: Payment -> nat, n: nat, o: Payment)
    ensures SumBy(f, seq(n, i => o)) == n * f(o)
  {
    if n > 0 {
      Uniform(f, n - 1, o);
      SumBySnoc(f, seq(n - 1, i => o), o);
      assert seq(n, i => o) == seq(n - 1, i => o) + [o];
    }
  }

  /** With 252 requested outputs the change makes 253, whose count takes three bytes: the fee can then be below the
      one for the final size. */
  lemma ManyOutputsUnderpay(paid: seq<Payment>)
    requires var p, outs := OneCoin(25738000, 50000), seq(252, i => Payment(100000, 25));
      |All(p)| == 1 && Enough(p, outs, 1) && multiset(paid) == multiset(outs + Change(p, outs, 1, 25))
    ensures var p, outs := OneCoin(25738000, 50000), seq(252, i => Payment(100000, 25));
      Stops(p, outs, 1) && TxFee(p.feePerKb, TxSize(1, paid)) > Funds(p, 1) - Sum(paid)
  {
    var p, o := OneCoin(25738000, 50000), Payment(100000, 25);
    var outs := seq(252, i => o);
    OneCoinFunds(25738000, 50000);
    Uniform(AmountOf, 252, o);
    Uniform(SizeOf, 252, o);
    assert outs == seq(252, i => Payment(100000, 25));
    hide Usable, Funds, SumBy;
    var change := Change(p, outs, 1, 25);
    assert change == [Payment(100000, 25)];
    SumByPermutation(AmountOf, paid, outs + change);
    SumByPermutation(SizeOf, paid, outs + change);
    SumBySnoc(AmountOf, outs, change[0]);
    SumBySnoc(SizeOf, outs, change[0]);
  }

  // A wallet with n UTXOs of the same amount, which one transaction paid.
  function ManyCoins(n: nat, amount: nat): Purse {
    var outputs := seq(n, i => TxOutput("a", amount));
    var tx := Tx(1, [TxInput(UTXO(9, 0), UINT32_MAX)], outputs, 0, 100, 1, 0);
    Purse(Env(map[1 := tx], {"a"}, 1, 0), seq(n, i requires 0 <= i < n => UTXO(1, i)), n * amount, 1000)
  }

  lemma {:induction false} WorthAlike(env: Env, utxos: seq<UTXO>, amount: nat)
    requires forall u :: u in utxos ==> Amount(env, u) == amount
    ensures Total(env, utxos) == amount * |utxos|
  {
    if utxos != [] {
      hide Amount;
      WorthAlike(env, utxos[..|utxos| - 1], amount);
    }
  }

  lemma ManyCoinsWorth(n: nat, amount: nat, k: nat)
    requires k <= n
    ensures var p := ManyCoins(n, amount); All(p) == p.utxos && Total(p.env, p.utxos[..k]) == amount * k
  {
    hide Usable, Total;
    var p := ManyCoins(n, amount);
    assert forall u :: u in p.utxos ==> Resolves(p.env, u) && Amount(p.env, u) == amount;
    AllUsable(p.env, p.utxos);
    WorthAlike(p.env, p.utxos[..k], amount);
  }

  lemma ManyCoinsDrawn(p: Purse, outs: seq<Payment>)
    requires p.feePerKb == 1000 && |p.utxos| == |All(p)| == 676 && p.balance == 67633800
    requires outs == [Payment(67500000, 25)] && forall k: nat :: k <= 676 ==> Funds(p, k) == 100050 * k
    ensures Drawn(p, outs, 676) && Ends(p, outs, TooLarge(676))
  {
    SumBySnoc(AmountOf, [], outs[0]);
    SumBySnoc(SizeOf, [], outs[0]);
    assert [] + outs == outs && outs[..0] == [];
    hide All, Funds, SumBy;
  }

  /** At the least fee rate, 676 coins of 100050 are one more than a transaction can spend: asked for 67500000, the code
      calls itself again without end. */
  lemma RetryNeverEnds(changeLen: nat, depth: nat, r: Outcome)
    requires Results(ManyCoins(676, 100050), [Payment(67500000, 25)], changeLen, depth, r)
    ensures r == Exhausted
  {
    var p := ManyCoins(676, 100050);
    ManyCoinsWorth(676, 100050, 0);
    forall k: nat | k <= 676
      ensures Funds(p, k) == 100050 * k
    {
      ManyCoinsWorth(676, 100050, k);
    }
    hide All, Funds, Drawn, Ends;
    ManyCoinsDrawn(p, [Payment(67500000, 25)]);
    SumBySnoc(AmountOf, [], Payment(67500000, 25));
    assert [] + [Payment(67500000, 25)] == [Payment(67500000, 25)];
    RetryEndsExactly(p, [Payment(67500000, 25)], changeLen, 676, depth, r);
  }
}
