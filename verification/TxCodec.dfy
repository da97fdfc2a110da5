/** The transaction wire format of BRTransaction.c, with the variable-length integers of BRAddress.c. */
module TxCodec {
  import opened Bytes
  import opened Prelude
  import Arith

  // signature is None for a null pointer; an empty scriptSig is Some([])
  datatype Input = Input(txHash: seq<Byte>, index: nat, amount: nat, script: seq<Byte>, signature: Option<seq<Byte>>,
                         sequence: nat)
  datatype Output = Output(amount: nat, script: seq<Byte>)
  datatype Tx = Tx(version: nat, inputs: seq<Input>, outputs: seq<Output>, lockTime: nat)

  const U32: nat := 0x1_0000_0000
  const U64: nat := 0x1_0000_0000_0000_0000

  // ---------- integers ----------

  // The n little-endian bytes of v.
  function LE(v: nat, n: nat): (s: seq<Byte>)
    ensures |s| == n
  {
    if n == 0 then [] else [v % 256] + LE(v / 256, n - 1)
  }

  lemma {:induction false} LittleLE(v: nat, n: nat)
    requires v < Pow256(n)
    ensures Little(LE(v, n)) == v
  {
    if n > 0 {
      QuotientBelow(v, Pow256(n - 1));
      LittleLE(v / 256, n - 1);
      assert LE(v, n)[1..] == LE(v / 256, n - 1);
    }
  }

  lemma QuotientBelow(v: nat, p: nat)
    requires v < 256 * p
    ensures v / 256 < p
  {
  }

  lemma Widths()
    ensures Pow256(1) == 0x100 && Pow256(2) == 0x1_0000 && Pow256(4) == U32 && Pow256(8) == U64
  {
  }

  // The integer of n bytes at off; 0 when the buffer ends before.
  function ReadLE(buf: seq<Byte>, off: nat, n: nat): nat {
    if off + n <= |buf| then Little(buf[off..off + n]) else 0
  }

  function VarInt(i: nat): (s: seq<Byte>)
    ensures |s| == VarIntSize(i)
  {
    if i < 0xfd then [i]
    else if i <= 0xffff then [0xfd] + LE(i, 2)
    else if i < U32 then [0xfe] + LE(i, 4)
    else [0xff] + LE(i, 8)
  }

  // Byte k of a little-endian integer.
  lemma {:induction false} LEByte(v: nat, n: nat, k: nat)
    requires k < n
    ensures LE(v, n)[k] == v / Pow256(k) % 256
  {
    if k > 0 {
      LEByte(v / 256, n - 1, k - 1);
      Arith.DivDiv(v, 256, Pow256(k - 1));
    }
  }

  /** What is written for every integer: a byte below 253, and a marker and two, four or eight bytes, lowest first. */
  lemma VarIntExactly(i: nat)
    requires i < U64
    ensures |VarInt(i)| == if i < 253 then 1 else if i < 65536 then 3 else if i < 4294967296 then 5 else 9
    ensures VarInt(i)[0] == if i < 253 then i else if i < 65536 then 253 else if i < 4294967296 then 254 else 255
    ensures forall k :: 1 <= k < |VarInt(i)| ==> VarInt(i)[k] == i / Pow256(k - 1) % 256
  {
    hide LE, Pow256;
    forall k | 1 <= k < |VarInt(i)|
      ensures VarInt(i)[k] == i / Pow256(k - 1) % 256
    {
      LEByte(i, |VarInt(i)| - 1, k - 1);
    }
  }

  // The first byte of a variable-length integer says how many bytes follow it.
  function Follows(h: Byte): nat { if h == 0xfd then 2 else if h == 0xfe then 4 else if h == 0xff then 8 else 0 }

  // BRVarInt: the value and the length of the integer at off.
  function ReadVarInt(buf: seq<Byte>, off: nat): (nat, nat) {
    var h := if off < |buf| then buf[off] else 0;
    if Follows(h) == 0 then (h, 1) else (ReadLE(buf, off + 1, Follows(h)), 1 + Follows(h))
  }

  lemma ReadLEAt(a: seq<Byte>, v: nat, n: nat, c: seq<Byte>)
    requires v < Pow256(n)
    ensures ReadLE(a + LE(v, n) + c, |a|, n) == v
  {
  }

  lemma ReadVarIntAt(a: seq<Byte>, i: nat, c: seq<Byte>)
    requires i < U64
    ensures ReadVarInt(a + VarInt(i) + c, |a|) == (i, VarIntSize(i))
  {
    hide LE, ReadLE, Pow256;
    Widths();
    var buf := a + VarInt(i) + c;
    var n := VarIntSize(i) - 1;
    assert buf[|a|] == VarInt(i)[0];
    if n > 0 {
      var b := a + [VarInt(i)[0]];
      ReadLEAt(b, i, n, c);
      assert buf == b + LE(i, n) + c;
    }
  }

  // ---------- serialization ----------

  // The script that stands where the signature goes, and the amount that marks an unsigned input.
  function InputBytes(input: Input): seq<Byte> {
    var sig := if input.signature.Some? then input.signature.value else input.script;
    var amount := if input.signature.Some? then 0 else input.amount;
    input.txHash + LE(input.index, 4) + VarInt(|sig|) + sig + (if amount != 0 then LE(amount, 8) else [])
    + LE(input.sequence, 4)
  }

  /** Where the parts of an input lie: the hash, the index, the length and the bytes of what stands for the signature,
      for an unsigned input the amount if there is one, and the sequence number at the end. */
  lemma InputLayout(input: Input)
    requires |input.txHash| == 32
    ensures
      var b := InputBytes(input);
      var sig := if input.signature.Some? then input.signature.value else input.script;
      var p := 36 + |VarInt(|sig|)|;
      && |b| == p + |sig| + (if input.signature.None? && input.amount > 0 then 12 else 4)
      && b[..32] == input.txHash && b[32..36] == LE(input.index, 4)
      && b[36..p] == VarInt(|sig|) && b[p..p + |sig|] == sig && b[|b| - 4..] == LE(input.sequence, 4)
      && (input.signature.None? && input.amount > 0 ==> b[p + |sig|..p + |sig| + 8] == LE(input.amount, 8))
  {
    hide LE, VarInt;
    var sig := if input.signature.Some? then input.signature.value else input.script;
    var h, x, v := input.txHash, LE(input.index, 4), VarInt(|sig|);
    var a := if input.signature.None? && input.amount > 0 then LE(input.amount, 8) else [];
    var e := LE(input.sequence, 4);
    assert InputBytes(input) == h + x + v + sig + a + e;
    Parts(h, x, v, sig, a, e);
  }

  lemma Parts(h: seq<Byte>, x: seq<Byte>, v: seq<Byte>, s: seq<Byte>, a: seq<Byte>, e: seq<Byte>)
    ensures
      var b := h + x + v + s + a + e;
      var p := |h| + |x| + |v|;
      && b[..|h|] == h && b[|h|..|h| + |x|] == x && b[|h| + |x|..p] == v && b[p..p + |s|] == s
      && b[p + |s|..p + |s| + |a|] == a && b[|b| - |e|..] == e
  {
  }

  function OutputBytes(o: Output): seq<Byte> { LE(o.amount, 8) + VarInt(|o.script|) + o.script }

  function InputsBytes(ins: seq<Input>): seq<Byte> {
    if ins == [] then [] else InputsBytes(ins[..|ins| - 1]) + InputBytes(ins[|ins| - 1])
  }

  function OutputsBytes(outs: seq<Output>): seq<Byte> {
    if outs == [] then [] else OutputsBytes(outs[..|outs| - 1]) + OutputBytes(outs[|outs| - 1])
  }

  function Serialized(tx: Tx): seq<Byte> {
    LE(tx.version, 4) + VarInt(|tx.inputs|) + InputsBytes(tx.inputs) + VarInt(|tx.outputs|) + OutputsBytes(tx.outputs)
    + LE(tx.lockTime, 4)
  }

  /** Where the parts of an output, and of a whole transaction, lie. */
  lemma OutputLayout(o: Output)
    ensures
      var b, p := OutputBytes(o), 8 + |VarInt(|o.script|)|;
      |b| == p + |o.script| && b[..8] == LE(o.amount, 8) && b[8..p] == VarInt(|o.script|) && b[p..] == o.script
  {
    hide LE, VarInt;
    var a, v := LE(o.amount, 8), VarInt(|o.script|);
    assert OutputBytes(o) == a + v + o.script;
    assert (a + v + o.script)[..8] == a && (a + v + o.script)[8..8 + |v|] == v;
    assert (a + v + o.script)[8 + |v|..] == o.script;
  }

  lemma TransactionLayout(tx: Tx)
    ensures
      var b, ins, outs := Serialized(tx), InputsBytes(tx.inputs), OutputsBytes(tx.outputs);
      var p := 4 + |VarInt(|tx.inputs|)|;
      var q := p + |ins| + |VarInt(|tx.outputs|)|;
      && |b| == q + |outs| + 4
      && b[..4] == LE(tx.version, 4) && b[4..p] == VarInt(|tx.inputs|) && b[p..p + |ins|] == ins
      && b[p + |ins|..q] == VarInt(|tx.outputs|) && b[q..q + |outs|] == outs && b[|b| - 4..] == LE(tx.lockTime, 4)
  {
    hide LE, VarInt, InputsBytes, OutputsBytes;
    var v, n, ins := LE(tx.version, 4), VarInt(|tx.inputs|), InputsBytes(tx.inputs);
    var m, outs, t := VarInt(|tx.outputs|), OutputsBytes(tx.outputs), LE(tx.lockTime, 4);
    Parts(v, n, ins, m, outs, t);
  }

  // ---------- parsing ----------

  // Which scripts are taken for a scriptPubKey.
  type Recognised = seq<Byte> -> bool

  // One input at off, and where it ends.
  function ReadInput(buf: seq<Byte>, off: nat, known: Recognised): (Input, nat) {
    var hash := if off + 32 <= |buf| then buf[off..off + 32] else Zeros(32);
    var index := ReadLE(buf, off + 32, 4);
    var (sLen, len) := ReadVarInt(buf, off + 36);
    var p := off + 36 + len;
    if p + sLen <= |buf| && known(buf[p..p + sLen]) then
      (Input(hash, index, ReadLE(buf, p + sLen, 8), buf[p..p + sLen], None, ReadLE(buf, p + sLen + 8, 4)),
       p + sLen + 12)
    else
      var sig := if p + sLen <= |buf| then Some(buf[p..p + sLen]) else None;
      (Input(hash, index, 0, [], sig, ReadLE(buf, p + sLen, 4)), p + sLen + 4)
  }

  function ReadOutput(buf: seq<Byte>, off: nat): (Output, nat) {
    var (sLen, len) := ReadVarInt(buf, off + 8);
    var p := off + 8 + len;
    (Output(ReadLE(buf, off, 8), if p + sLen <= |buf| then buf[p..p + sLen] else []), p + sLen)
  }

  // n inputs from off on; reading stops once the buffer is overrun.
  function ReadInputs(buf: seq<Byte>, off: nat, n: nat, known: Recognised): (seq<Input>, nat)
    decreases n
  {
    if n == 0 || off > |buf| then ([], off)
    else
      var (input, next) := ReadInput(buf, off, known);
      var (rest, end) := ReadInputs(buf, next, n - 1, known);
      ([input] + rest, end)
  }

  function ReadOutputs(buf: seq<Byte>, off: nat, n: nat): (seq<Output>, nat)
    decreases n
  {
    if n == 0 || off > |buf| then ([], off)
    else
      var (output, next) := ReadOutput(buf, off);
      var (rest, end) := ReadOutputs(buf, next, n - 1);
      ([output] + rest, end)
  }

  function Parsed(buf: seq<Byte>, known: Recognised): Option<Tx> {
    var (inCount, len1) := ReadVarInt(buf, 4);
    var (ins, off1) := ReadInputs(buf, 4 + len1, inCount, known);
    var (outCount, len2) := ReadVarInt(buf, off1);
    var (outs, off2) := ReadOutputs(buf, off1 + len2, outCount);
    if inCount == 0 || off2 + 4 > |buf| then None
    else Some(Tx(ReadLE(buf, 0, 4), ins, outs, ReadLE(buf, off2, 4)))
  }

  // ---------- parsing undoes serialization ----------

  // An input that can be read back: signed with something not taken for a scriptPubKey, or unsigned with a recognised
  // script and an amount.
  predicate Readable(input: Input, known: Recognised) {
    && |input.txHash| == 32 && input.index < U32 && input.sequence < U32
    && match input.signature
       case Some(sig) => |sig| < U64 && !known(sig)
       case None => |input.script| < U64 && known(input.script) && 0 < input.amount < U64
  }

  // What the wire carries of an input.
  function Carried(input: Input): Input {
    if input.signature.Some? then input.(amount := 0, script := []) else input
  }

  function CarriedAll(ins: seq<Input>): seq<Input> { seq(|ins|, i requires 0 <= i < |ins| => Carried(ins[i])) }

  predicate Fields(tx: Tx, known: Recognised) {
    && tx.version < U32 && tx.lockTime < U32 && |tx.inputs| < U64 && |tx.outputs| < U64
    && (forall i :: 0 <= i < |tx.inputs| ==> Readable(tx.inputs[i], known))
    && forall i :: 0 <= i < |tx.outputs| ==> tx.outputs[i].amount < U64 && |tx.outputs[i].script| < U64
  }

  lemma HeadReadsBack(a: seq<Byte>, hash: seq<Byte>, index: nat, n: nat, c: seq<Byte>)
    requires |hash| == 32 && index < U32 && n < U64
    ensures
      var buf := a + (hash + LE(index, 4) + VarInt(n)) + c;
      && buf[|a|..|a| + 32] == hash && ReadLE(buf, |a| + 32, 4) == index
      && ReadVarInt(buf, |a| + 36) == (n, VarIntSize(n))
  {
    hide LE, VarInt, ReadLE, ReadVarInt, Pow256;
    Widths();
    var buf := a + (hash + LE(index, 4) + VarInt(n)) + c;
    assert buf == (a + hash) + LE(index, 4) + (VarInt(n) + c);
    ReadLEAt(a + hash, index, 4, VarInt(n) + c);
    assert buf == (a + hash + LE(index, 4)) + VarInt(n) + c;
    ReadVarIntAt(a + hash + LE(index, 4), n, c);
  }

  lemma TailReadsBack(a: seq<Byte>, amount: nat, sequence: nat, c: seq<Byte>)
    requires amount < U64 && sequence < U32
    ensures ReadLE(a + (LE(amount, 8) + LE(sequence, 4)) + c, |a|, 8) == amount
    ensures ReadLE(a + (LE(amount, 8) + LE(sequence, 4)) + c, |a| + 8, 4) == sequence
  {
    hide LE, ReadLE, Pow256;
    Widths();
    var buf := a + (LE(amount, 8) + LE(sequence, 4)) + c;
    assert buf == a + LE(amount, 8) + (LE(sequence, 4) + c);
    ReadLEAt(a, amount, 8, LE(sequence, 4) + c);
    assert buf == (a + LE(amount, 8)) + LE(sequence, 4) + c;
    ReadLEAt(a + LE(amount, 8), sequence, 4, c);
  }

  lemma InputReadsBack(a: seq<Byte>, input: Input, c: seq<Byte>, known: Recognised)
    requires Readable(input, known)
    ensures ReadInput(a + InputBytes(input) + c, |a|, known) == (Carried(input), |a| + |InputBytes(input)|)
  {
    hide LE, VarInt, ReadLE, ReadVarInt, Pow256;
    Widths();
    if input.signature.Some? {
      SignedReadsBack(a, input, input.signature.value, c, known);
    } else {
      UnsignedReadsBack(a, input, c, known);
    }
  }

  lemma SignedReadsBack(a: seq<Byte>, input: Input, sig: seq<Byte>, c: seq<Byte>, known: Recognised)
    requires Readable(input, known) && input.signature == Some(sig)
    ensures ReadInput(a + InputBytes(input) + c, |a|, known) == (Carried(input), |a| + |InputBytes(input)|)
  {
    hide LE, VarInt, ReadLE, ReadVarInt, Pow256;
    Widths();
    var head, tail := input.txHash + LE(input.index, 4) + VarInt(|sig|), LE(input.sequence, 4);
    var buf := a + InputBytes(input) + c;
    assert InputBytes(input) == head + sig + tail;
    assert buf == a + head + (sig + tail + c);
    HeadReadsBack(a, input.txHash, input.index, |sig|, sig + tail + c);
    assert buf == (a + head) + sig + (tail + c);
    assert buf[|a + head|..|a + head| + |sig|] == sig;
    assert buf == (a + head + sig) + tail + c;
    ReadLEAt(a + head + sig, input.sequence, 4, c);
  }

  lemma UnsignedReadsBack(a: seq<Byte>, input: Input, c: seq<Byte>, known: Recognised)
    requires Readable(input, known) && input.signature == None
    ensures ReadInput(a + InputBytes(input) + c, |a|, known) == (Carried(input), |a| + |InputBytes(input)|)
  {
    hide LE, VarInt, ReadLE, ReadVarInt, Pow256;
    var sig := input.script;
    var head, tail := input.txHash + LE(input.index, 4) + VarInt(|sig|), LE(input.amount, 8) + LE(input.sequence, 4);
    var buf := a + InputBytes(input) + c;
    assert InputBytes(input) == head + sig + tail;
    assert buf == a + head + (sig + tail + c);
    HeadReadsBack(a, input.txHash, input.index, |sig|, sig + tail + c);
    assert buf == (a + head) + sig + (tail + c);
    assert buf[|a + head|..|a + head| + |sig|] == sig;
    assert buf == (a + head + sig) + tail + c;
    TailReadsBack(a + head + sig, input.amount, input.sequence, c);
  }

  lemma OutputReadsBack(a: seq<Byte>, o: Output, c: seq<Byte>)
    requires o.amount < U64 && |o.script| < U64
    ensures ReadOutput(a + OutputBytes(o) + c, |a|) == (o, |a| + |OutputBytes(o)|)
  {
    hide LE, VarInt, ReadLE, ReadVarInt, Pow256;
    Widths();
    var buf := a + OutputBytes(o) + c;
    var a1 := a + LE(o.amount, 8);
    var a2 := a1 + VarInt(|o.script|);
    assert buf == a + LE(o.amount, 8) + (VarInt(|o.script|) + o.script + c);
    ReadLEAt(a, o.amount, 8, VarInt(|o.script|) + o.script + c);
    assert buf == a1 + VarInt(|o.script|) + (o.script + c);
    ReadVarIntAt(a1, |o.script|, o.script + c);
    assert buf[|a2|..|a2| + |o.script|] == o.script;
  }

  lemma {:induction false} InputsCons(ins: seq<Input>)
    requires ins != []
    ensures InputsBytes(ins) == InputBytes(ins[0]) + InputsBytes(ins[1..])
  {
    hide InputBytes;
    var m := |ins| - 1;
    if m > 0 {
      InputsCons(ins[..m]);
      assert ins[..m][1..] == ins[1..][..m - 1] && ins[..m][0] == ins[0] && ins[1..][m - 1] == ins[m];
    } else {
      assert ins[..0] == [] && ins[1..] == [];
    }
  }

  lemma {:induction false} OutputsCons(outs: seq<Output>)
    requires outs != []
    ensures OutputsBytes(outs) == OutputBytes(outs[0]) + OutputsBytes(outs[1..])
  {
    hide OutputBytes;
    var m := |outs| - 1;
    if m > 0 {
      OutputsCons(outs[..m]);
      assert outs[..m][1..] == outs[1..][..m - 1] && outs[..m][0] == outs[0] && outs[1..][m - 1] == outs[m];
    } else {
      assert outs[..0] == [] && outs[1..] == [];
    }
  }

  lemma {:induction false} InputsReadBack(a: seq<Byte>, ins: seq<Input>, c: seq<Byte>, known: Recognised)
    requires forall i :: 0 <= i < |ins| ==> Readable(ins[i], known)
    ensures ReadInputs(a + InputsBytes(ins) + c, |a|, |ins|, known) == (CarriedAll(ins), |a| + |InputsBytes(ins)|)
    decreases |ins|
  {
    hide InputBytes, ReadInput, Readable, Carried;
    if ins != [] {
      InputsCons(ins);
      hide InputsBytes;
      var first, rest := InputBytes(ins[0]), InputsBytes(ins[1..]);
      var buf := a + InputsBytes(ins) + c;
      InputReadsBack(a, ins[0], rest + c, known);
      assert buf == a + first + (rest + c);
      InputsReadBack(a + first, ins[1..], c, known);
      assert buf == (a + first) + rest + c;
      assert CarriedAll(ins) == [Carried(ins[0])] + CarriedAll(ins[1..]);
    }
  }

  lemma {:induction false} OutputsReadBack(a: seq<Byte>, outs: seq<Output>, c: seq<Byte>)
    requires forall i :: 0 <= i < |outs| ==> outs[i].amount < U64 && |outs[i].script| < U64
    ensures ReadOutputs(a + OutputsBytes(outs) + c, |a|, |outs|) == (outs, |a| + |OutputsBytes(outs)|)
    decreases |outs|
  {
    hide OutputBytes, ReadOutput;
    if outs != [] {
      OutputsCons(outs);
      hide OutputsBytes;
      var first, rest := OutputBytes(outs[0]), OutputsBytes(outs[1..]);
      var buf := a + OutputsBytes(outs) + c;
      OutputReadsBack(a, outs[0], rest + c);
      assert buf == a + first + (rest + c);
      OutputsReadBack(a + first, outs[1..], c);
      assert buf == (a + first) + rest + c;
      assert outs == [outs[0]] + outs[1..];
    }
  }

  /** A transaction with readable inputs is read back with the fields that the wire carries, whatever follows it; one
      without inputs is refused. */
  lemma ParseUndoesSerialize(tx: Tx, tail: seq<Byte>, known: Recognised)
    requires Fields(tx, known)
    ensures Parsed(Serialized(tx) + tail, known)
            == if tx.inputs == [] then None else Some(tx.(inputs := CarriedAll(tx.inputs)))
  {
    hide LE, VarInt, ReadLE, ReadVarInt, Pow256, InputsBytes, OutputsBytes, ReadInputs, ReadOutputs, Readable,
         CarriedAll;
    Widths();
    var buf := Serialized(tx) + tail;
    var v, ni, ib := LE(tx.version, 4), VarInt(|tx.inputs|), InputsBytes(tx.inputs);
    var no, ob, lt := VarInt(|tx.outputs|), OutputsBytes(tx.outputs), LE(tx.lockTime, 4);
    assert buf == [] + v + (ni + ib + no + ob + lt + tail);
    ReadLEAt([], tx.version, 4, ni + ib + no + ob + lt + tail);
    assert buf == v + ni + (ib + no + ob + lt + tail);
    ReadVarIntAt(v, |tx.inputs|, ib + no + ob + lt + tail);
    assert buf == (v + ni) + ib + (no + ob + lt + tail);
    InputsReadBack(v + ni, tx.inputs, no + ob + lt + tail, known);
    assert buf == (v + ni + ib) + no + (ob + lt + tail);
    ReadVarIntAt(v + ni + ib, |tx.outputs|, ob + lt + tail);
    assert buf == (v + ni + ib + no) + ob + (lt + tail);
    OutputsReadBack(v + ni + ib + no, tx.outputs, lt + tail);
    assert buf == (v + ni + ib + no + ob) + lt + tail;
    ReadLEAt(v + ni + ib + no + ob, tx.lockTime, 4, tail);
  }

  // ---------- serializing what was parsed ----------

  // The integer at off is written with as few bytes as its value takes.
  predicate ShortAt(buf: seq<Byte>, off: nat) { ReadVarInt(buf, off).1 == VarIntSize(ReadVarInt(buf, off).0) }

  // The input at off has a shortest length, and an amount if its script is recognised.
  predicate ShortInput(buf: seq<Byte>, off: nat, known: Recognised) {
    && ShortAt(buf, off + 36)
    && (ReadInput(buf, off, known).0.signature.None? ==> ReadInput(buf, off, known).0.amount != 0)
  }

  predicate ShortInputs(buf: seq<Byte>, off: nat, n: nat, known: Recognised)
    decreases n
  {
    n == 0 || (ShortInput(buf, off, known) && ShortInputs(buf, ReadInput(buf, off, known).1, n - 1, known))
  }

  predicate ShortOutputs(buf: seq<Byte>, off: nat, n: nat)
    decreases n
  {
    n == 0 || (ShortAt(buf, off + 8) && ShortOutputs(buf, ReadOutput(buf, off).1, n - 1))
  }

  // Where the inputs end, where the outputs start and where the transaction ends.
  function InputsEnd(buf: seq<Byte>, known: Recognised): nat {
    ReadInputs(buf, 4 + ReadVarInt(buf, 4).1, ReadVarInt(buf, 4).0, known).1
  }

  function OutputsStart(buf: seq<Byte>, known: Recognised): nat {
    InputsEnd(buf, known) + ReadVarInt(buf, InputsEnd(buf, known)).1
  }

  function End(buf: seq<Byte>, known: Recognised): nat {
    ReadOutputs(buf, OutputsStart(buf, known), ReadVarInt(buf, InputsEnd(buf, known)).0).1 + 4
  }

  // Every length and count is written with as few bytes as it takes, and every recognised script comes with an amount.
  predicate Shortest(buf: seq<Byte>, known: Recognised) {
    && ShortAt(buf, 4) && ShortInputs(buf, 4 + ReadVarInt(buf, 4).1, ReadVarInt(buf, 4).0, known)
    && ShortAt(buf, InputsEnd(buf, known))
    && ShortOutputs(buf, OutputsStart(buf, known), ReadVarInt(buf, InputsEnd(buf, known)).0)
  }

  lemma {:induction false} LELittle(s: seq<Byte>)
    ensures LE(Little(s), |s|) == s
  {
    if s != [] {
      LELittle(s[1..]);
      assert Little(s) % 256 == s[0] && Little(s) / 256 == Little(s[1..]);
    }
  }

  lemma ReadRewritten(buf: seq<Byte>, off: nat, n: nat)
    requires off + n <= |buf|
    ensures LE(ReadLE(buf, off, n), n) == buf[off..off + n] && ReadLE(buf, off, n) < Pow256(n)
  {
    LELittle(buf[off..off + n]);
    LittleBound(buf[off..off + n]);
  }

  /** An integer is never written longer than it was read; it comes out the same exactly if it was shortest. */
  lemma VarIntRewritten(buf: seq<Byte>, off: nat)
    ensures VarIntSize(ReadVarInt(buf, off).0) <= ReadVarInt(buf, off).1
    ensures ShortAt(buf, off) && off + ReadVarInt(buf, off).1 <= |buf|
            ==> VarInt(ReadVarInt(buf, off).0) == buf[off..off + ReadVarInt(buf, off).1]
  {
    hide LE;
    Widths();
    var h: Byte := if off < |buf| then buf[off] else 0;
    var n := Follows(h);
    if n > 0 && off + 1 + n <= |buf| {
      ReadRewritten(buf, off + 1, n);
      SliceHead(buf, off, n);
    }
  }

  lemma SliceHead(buf: seq<Byte>, off: nat, n: nat)
    requires off + 1 + n <= |buf|
    ensures buf[off..off + 1 + n] == [buf[off]] + buf[off + 1..off + 1 + n]
  {
  }

  lemma InputLength(input: Input)
    ensures
      var sig := if input.signature.Some? then input.signature.value else input.script;
      |InputBytes(input)| == |input.txHash| + 4 + VarIntSize(|sig|) + |sig| + 4
                             + if input.signature.None? && input.amount != 0 then 8 else 0
  {
    hide LE, VarInt, VarIntSize;
  }

  lemma InputRewritten(buf: seq<Byte>, off: nat, known: Recognised)
    requires ReadInput(buf, off, known).1 <= |buf|
    ensures
      var (input, next) := ReadInput(buf, off, known);
      && off + |InputBytes(input)| <= next
      && (off + |InputBytes(input)| == next <==> ShortInput(buf, off, known))
      && (ShortInput(buf, off, known) ==> InputBytes(input) == buf[off..next])
  {
    hide ReadVarInt, VarInt, VarIntSize, ReadLE, LE, InputBytes;
    var input := ReadInput(buf, off, known).0;
    VarIntRewritten(buf, off + 36);
    InputLength(input);
    if ShortInput(buf, off, known) {
      if input.signature.None? { UnsignedSame(buf, off, known); } else { SignedSame(buf, off, known); }
    }
  }

  lemma UnsignedSame(buf: seq<Byte>, off: nat, known: Recognised)
    requires ReadInput(buf, off, known).1 <= |buf| && ShortAt(buf, off + 36)
    requires ReadInput(buf, off, known).0.signature.None? && ReadInput(buf, off, known).0.amount != 0
    ensures InputBytes(ReadInput(buf, off, known).0) == buf[off..ReadInput(buf, off, known).1]
  {
    hide ReadVarInt, VarInt, VarIntSize, ReadLE, LE, Pow256;
    var (input, next) := ReadInput(buf, off, known);
    var p := off + 36 + ReadVarInt(buf, off + 36).1;
    VarIntRewritten(buf, off + 36);
    hide ShortAt;
    ReadRewritten(buf, off + 32, 4);
    ReadRewritten(buf, next - 12, 8);
    ReadRewritten(buf, next - 4, 4);
    assert next == p + |input.script| + 12;
    JoinSlices(buf, off, off + 32, off + 36, p, next - 12, next - 4, next);
  }

  lemma SignedSame(buf: seq<Byte>, off: nat, known: Recognised)
    requires ReadInput(buf, off, known).1 <= |buf| && ShortAt(buf, off + 36)
    requires ReadInput(buf, off, known).0.signature.Some?
    ensures InputBytes(ReadInput(buf, off, known).0) == buf[off..ReadInput(buf, off, known).1]
  {
    hide ReadVarInt, VarInt, VarIntSize, ReadLE, LE, Pow256;
    var (input, next) := ReadInput(buf, off, known);
    var p := off + 36 + ReadVarInt(buf, off + 36).1;
    VarIntRewritten(buf, off + 36);
    hide ShortAt;
    ReadRewritten(buf, off + 32, 4);
    ReadRewritten(buf, next - 4, 4);
    assert next == p + |input.signature.value| + 4 && buf[next - 4..next - 4] == [];
    JoinSlices(buf, off, off + 32, off + 36, p, next - 4, next - 4, next);
  }

  lemma JoinTwo(buf: seq<Byte>, a: nat, b: nat, c: nat)
    requires a <= b <= c <= |buf|
    ensures buf[a..b] + buf[b..c] == buf[a..c]
  {
  }

  lemma JoinSlices(buf: seq<Byte>, a: nat, b: nat, c: nat, d: nat, e: nat, f: nat, g: nat)
    requires a <= b <= c <= d <= e <= f <= g <= |buf|
    ensures buf[a..b] + buf[b..c] + buf[c..d] + buf[d..e] + buf[e..f] + buf[f..g] == buf[a..g]
  {
    JoinTwo(buf, a, b, c);
    JoinTwo(buf, a, c, d);
    JoinTwo(buf, a, d, e);
    JoinTwo(buf, a, e, f);
    JoinTwo(buf, a, f, g);
  }

  lemma OutputRewritten(buf: seq<Byte>, off: nat)
    requires ReadOutput(buf, off).1 <= |buf|
    ensures
      var (o, next) := ReadOutput(buf, off);
      && off + |OutputBytes(o)| <= next
      && (off + |OutputBytes(o)| == next <==> ShortAt(buf, off + 8))
      && (ShortAt(buf, off + 8) ==> OutputBytes(o) == buf[off..next])
  {
    hide ReadVarInt, VarInt, VarIntSize, ReadLE, LE;
    var (o, next) := ReadOutput(buf, off);
    var (sLen, len) := ReadVarInt(buf, off + 8);
    VarIntRewritten(buf, off + 8);
    ReadRewritten(buf, off, 8);
    JoinTwo(buf, off, off + 8, off + 8 + len);
    JoinTwo(buf, off, off + 8 + len, next);
  }

  lemma {:induction false} InputsRewritten(buf: seq<Byte>, off: nat, n: nat, known: Recognised)
    requires ReadInputs(buf, off, n, known).1 <= |buf|
    ensures
      var (ins, end) := ReadInputs(buf, off, n, known);
      && |ins| == n && off + |InputsBytes(ins)| <= end
      && (off + |InputsBytes(ins)| == end <==> ShortInputs(buf, off, n, known))
      && (ShortInputs(buf, off, n, known) ==> InputsBytes(ins) == buf[off..end])
    decreases n
  {
    hide ReadInput, InputBytes, InputsBytes, ShortInput;
    if n == 0 {
      NoInputBytes();
    } else {
      var (input, next) := ReadInput(buf, off, known);
      var (rest, end) := ReadInputs(buf, next, n - 1, known);
      assert next <= |buf|;
      InputRewritten(buf, off, known);
      InputsRewritten(buf, next, n - 1, known);
      InputsCons([input] + rest);
      assert ([input] + rest)[1..] == rest;
      assert buf[off..next] + buf[next..end] == buf[off..end];
    }
  }

  lemma NoInputBytes()
    ensures InputsBytes([]) == [] && OutputsBytes([]) == []
  {
  }

  lemma {:induction false} OutputsRewritten(buf: seq<Byte>, off: nat, n: nat)
    requires ReadOutputs(buf, off, n).1 <= |buf|
    ensures
      var (outs, end) := ReadOutputs(buf, off, n);
      && |outs| == n && off + |OutputsBytes(outs)| <= end
      && (off + |OutputsBytes(outs)| == end <==> ShortOutputs(buf, off, n))
      && (ShortOutputs(buf, off, n) ==> OutputsBytes(outs) == buf[off..end])
    decreases n
  {
    hide ReadOutput, OutputBytes, OutputsBytes, ShortAt;
    if n == 0 {
      NoInputBytes();
    } else {
      var (output, next) := ReadOutput(buf, off);
      var (rest, end) := ReadOutputs(buf, next, n - 1);
      assert next <= |buf|;
      OutputRewritten(buf, off);
      OutputsRewritten(buf, next, n - 1);
      OutputsCons([output] + rest);
      assert ([output] + rest)[1..] == rest;
      assert buf[off..next] + buf[next..end] == buf[off..end];
    }
  }

  lemma {:induction false} InputsAdvance(buf: seq<Byte>, off: nat, n: nat, known: Recognised)
    ensures ReadInputs(buf, off, n, known).1 >= off
    decreases n
  {
    if n > 0 && off <= |buf| { InputsAdvance(buf, ReadInput(buf, off, known).1, n - 1, known); }
  }

  lemma {:induction false} OutputsAdvance(buf: seq<Byte>, off: nat, n: nat)
    ensures ReadOutputs(buf, off, n).1 >= off
    decreases n
  {
    if n > 0 && off <= |buf| { OutputsAdvance(buf, ReadOutput(buf, off).1, n - 1); }
  }

  /** Serializing what was parsed gives back what was read exactly if that was written as shortly as possible and every
      recognised script came with an amount; otherwise it gets shorter. */
  lemma SerializeUndoesParse(buf: seq<Byte>, known: Recognised)
    requires Parsed(buf, known).Some?
    ensures
      var tx, end := Parsed(buf, known).value, End(buf, known);
      && end <= |buf| && |Serialized(tx)| <= end
      && (|Serialized(tx)| == end <==> Shortest(buf, known))
      && (Serialized(tx) == buf[..end] <==> Shortest(buf, known))
  {
    hide ReadVarInt, VarInt, VarIntSize, ReadLE, LE, ReadInputs, ReadOutputs, InputsBytes, OutputsBytes, ShortInputs,
         ShortOutputs;
    var o1, e1, o2, end := 4 + ReadVarInt(buf, 4).1, InputsEnd(buf, known), OutputsStart(buf, known), End(buf, known);
    OutputsAdvance(buf, o2, ReadVarInt(buf, e1).0);
    InputsAdvance(buf, o1, ReadVarInt(buf, 4).0, known);
    InputsRewritten(buf, o1, ReadVarInt(buf, 4).0, known);
    OutputsRewritten(buf, o2, ReadVarInt(buf, e1).0);
    VarIntRewritten(buf, 4);
    VarIntRewritten(buf, e1);
    ReadRewritten(buf, 0, 4);
    ReadRewritten(buf, end - 4, 4);
    JoinSlices(buf, 0, 4, o1, e1, o2, end - 4, end);
  }

  // ---------- sizes ----------

  // The estimate for an input that is not signed yet.
  const TX_INPUT_SIZE: nat := 148

  function InputSize(input: Input): nat {
    match input.signature
    case Some(sig) => 32 + 4 + VarIntSize(|sig|) + |sig| + 4
    case None => TX_INPUT_SIZE
  }

  function InputSizes(ins: seq<Input>): nat {
    if ins == [] then 0 else InputSizes(ins[..|ins| - 1]) + InputSize(ins[|ins| - 1])
  }

  function OutputSizes(outs: seq<Output>): nat {
    if outs == [] then 0
    else
      var o := outs[|outs| - 1];
      OutputSizes(outs[..|outs| - 1]) + 8 + VarIntSize(|o.script|) + |o.script|
  }

  function TotalSize(tx: Tx): nat {
    8 + VarIntSize(|tx.inputs|) + VarIntSize(|tx.outputs|) + InputSizes(tx.inputs) + OutputSizes(tx.outputs)
  }

  /** BRTransactionSize */
  method Size(tx: Tx) returns (size: nat)
    ensures size == TotalSize(tx)
  {
    size := 8 + VarIntSize(|tx.inputs|) + VarIntSize(|tx.outputs|);
    ghost var start := size;
    for i := 0 to |tx.inputs|
      invariant size == start + InputSizes(tx.inputs[..i])
    {
      assert tx.inputs[..i + 1][..i] == tx.inputs[..i];
      if tx.inputs[i].signature.Some? {
        var n := |tx.inputs[i].signature.value|;
        size := size + 32 + 4 + VarIntSize(n) + n + 4;
      } else {
        size := size + TX_INPUT_SIZE;
      }
    }
    assert tx.inputs[..|tx.inputs|] == tx.inputs;
    for i := 0 to |tx.outputs|
      invariant size == start + InputSizes(tx.inputs) + OutputSizes(tx.outputs[..i])
    {
      assert tx.outputs[..i + 1][..i] == tx.outputs[..i];
      var n := |tx.outputs[i].script|;
      size := size + 8 + VarIntSize(n) + n;
    }
    assert tx.outputs[..|tx.outputs|] == tx.outputs;
  }

  lemma {:induction false} OutputSizesExact(outs: seq<Output>)
    ensures OutputSizes(outs) == |OutputsBytes(outs)|
  {
    if outs != [] { OutputSizesExact(outs[..|outs| - 1]); }
  }

  lemma {:induction false} InputSizesExact(ins: seq<Input>)
    requires forall i :: 0 <= i < |ins| ==> |ins[i].txHash| == 32 && ins[i].signature.Some?
    ensures InputSizes(ins) == |InputsBytes(ins)|
  {
    if ins != [] { InputSizesExact(ins[..|ins| - 1]); }
  }

  /** For a signed transaction the computed size is the serialized length. */
  lemma SizeExact(tx: Tx)
    requires forall i :: 0 <= i < |tx.inputs| ==> |tx.inputs[i].txHash| == 32 && tx.inputs[i].signature.Some?
    ensures |Serialized(tx)| == TotalSize(tx)
  {
    InputSizesExact(tx.inputs);
    OutputSizesExact(tx.outputs);
  }

  // ---------- writing into a buffer ----------

  // Without a buffer the length is asked for; a null pointer has room for everything.
  ghost predicate Fits(data: array?<Byte>, end: nat) { data != null ==> end <= data.Length }

  // The first off bytes have been written.
  ghost predicate Holds(data: array?<Byte>, off: nat, out: seq<Byte>)
    reads data
  {
    off == |out| && (data != null ==> off <= data.Length && data[..off] == out)
  }

  // A field is written if there is room for it, and counted in any case.
  method Put(data: array?<Byte>, off: nat, bs: seq<Byte>, ghost out: seq<Byte>) returns (next: nat)
    modifies data
    ensures next == off + |bs|
    ensures old(Holds(data, off, out)) && Fits(data, next) ==> Holds(data, next, out + bs)
  {
    if data != null && off + |bs| <= data.Length {
      forall i | 0 <= i < |bs| {
        data[off + i] := bs[i];
      }
      assert old(Holds(data, off, out)) ==> data[..off] == out;
      assert data[off..off + |bs|] == bs;
      assert data[..off + |bs|] == data[..off] + data[off..off + |bs|];
    }
    next := off + |bs|;
  }

  // Where BRVarIntSet leaves off: an integer without room is not counted.
  function AfterVarInt(off: nat, i: nat, limit: nat): nat {
    if off + VarIntSize(i) <= limit then off + VarIntSize(i) else off
  }

  function Limit(data: array?<Byte>): nat { if data == null then 0 else data.Length }

  method PutVarInt(data: array?<Byte>, off: nat, i: nat, ghost out: seq<Byte>) returns (next: nat)
    modifies data
    ensures next == if data == null then off + VarIntSize(i) else AfterVarInt(off, i, Limit(data))
    ensures old(Holds(data, off, out)) && Fits(data, off + VarIntSize(i)) ==> Holds(data, next, out + VarInt(i))
  {
    hide VarInt;
    if data == null || off + VarIntSize(i) <= data.Length {
      next := Put(data, off, VarInt(i), out);
    } else {
      next := off;
    }
  }

  // _BRTxInputData: the bytes of an input, none counted if they do not fit.
  method PutInput(data: array?<Byte>, off: nat, input: Input, ghost out: seq<Byte>) returns (next: nat)
    requires |input.txHash| == 32
    modifies data
    ensures next == if Fits(data, off + |InputBytes(input)|) then off + |InputBytes(input)| else off
    ensures old(Holds(data, off, out)) && Fits(data, off + |InputBytes(input)|) ==>
              Holds(data, next, out + InputBytes(input))
  {
    hide VarInt, LE, Holds, InputBytes;
    var sig := if input.signature.Some? then input.signature.value else input.script;
    var amount := if input.signature.Some? then 0 else input.amount;
    var o := Put(data, off, input.txHash, out);
    ghost var done := out + input.txHash;
    o := Put(data, o, LE(input.index, 4), done);
    done := done + LE(input.index, 4);
    o := PutVarInt(data, o, |sig|, done);
    done := done + VarInt(|sig|);
    o := Put(data, o, sig, done);
    done := done + sig;
    if amount != 0 {
      o := Put(data, o, LE(amount, 8), done);
      done := done + LE(amount, 8);
    }
    o := Put(data, o, LE(input.sequence, 4), done);
    done := done + LE(input.sequence, 4);
    InputOn(out, input);
    next := if data == null || o <= data.Length then o else off;
  }

  // An input behind what was written before, part by part.
  lemma InputOn(out: seq<Byte>, input: Input)
    ensures
      var sig := if input.signature.Some? then input.signature.value else input.script;
      var head := out + input.txHash + LE(input.index, 4) + VarInt(|sig|) + sig;
      var marked := input.signature.None? && input.amount != 0;
      && out + InputBytes(input) == (if marked then head + LE(input.amount, 8) else head) + LE(input.sequence, 4)
      && |InputBytes(input)| == |input.txHash| + VarIntSize(|sig|) + |sig| + if marked then 16 else 8
  {
    hide VarInt, LE;
    var sig := if input.signature.Some? then input.signature.value else input.script;
    var b, h, v := input.txHash + LE(input.index, 4), LE(input.index, 4), VarInt(|sig|);
    var marked := input.signature.None? && input.amount != 0;
    var a := if marked then LE(input.amount, 8) else [];
    assert InputBytes(input) == input.txHash + h + v + sig + a + LE(input.sequence, 4);
    assert marked || out + input.txHash + h + v + sig + a == out + input.txHash + h + v + sig;
  }

  function AfterInput(off: nat, input: Input, limit: nat): nat {
    if off + |InputBytes(input)| <= limit then off + |InputBytes(input)| else off
  }

  function AfterInputs(off: nat, ins: seq<Input>, limit: nat): nat {
    if ins == [] then off else AfterInput(AfterInputs(off, ins[..|ins| - 1], limit), ins[|ins| - 1], limit)
  }

  function AfterOutputs(off: nat, outs: seq<Output>, limit: nat): nat {
    if outs == [] then off
    else
      var o := outs[|outs| - 1];
      AfterVarInt(AfterOutputs(off, outs[..|outs| - 1], limit) + 8, |o.script|, limit) + |o.script|
  }

  // The length reported for a buffer of limit bytes: what does not fit is skipped, and so may go unnoticed.
  function Reported(tx: Tx, limit: nat): nat {
    var o1 := AfterInputs(AfterVarInt(4, |tx.inputs|, limit), tx.inputs, limit);
    var o2 := AfterVarInt(o1, |tx.outputs|, limit);
    var o3 := AfterOutputs(o2, tx.outputs, limit);
    var end := (if o3 <= limit then o3 else o2) + 4;
    if end <= limit then end else 0
  }

  method PutInputs(data: array?<Byte>, off0: nat, ins: seq<Input>, ghost out: seq<Byte>) returns (off: nat)
    requires forall i :: 0 <= i < |ins| ==> |ins[i].txHash| == 32
    modifies data
    ensures off == if data == null then off0 + |InputsBytes(ins)| else AfterInputs(off0, ins, data.Length)
    ensures old(Holds(data, off0, out)) && Fits(data, off0 + |InputsBytes(ins)|) ==>
              Holds(data, off, out + InputsBytes(ins))
  {
    hide InputBytes;
    off := off0;
    assert ins[..0] == [] && out + [] == out;
    for i := 0 to |ins|
      invariant off == if data == null then off0 + |InputsBytes(ins[..i])| else AfterInputs(off0, ins[..i], data.Length)
      invariant old(Holds(data, off0, out)) && Fits(data, off0 + |InputsBytes(ins[..i])|) ==>
                  Holds(data, off, out + InputsBytes(ins[..i]))
    {
      var before, one := InputsBytes(ins[..i]), InputBytes(ins[i]);
      assert ins[..i + 1][..i] == ins[..i];
      assert InputsBytes(ins[..i + 1]) == before + one && out + (before + one) == (out + before) + one;
      off := PutInput(data, off, ins[i], out + before);
    }
    assert ins[..|ins|] == ins;
  }

  method PutOutput(data: array?<Byte>, off: nat, o: Output, ghost out: seq<Byte>) returns (next: nat)
    modifies data
    ensures next == if data == null then off + |OutputBytes(o)|
                    else AfterVarInt(off + 8, |o.script|, data.Length) + |o.script|
    ensures old(Holds(data, off, out)) && Fits(data, off + |OutputBytes(o)|) ==> Holds(data, next, out + OutputBytes(o))
  {
    hide VarInt, LE;
    next := Put(data, off, LE(o.amount, 8), out);
    next := PutVarInt(data, next, |o.script|, out + LE(o.amount, 8));
    next := Put(data, next, o.script, out + LE(o.amount, 8) + VarInt(|o.script|));
    assert out + OutputBytes(o) == out + LE(o.amount, 8) + VarInt(|o.script|) + o.script;
  }

  method PutOutputs(data: array?<Byte>, off0: nat, outs: seq<Output>, ghost out: seq<Byte>) returns (next: nat)
    modifies data
    ensures next == if data == null then off0 + |OutputsBytes(outs)|
                    else if AfterOutputs(off0, outs, data.Length) <= data.Length
                    then AfterOutputs(off0, outs, data.Length)
                    else off0
    ensures old(Holds(data, off0, out)) && Fits(data, off0 + |OutputsBytes(outs)|) ==>
              Holds(data, next, out + OutputsBytes(outs))
  {
    hide OutputBytes, AfterVarInt;
    var off := off0;
    assert outs[..0] == [] && out + [] == out;
    for i := 0 to |outs|
      invariant off == if data == null then off0 + |OutputsBytes(outs[..i])|
                       else AfterOutputs(off0, outs[..i], data.Length)
      invariant old(Holds(data, off0, out)) && Fits(data, off0 + |OutputsBytes(outs[..i])|) ==>
                  Holds(data, off, out + OutputsBytes(outs[..i]))
    {
      var before, one := OutputsBytes(outs[..i]), OutputBytes(outs[i]);
      assert outs[..i + 1][..i] == outs[..i];
      assert OutputsBytes(outs[..i + 1]) == before + one && out + (before + one) == (out + before) + one;
      off := PutOutput(data, off, outs[i], out + before);
    }
    assert outs[..|outs|] == outs;
    next := if data == null || off <= data.Length then off else off0;
  }

  /** BRTransactionSerialize: _BRTransactionData for the whole transaction. */
  method Serialize(tx: Tx, data: array?<Byte>) returns (len: nat)
    requires forall i :: 0 <= i < |tx.inputs| ==> |tx.inputs[i].txHash| == 32
    modifies data
    ensures data == null ==> len == |Serialized(tx)|
    ensures data != null ==> len == Reported(tx, data.Length)
    ensures data != null && |Serialized(tx)| <= data.Length ==> data[..|Serialized(tx)|] == Serialized(tx)
  {
    hide VarInt, LE, InputsBytes, OutputsBytes, AfterVarInt, AfterInputs, AfterOutputs;
    ghost var out: seq<Byte> := [];
    assert data != null ==> data[..0] == [];
    var off := Put(data, 0, LE(tx.version, 4), out);
    out := out + LE(tx.version, 4);
    off := PutVarInt(data, off, |tx.inputs|, out);
    out := out + VarInt(|tx.inputs|);
    off := PutInputs(data, off, tx.inputs, out);
    out := out + InputsBytes(tx.inputs);
    off := PutVarInt(data, off, |tx.outputs|, out);
    out := out + VarInt(|tx.outputs|);
    off := PutOutputs(data, off, tx.outputs, out);
    out := out + OutputsBytes(tx.outputs);
    off := Put(data, off, LE(tx.lockTime, 4), out);
    out := out + LE(tx.lockTime, 4);
    assert out == Serialized(tx);
    len := if data == null || off <= data.Length then off else 0;
  }

  lemma {:induction false} InputsFit(off: nat, ins: seq<Input>, limit: nat)
    requires off + |InputsBytes(ins)| <= limit
    ensures AfterInputs(off, ins, limit) == off + |InputsBytes(ins)|
  {
    hide InputBytes;
    if ins != [] { InputsFit(off, ins[..|ins| - 1], limit); }
  }

  lemma {:induction false} OutputsFit(off: nat, outs: seq<Output>, limit: nat)
    requires off + |OutputsBytes(outs)| <= limit
    ensures AfterOutputs(off, outs, limit) == off + |OutputsBytes(outs)|
  {
    if outs != [] { OutputsFit(off, outs[..|outs| - 1], limit); }
  }

  /** The length is right exactly when the transaction fits the buffer. */
  lemma ReportedExactly(tx: Tx, limit: nat)
    ensures Reported(tx, limit) == |Serialized(tx)| <==> |Serialized(tx)| <= limit
  {
    hide InputsBytes, OutputsBytes, AfterInputs, AfterOutputs;
    if |Serialized(tx)| <= limit {
      var o := 4 + VarIntSize(|tx.inputs|);
      InputsFit(o, tx.inputs, limit);
      OutputsFit(o + |InputsBytes(tx.inputs)| + VarIntSize(|tx.outputs|), tx.outputs, limit);
    }
  }

  /** A buffer that is too small is not always refused: an input that does not fit is skipped, and the length of what is
      left is returned as if all had been written. */
  lemma TooSmallNotRefused(hash: seq<Byte>)
    requires |hash| == 32
    ensures
      var tx := Tx(1, [Input(hash, 0, 0, [], Some([]), 0)], [], 0);
      |Serialized(tx)| == 51 && Reported(tx, 10) == 10
  {
    var input := Input(hash, 0, 0, [], Some([]), 0);
    hide LE;
    assert [input][..0] == [];
    assert |InputBytes(input)| == 41;
    assert InputsBytes([input]) == InputsBytes([]) + InputBytes(input);
    assert AfterInputs(5, [input], 10) == AfterInput(AfterInputs(5, [], 10), input, 10);
  }

  // ---------- reading from a buffer ----------

  method ParseInput(buf: seq<Byte>, off0: nat, known: Recognised) returns (input: Input, off: nat)
    ensures (input, off) == ReadInput(buf, off0, known)
  {
    hide ReadLE, ReadVarInt;
    off := off0;
    var hash := if off + 32 <= |buf| then buf[off..off + 32] else Zeros(32);
    off := off + 32;
    var index := ReadLE(buf, off, 4);
    off := off + 4;
    var (sLen, len) := ReadVarInt(buf, off);
    off := off + len;
    var amount, script: seq<Byte>, sig := 0, [], None;
    if off + sLen <= |buf| && known(buf[off..off + sLen]) {
      script := buf[off..off + sLen];
      amount := ReadLE(buf, off + sLen, 8);
      off := off + 8;
    } else if off + sLen <= |buf| {
      sig := Some(buf[off..off + sLen]);
    }
    off := off + sLen;
    input := Input(hash, index, amount, script, sig, ReadLE(buf, off, 4));
    off := off + 4;
  }

  method ParseOutput(buf: seq<Byte>, off0: nat) returns (o: Output, off: nat)
    ensures (o, off) == ReadOutput(buf, off0)
  {
    hide ReadLE, ReadVarInt;
    off := off0;
    var amount := ReadLE(buf, off, 8);
    off := off + 8;
    var (sLen, len) := ReadVarInt(buf, off);
    off := off + len;
    o := Output(amount, if off + sLen <= |buf| then buf[off..off + sLen] else []);
    off := off + sLen;
  }

  /** BRTransactionParse */
  method Parse(buf: seq<Byte>, known: Recognised) returns (r: Option<Tx>)
    ensures r == Parsed(buf, known)
  {
    hide ReadLE, ReadVarInt, ReadInput, ReadOutput;
    var version, off: nat := ReadLE(buf, 0, 4), 4;
    var (inCount, len) := ReadVarInt(buf, off);
    off := off + len;
    var ins, start := [], off;
    var i := 0;
    assert ins + ReadInputs(buf, off, inCount, known).0 == ReadInputs(buf, off, inCount, known).0;
    while off <= |buf| && i < inCount
      invariant i <= inCount
      invariant ReadInputs(buf, start, inCount, known)
                == (ins + ReadInputs(buf, off, inCount - i, known).0, ReadInputs(buf, off, inCount - i, known).1)
      decreases inCount - i
    {
      var input, next := ParseInput(buf, off, known);
      assert ins + ([input] + ReadInputs(buf, next, inCount - i - 1, known).0)
          == (ins + [input]) + ReadInputs(buf, next, inCount - i - 1, known).0;
      ins, off, i := ins + [input], next, i + 1;
    }
    assert ins + [] == ins;
    var outCount;
    var pair := ReadVarInt(buf, off);
    outCount, len := pair.0, pair.1;
    off := off + len;
    var outs, from := [], off;
    assert outs + ReadOutputs(buf, off, outCount).0 == ReadOutputs(buf, off, outCount).0;
    i := 0;
    while off <= |buf| && i < outCount
      invariant i <= outCount
      invariant ReadOutputs(buf, from, outCount)
                == (outs + ReadOutputs(buf, off, outCount - i).0, ReadOutputs(buf, off, outCount - i).1)
      decreases outCount - i
    {
      var output, next := ParseOutput(buf, off);
      assert outs + ([output] + ReadOutputs(buf, next, outCount - i - 1).0)
          == (outs + [output]) + ReadOutputs(buf, next, outCount - i - 1).0;
      outs, off, i := outs + [output], next, i + 1;
    }
    assert outs + [] == outs;
    var lockTime := ReadLE(buf, off, 4);
    off := off + 4;
    r := if inCount == 0 || off > |buf| then None else Some(Tx(version, ins, outs, lockTime));
  }
}
