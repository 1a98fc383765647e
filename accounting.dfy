/** The P2PK accounting of one block (src/main.rs:119-149): every P2PK
    output of every transaction adds one to the `i32` address counter, and
    for the transactions after the first two every input whose referenced
    transaction is not a coinbase takes away one for each P2PK output of
    that whole referenced transaction.

    The node's answers are given as values: a block is its list of
    transactions, and `get_raw_transaction` is a map from transaction id to
    transaction, where a missing id is the RPC error the walker's `?`
    passes up. Script classification (`is_p2pk`) and `is_coinbase` are
    boolean fields. */
module Accounting {
  import opened Results
  import opened RustText
  import opened Int32

  type TxId = seq<bv8>

  datatype Output = Output(isP2pk: bool)

  /** An input names the output it spends; the walker only uses the id. */
  datatype TxIn = TxIn(prevTxid: TxId, prevVout: nat)

  datatype Tx = Tx(isCoinbase: bool, inputs: seq<TxIn>, outputs: seq<Output>)

  /** What `get_raw_transaction` can answer. */
  type TxIndex = map<TxId, Tx>

  /** The failures that end the walker: the `unwrap` on an empty list of
      active tips (src/main.rs:104), and the RPC errors of a missing height
      or a missing transaction. */
  datatype WalkError = NoActiveTip | UnknownHeight(height: nat) | UnknownTx(txid: TxId)

  // ---------------------------------------------------------------------
  // Specification

  /** Number of P2PK outputs. */
  function P2pkCount(outputs: seq<Output>): (n: nat)
    ensures n <= |outputs|
  {
    if outputs == [] then 0
    else (if outputs[0].isP2pk then 1 else 0) + P2pkCount(outputs[1..])
  }

  /** What one spending input takes away: nothing for a coinbase reference,
      otherwise every P2PK output of the referenced transaction, whichever
      output the input actually spends. */
  function Charge(input: TxIn, index: TxIndex): Result<nat, WalkError> {
    if input.prevTxid !in index then Err(UnknownTx(input.prevTxid))
    else
      var prev := index[input.prevTxid];
      if prev.isCoinbase then Ok(0) else Ok(P2pkCount(prev.outputs))
  }

  /** Total charge of `inputs[k..]`, or the first failed lookup. */
  function ChargeFrom(inputs: seq<TxIn>, k: nat, index: TxIndex): Result<nat, WalkError>
    requires k <= |inputs|
    decreases |inputs| - k
  {
    if k == |inputs| then Ok(0)
    else match Charge(inputs[k], index)
      case Err(e) => Err(e)
      case Ok(c) =>
        match ChargeFrom(inputs, k + 1, index)
        case Err(e) => Err(e)
        case Ok(rest) => Ok(c + rest)
  }

  /** The counter change of transaction `i` of a block: its P2PK outputs,
      less the charges of its inputs when `i > 1`. */
  function TxEffect(i: nat, tx: Tx, index: TxIndex): Result<int, WalkError> {
    var created := P2pkCount(tx.outputs);
    if i > 1 then
      match ChargeFrom(tx.inputs, 0, index)
      case Err(e) => Err(e)
      case Ok(spent) => Ok(created - spent)
    else Ok(created)
  }

  /** The counter change of `txs[i..]`, or the first failed lookup. */
  function EffectFrom(txs: seq<Tx>, i: nat, index: TxIndex): Result<int, WalkError>
    requires i <= |txs|
    decreases |txs| - i
  {
    if i == |txs| then Ok(0)
    else match TxEffect(i, txs[i], index)
      case Err(e) => Err(e)
      case Ok(d) =>
        match EffectFrom(txs, i + 1, index)
        case Err(e) => Err(e)
        case Ok(rest) => Ok(d + rest)
  }

  /** The counter change of a whole block. */
  function BlockEffect(txs: seq<Tx>, index: TxIndex): Result<int, WalkError> {
    EffectFrom(txs, 0, index)
  }

  /** The counter after a change: the `i32` sum, wrapped around. */
  function Applied(addresses: int, effect: Result<int, WalkError>): Result<int, WalkError> {
    match effect
    case Err(e) => Err(e)
    case Ok(d) => Ok(Wrap(addresses + d))
  }

  /** P2PK outputs created by `txs[i..]`, ignoring every input. */
  function CreatedFrom(txs: seq<Tx>, i: nat): nat
    requires i <= |txs|
    decreases |txs| - i
  {
    if i == |txs| then 0 else P2pkCount(txs[i].outputs) + CreatedFrom(txs, i + 1)
  }

  // ---------------------------------------------------------------------
  // The walker's loops (src/main.rs:120-149)

  /** `p2pk_addresses += 1` for every P2PK output (src/main.rs:121-126). */
  method CreditOutputs(a0: int, outputs: seq<Output>) returns (a: int)
    requires IsI32(a0)
    ensures a == Wrap(a0 + P2pkCount(outputs))
  {
    a := a0;
    var k := 0;
    while k < |outputs|
      invariant 0 <= k <= |outputs| && IsI32(a)
      invariant Wrap(a + P2pkCount(outputs[k..])) == Wrap(a0 + P2pkCount(outputs))
    {
      assert outputs[k..][1..] == outputs[k + 1..];
      var bit := if outputs[k].isP2pk then 1 else 0;
      WrapAdd(a + bit, P2pkCount(outputs[k + 1..]));
      if outputs[k].isP2pk {
        a := Wrap(a + 1);
      }
      WrapInRange(a);
      k := k + 1;
    }
    WrapInRange(a);
  }

  /** `p2pk_addresses -= 1` for every P2PK output of a spent transaction
      (src/main.rs:141-146). */
  method DebitOutputs(a0: int, outputs: seq<Output>) returns (a: int)
    requires IsI32(a0)
    ensures a == Wrap(a0 - P2pkCount(outputs))
  {
    a := a0;
    var k := 0;
    while k < |outputs|
      invariant 0 <= k <= |outputs| && IsI32(a)
      invariant Wrap(a - P2pkCount(outputs[k..])) == Wrap(a0 - P2pkCount(outputs))
    {
      assert outputs[k..][1..] == outputs[k + 1..];
      var bit := if outputs[k].isP2pk then 1 else 0;
      WrapAdd(a - bit, -(P2pkCount(outputs[k + 1..]) as int));
      if outputs[k].isP2pk {
        a := Wrap(a - 1);
      }
      WrapInRange(a);
      k := k + 1;
    }
    WrapInRange(a);
  }

  /** The counter after the charges `c`: the `i32` difference, wrapped. */
  function Debited(addresses: int, c: Result<nat, WalkError>): Result<int, WalkError> {
    match c
    case Err(e) => Err(e)
    case Ok(n) => Ok(Wrap(addresses - n))
  }

  /** One input of the spend pass moves the remaining work one step on. */
  lemma DebitStep(a: int, inputs: seq<TxIn>, k: nat, index: TxIndex)
    requires k < |inputs| && inputs[k].prevTxid in index
    ensures var prev := index[inputs[k].prevTxid];
      var a' := if prev.isCoinbase then a else Wrap(a - P2pkCount(prev.outputs));
      Debited(a', ChargeFrom(inputs, k + 1, index)) == Debited(a, ChargeFrom(inputs, k, index))
  {
    var prev := index[inputs[k].prevTxid];
    match ChargeFrom(inputs, k + 1, index)
    case Err(_) =>
    case Ok(rest) =>
      if !prev.isCoinbase {
        WrapAdd(a - P2pkCount(prev.outputs), -(rest as int));
      }
  }

  /** The spend pass over one transaction's inputs (src/main.rs:130-147):
      look up each referenced transaction, skip coinbases, debit the rest. */
  method DebitInputs(a0: int, inputs: seq<TxIn>, index: TxIndex) returns (r: Result<int, WalkError>)
    requires IsI32(a0)
    ensures r == Debited(a0, ChargeFrom(inputs, 0, index))
  {
    var a := a0;
    var k := 0;
    while k < |inputs|
      invariant 0 <= k <= |inputs| && IsI32(a)
      invariant Debited(a, ChargeFrom(inputs, k, index)) == Debited(a0, ChargeFrom(inputs, 0, index))
    {
      var txid := inputs[k].prevTxid;
      if txid !in index {
        return Err(UnknownTx(txid));
      }
      var prev := index[txid];
      DebitStep(a, inputs, k, index);
      if !prev.isCoinbase {
        a := DebitOutputs(a, prev.outputs);
      }
      k := k + 1;
    }
    WrapInRange(a);
    r := Ok(a);
  }

  /** The counter after transaction `i` of a block on its own: its P2PK
      outputs credited and, when `i > 1`, its charges debited. */
  function TxApplied(a: int, i: nat, tx: Tx, index: TxIndex): Result<int, WalkError> {
    var credited := Wrap(a + P2pkCount(tx.outputs));
    if i > 1 then Debited(credited, ChargeFrom(tx.inputs, 0, index)) else Ok(credited)
  }

  /** One transaction of the block pass moves the remaining work one step
      on, or fails the whole block. */
  lemma TxStep(a: int, txs: seq<Tx>, i: nat, index: TxIndex)
    requires i < |txs|
    ensures match TxApplied(a, i, txs[i], index)
      case Err(e) => Applied(a, EffectFrom(txs, i, index)) == Err(e)
      case Ok(a') => Applied(a', EffectFrom(txs, i + 1, index)) == Applied(a, EffectFrom(txs, i, index))
  {
    if i > 1 {
      SpendingTxStep(a, txs, i, index);
    } else {
      CreditingTxStep(a, txs, i, index);
    }
  }

  /** `TxStep` for a transaction after the first two. */
  lemma SpendingTxStep(a: int, txs: seq<Tx>, i: nat, index: TxIndex)
    requires 1 < i < |txs|
    ensures match TxApplied(a, i, txs[i], index)
      case Err(e) => Applied(a, EffectFrom(txs, i, index)) == Err(e)
      case Ok(a') => Applied(a', EffectFrom(txs, i + 1, index)) == Applied(a, EffectFrom(txs, i, index))
  {
    var created := P2pkCount(txs[i].outputs);
    var credited := Wrap(a + created);
    match ChargeFrom(txs[i].inputs, 0, index)
    case Err(e) =>
      assert TxApplied(a, i, txs[i], index) == Err(e);
      assert EffectFrom(txs, i, index) == Err(e);
    case Ok(spent) =>
      var a' := Wrap(credited - spent);
      assert TxApplied(a, i, txs[i], index) == Ok(a');
      assert TxEffect(i, txs[i], index) == Ok(created - spent);
      match EffectFrom(txs, i + 1, index)
      case Err(e) =>
        assert EffectFrom(txs, i, index) == Err(e);
      case Ok(rest) =>
        assert EffectFrom(txs, i, index) == Ok(created - spent + rest);
        WrapThrice(a, created, spent, rest);
  }

  /** `TxStep` for one of the first two transactions. */
  lemma CreditingTxStep(a: int, txs: seq<Tx>, i: nat, index: TxIndex)
    requires i <= 1 && i < |txs|
    ensures match TxApplied(a, i, txs[i], index)
      case Err(e) => Applied(a, EffectFrom(txs, i, index)) == Err(e)
      case Ok(a') => Applied(a', EffectFrom(txs, i + 1, index)) == Applied(a, EffectFrom(txs, i, index))
  {
    var created := P2pkCount(txs[i].outputs);
    assert TxApplied(a, i, txs[i], index) == Ok(Wrap(a + created));
    assert TxEffect(i, txs[i], index) == Ok(created);
    match EffectFrom(txs, i + 1, index)
    case Err(e) =>
      assert EffectFrom(txs, i, index) == Err(e);
    case Ok(rest) =>
      assert EffectFrom(txs, i, index) == Ok(created + rest);
      WrapAdd(a + created, rest);
  }

  /** The per-block pass (src/main.rs:120-149): credit each transaction's
      P2PK outputs, then, from the third transaction on, debit its spends. */
  method AccountBlock(a0: int, txs: seq<Tx>, index: TxIndex) returns (r: Result<int, WalkError>)
    requires IsI32(a0)
    ensures r == Applied(a0, BlockEffect(txs, index))
  {
    var a := a0;
    var i := 0;
    while i < |txs|
      invariant 0 <= i <= |txs| && IsI32(a)
      invariant Applied(a, EffectFrom(txs, i, index)) == Applied(a0, EffectFrom(txs, 0, index))
    {
      var tx := txs[i];
      var credited := CreditOutputs(a, tx.outputs);
      var step := Ok(credited);
      if i > 1 {
        step := DebitInputs(credited, tx.inputs, index);
      }
      assert step == TxApplied(a, i, tx, index);
      TxStep(a, txs, i, index);
      if step.Err? {
        return step;
      }
      a := step.value;
      i := i + 1;
    }
    WrapInRange(a);
    r := Ok(a);
  }

  // ---------------------------------------------------------------------
  // Properties of the block pass

  lemma {:induction false} P2pkCountAppend(outputs: seq<Output>, o: Output)
    ensures P2pkCount(outputs + [o]) == P2pkCount(outputs) + (if o.isP2pk then 1 else 0)
  {
    if outputs != [] {
      assert (outputs + [o])[1..] == outputs[1..] + [o];
      P2pkCountAppend(outputs[1..], o);
    } else {
      assert ([] + [o])[1..] == [];
    }
  }

  /** One more input adds its own charge, or its failed lookup. */
  lemma {:induction false} ChargeFromAppend(inputs: seq<TxIn>, k: nat, input: TxIn, index: TxIndex)
    requires k <= |inputs| && ChargeFrom(inputs, k, index).Ok?
    ensures ChargeFrom(inputs + [input], k, index) ==
      match Charge(input, index)
      case Err(e) => Err(e)
      case Ok(c) => Ok(ChargeFrom(inputs, k, index).value + c)
    decreases |inputs| - k
  {
    var longer := inputs + [input];
    if k == |inputs| {
      assert longer[k] == input;
    } else {
      assert longer[k] == inputs[k];
      ChargeFromAppend(inputs, k + 1, input, index);
    }
  }

  /** Replacing transaction `i` changes the effect of any suffix that holds
      it by exactly the change in that transaction's own effect. */
  lemma {:induction false} EffectFromReplace(txs: seq<Tx>, i: nat, t: Tx, j: nat, index: TxIndex)
    requires j <= i < |txs| && EffectFrom(txs, j, index).Ok?
    ensures TxEffect(i, txs[i], index).Ok?
    ensures EffectFrom(txs[i := t], j, index) ==
      match TxEffect(i, t, index)
      case Err(e) => Err(e)
      case Ok(d) => Ok(EffectFrom(txs, j, index).value - TxEffect(i, txs[i], index).value + d)
    decreases i - j
  {
    var txs' := txs[i := t];
    if j < i {
      assert txs'[j] == txs[j];
      EffectFromReplace(txs, i, t, j + 1, index);
    } else {
      assert EffectFrom(txs', i + 1, index) == EffectFrom(txs, i + 1, index) by {
        EffectFromUnchanged(txs, txs', i + 1, index);
      }
    }
  }

  /** Suffixes that agree have the same effect. */
  lemma {:induction false} EffectFromUnchanged(txs: seq<Tx>, txs': seq<Tx>, j: nat, index: TxIndex)
    requires |txs| == |txs'| && j <= |txs| && txs[j..] == txs'[j..]
    ensures EffectFrom(txs, j, index) == EffectFrom(txs', j, index)
    decreases |txs| - j
  {
    if j < |txs| {
      assert txs[j] == txs[j..][0] == txs'[j..][0] == txs'[j];
      assert txs[j + 1..] == txs[j..][1..];
      assert txs'[j + 1..] == txs'[j..][1..];
      EffectFromUnchanged(txs, txs', j + 1, index);
    }
  }

  /** One more input on transaction `i`: the first two transactions are
      never debited; a later one is debited by the input's whole charge,
      which is nothing for a coinbase reference and every P2PK output of the
      referenced transaction otherwise, whichever output is named; an
      unknown reference fails the block. */
  lemma AddInput(txs: seq<Tx>, i: nat, input: TxIn, index: TxIndex)
    requires i < |txs| && BlockEffect(txs, index).Ok?
    ensures var txs' := txs[i := txs[i].(inputs := txs[i].inputs + [input])];
      BlockEffect(txs', index) ==
        if i <= 1 then BlockEffect(txs, index)
        else if input.prevTxid !in index then Err(UnknownTx(input.prevTxid))
        else if index[input.prevTxid].isCoinbase then BlockEffect(txs, index)
        else Ok(BlockEffect(txs, index).value - P2pkCount(index[input.prevTxid].outputs))
  {
    var t := txs[i].(inputs := txs[i].inputs + [input]);
    EffectFromReplace(txs, i, t, 0, index);
    if i > 1 {
      ChargeFromAppend(txs[i].inputs, 0, input, index);
    }
  }

  /** One more output on any transaction adds one exactly when it is P2PK. */
  lemma AddOutput(txs: seq<Tx>, i: nat, o: Output, index: TxIndex)
    requires i < |txs| && BlockEffect(txs, index).Ok?
    ensures var txs' := txs[i := txs[i].(outputs := txs[i].outputs + [o])];
      BlockEffect(txs', index) == Ok(BlockEffect(txs, index).value + if o.isP2pk then 1 else 0)
  {
    var t := txs[i].(outputs := txs[i].outputs + [o]);
    EffectFromReplace(txs, i, t, 0, index);
    P2pkCountAppend(txs[i].outputs, o);
  }

  /** Every input of `inputs[k..]` names a transaction the node knows. */
  predicate Resolvable(inputs: seq<TxIn>, k: nat, index: TxIndex) {
    forall m :: k <= m < |inputs| ==> inputs[m].prevTxid in index
  }

  lemma {:induction false} ChargeFromOkIff(inputs: seq<TxIn>, k: nat, index: TxIndex)
    requires k <= |inputs|
    ensures ChargeFrom(inputs, k, index).Ok? <==> Resolvable(inputs, k, index)
    decreases |inputs| - k
  {
    if k < |inputs| {
      ChargeFromOkIff(inputs, k + 1, index);
    }
  }

  lemma {:induction false} EffectFromOkIff(txs: seq<Tx>, j: nat, index: TxIndex)
    requires j <= |txs|
    ensures EffectFrom(txs, j, index).Ok? <==>
      forall i :: j <= i < |txs| && i > 1 ==> Resolvable(txs[i].inputs, 0, index)
    decreases |txs| - j
  {
    if j < |txs| {
      ChargeFromOkIff(txs[j].inputs, 0, index);
      EffectFromOkIff(txs, j + 1, index);
    }
  }

  /** The block pass succeeds exactly when every input of every transaction
      after the first two names a transaction the node knows. */
  lemma BlockEffectOkIff(txs: seq<Tx>, index: TxIndex)
    ensures BlockEffect(txs, index).Ok? <==>
      forall i, m :: 1 < i < |txs| && 0 <= m < |txs[i].inputs| ==> txs[i].inputs[m].prevTxid in index
  {
    EffectFromOkIff(txs, 0, index);
  }

  /** The counter never grows by more than the P2PK outputs the block
      creates, and grows by exactly that much when the block has at most two
      transactions, whatever their inputs and whatever the node knows. */
  lemma {:induction false} EffectAtMostCreated(txs: seq<Tx>, j: nat, index: TxIndex)
    requires j <= |txs|
    ensures EffectFrom(txs, j, index).Ok? ==> EffectFrom(txs, j, index).value <= CreatedFrom(txs, j)
    ensures |txs| <= 2 ==> EffectFrom(txs, j, index) == Ok(CreatedFrom(txs, j))
    decreases |txs| - j
  {
    if j < |txs| {
      EffectAtMostCreated(txs, j + 1, index);
    }
  }
}
