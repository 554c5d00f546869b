/** What a received message does to the wallet and what it leaves alone, said of the listed
    outputs and their keys. */
module WalletFrame {
  import opened HdKeys
  import opened Stamps

  /** The key of listed output j of transaction i: child 44, 145, i, j of the key that digest
      and recipient have together. */
  function StampKey(s: Scheme, digest: Digest, key: nat, i: nat, j: nat): Result<HDPrivateKey> {
    DerivePrivatePath(s, HDPrivateKey((digest + key) % s.n, digest, 0, 0), [44, 145, i, j])
  }

  lemma StampKeyFromBase(s: Scheme, digest: Digest, key: nat, i: nat, j: nat)
    requires PrivateBase(s, digest, key).Success?
    ensures StampKey(s, digest, key, i, j) ==
      var txKey := DerivePrivate(s, PrivateBase(s, digest, key).value, i, false, false);
      if txKey.Failure? then txKey else DerivePrivate(s, txKey.value, j, false, false)
  {
    hide DerivePrivate;
    var root := HDPrivateKey((digest + key) % s.n, digest, 0, 0);
    PathStep(s, root, 44, [145, i, j]);
    var c44 := DerivePrivate(s, root, 44, false, false);
    PathStep(s, c44.value, 145, [i, j]);
    PathStep(s, c44.value, 145, []);
    var base := PrivateBase(s, digest, key).value;
    PathStep(s, base, i, [j]);
    var txKey := DerivePrivate(s, base, i, false, false);
    if txKey.Success? {
      PathStep(s, txKey.value, j, []);
    }
  }

  lemma PathStep(s: Scheme, k: HDPrivateKey, index: int, rest: seq<int>)
    ensures DerivePrivatePath(s, k, [index] + rest) ==
      var child := DerivePrivate(s, k, index, false, false);
      if child.Failure? then child else DerivePrivatePath(s, child.value, rest)
    ensures DerivePrivatePath(s, k, []) == Success(k)
  {
    hide DerivePrivate;
    assert ([index] + rest)[1..] == rest;
  }

  /** Listed output j of transaction i exists and pays to its key; this is what is spendable
      of it. */
  ghost predicate PaysTo(s: Scheme, digest: Digest, key: nat, ops: seq<StampOutpoints>, id: Outpoint,
    entry: (Utxo, nat), i: nat, j: nat)
  {
    i < |ops| && j < |ops[i].vouts| && ops[i].vouts[j] < |ops[i].tx.outputs| &&
    var op, child := ops[i], StampKey(s, digest, key, i, j);
    var output := op.tx.outputs[op.vouts[j]];
    child.Success? && output.address == Some(s.addressOf(s.mulG(child.value.key))) &&
    id == (op.tx.txId, op.vouts[j]) &&
    entry == (Utxo(output.address.value, output.satoshis, op.tx.txId, op.vouts[j]), child.value.key)
  }

  ghost predicate Payable(s: Scheme, digest: Digest, key: nat, ops: seq<StampOutpoints>, id: Outpoint,
    entry: (Utxo, nat))
  {
    exists i: nat, j: nat :: PaysTo(s, digest, key, ops, id, entry, i, j)
  }

  /** Nothing is lost, and whatever is new or changed is a listed output that pays to its key. */
  ghost predicate OnlyAdds(s: Scheme, digest: Digest, key: nat, ops: seq<StampOutpoints>, before: Utxos, after: Utxos) {
    (forall id :: id in before ==> id in after) &&
    (forall id :: id in after ==>
      (id in before && after[id] == before[id]) || Payable(s, digest, key, ops, id, after[id]))
  }

  lemma MatchPaysTo(s: Scheme, digest: Digest, key: nat, ops: seq<StampOutpoints>, i: nat, j: nat)
    requires i < |ops| && j < |ops[i].vouts| && PrivateBase(s, digest, key).Success?
    requires DerivePrivate(s, PrivateBase(s, digest, key).value, i, false, false).Success?
    requires OutputMatches(s, DerivePrivate(s, PrivateBase(s, digest, key).value, i, false, false).value, ops[i], j)
    ensures var txKey := DerivePrivate(s, PrivateBase(s, digest, key).value, i, false, false).value;
      var utxo := UtxoAt(ops[i], j, OutputAt(ops[i], j).value.address.value);
      Payable(s, digest, key, ops, (utxo.txId, utxo.outputIndex),
        (utxo, DerivePrivate(s, txKey, j, false, false).value.key))
  {
    hide DerivePrivate, PrivateBase, StampKey;
    StampKeyFromBase(s, digest, key, i, j);
    var txKey := DerivePrivate(s, PrivateBase(s, digest, key).value, i, false, false).value;
    var utxo := UtxoAt(ops[i], j, OutputAt(ops[i], j).value.address.value);
    assert PaysTo(s, digest, key, ops, (utxo.txId, utxo.outputIndex),
      (utxo, DerivePrivate(s, txKey, j, false, false).value.key), i, j);
  }

  lemma {:induction false} OutputsOnlyAdd(s: Scheme, digest: Digest, key: nat, ops: seq<StampOutpoints>, i: nat,
      txKey: HDPrivateKey, n: nat, before: Utxos, utxos: Utxos)
    requires i < |ops| && n <= |ops[i].vouts| && PrivateBase(s, digest, key).Success?
    requires DerivePrivate(s, PrivateBase(s, digest, key).value, i, false, false) == Success(txKey)
    requires OnlyAdds(s, digest, key, ops, before, utxos)
    ensures OnlyAdds(s, digest, key, ops, before, WalletAfterOutputs(s, txKey, ops[i], n, false, utxos))
  {
    hide DerivePrivate, PrivateBase, Payable, OutputMatches, AllReadable;
    if n != 0 {
      OutputsOnlyAdd(s, digest, key, ops, i, txKey, n - 1, before, utxos);
      if OutputMatches(s, txKey, ops[i], n - 1) {
        MatchPaysTo(s, digest, key, ops, i, n - 1);
      }
    }
  }

  lemma {:induction false} TxsOnlyAdd(s: Scheme, digest: Digest, key: nat, ops: seq<StampOutpoints>,
    n: nat, utxos: Utxos)
    requires n <= |ops| && PrivateBase(s, digest, key).Success?
    ensures OnlyAdds(s, digest, key, ops, utxos,
      WalletAfterTxs(s, PrivateBase(s, digest, key).value, ops, n, false, utxos))
  {
    hide DerivePrivate, PrivateBase, Payable, WalletAfterOutputs, ReceiveTxs;
    if n != 0 {
      TxsOnlyAdd(s, digest, key, ops, n - 1, utxos);
      var base := PrivateBase(s, digest, key).value;
      var txKey := DerivePrivate(s, base, n - 1, false, false);
      if txKey.Success? {
        OutputsOnlyAdd(s, digest, key, ops, n - 1, txKey.value, |ops[n - 1].vouts|, utxos,
          WalletAfterTxs(s, base, ops, n - 1, false, utxos));
      }
    }
  }

  /** An inbound message, also one that fails, takes nothing out of the wallet and changes or adds
      nothing but listed outputs that pay to their key. */
  lemma InboundOnlyAdds(s: Scheme, digest: Digest, key: nat, ops: seq<StampOutpoints>, utxos: Utxos)
    ensures OnlyAdds(s, digest, key, ops, utxos, WalletAfter(s, digest, key, ops, false, utxos))
  {
    hide PrivateBase, WalletAfterTxs, Payable;
    if PrivateBase(s, digest, key).Success? {
      TxsOnlyAdd(s, digest, key, ops, |ops|, utxos);
    }
  }

  /** So every other outpoint is in the wallet as before, or not at all. */
  lemma InboundLeaves(s: Scheme, digest: Digest, key: nat, ops: seq<StampOutpoints>, utxos: Utxos, id: Outpoint)
    requires forall entry :: !Payable(s, digest, key, ops, id, entry)
    ensures var after := WalletAfter(s, digest, key, ops, false, utxos);
      (id in after <==> id in utxos) && (id in utxos ==> after[id] == utxos[id])
  {
    hide Payable, WalletAfter;
    InboundOnlyAdds(s, digest, key, ops, utxos);
  }

  lemma {:induction false} OutputsGrow(s: Scheme, txKey: HDPrivateKey, op: StampOutpoints, m: nat, n: nat, utxos: Utxos)
    requires m <= n <= |op.vouts|
    ensures forall id :: id in WalletAfterOutputs(s, txKey, op, m, false, utxos) ==>
      id in WalletAfterOutputs(s, txKey, op, n, false, utxos)
    decreases n
  {
    hide DerivePrivate, OutputMatches, AllReadable;
    if m < n {
      OutputsGrow(s, txKey, op, m, n - 1, utxos);
    }
  }

  lemma {:induction false} TxsGrow(s: Scheme, base: HDPrivateKey, ops: seq<StampOutpoints>, m: nat,
    n: nat, utxos: Utxos)
    requires m <= n <= |ops|
    ensures forall id :: id in WalletAfterTxs(s, base, ops, m, false, utxos) ==>
      id in WalletAfterTxs(s, base, ops, n, false, utxos)
    decreases n
  {
    hide DerivePrivate, WalletAfterOutputs, ReceiveTxs;
    if m < n {
      TxsGrow(s, base, ops, m, n - 1, utxos);
      var txKey := DerivePrivate(s, base, n - 1, false, false);
      var before := WalletAfterTxs(s, base, ops, n - 1, false, utxos);
      if txKey.Success? {
        OutputsGrow(s, txKey.value, ops[n - 1], 0, |ops[n - 1].vouts|, before);
        NoOutputs(s, txKey.value, ops[n - 1], before);
      }
    }
  }

  lemma NoOutputs(s: Scheme, txKey: HDPrivateKey, op: StampOutpoints, utxos: Utxos)
    ensures WalletAfterOutputs(s, txKey, op, 0, false, utxos) == utxos
  {
  }

  /** A matching output that is reached before anything fails is put into the wallet, also of a
      message that fails later. */
  lemma InboundPuts(s: Scheme, digest: Digest, key: nat, ops: seq<StampOutpoints>, i: nat, j: nat, utxos: Utxos)
    requires PrivateBase(s, digest, key).Success? && i < |ops| && j < |ops[i].vouts|
    requires ReceiveTxs(s, PrivateBase(s, digest, key).value, ops, i, false).Success?
    requires DerivePrivate(s, PrivateBase(s, digest, key).value, i, false, false).Success?
    requires var txKey := DerivePrivate(s, PrivateBase(s, digest, key).value, i, false, false).value;
      AllReadable(s, txKey, ops[i], j) && OutputMatches(s, txKey, ops[i], j)
    ensures (ops[i].tx.txId, ops[i].vouts[j]) in WalletAfter(s, digest, key, ops, false, utxos)
  {
    hide DerivePrivate, PrivateBase, ReceiveTxs, AllReadable, OutputMatches;
    var base := PrivateBase(s, digest, key).value;
    var txKey := DerivePrivate(s, base, i, false, false).value;
    var before := WalletAfterTxs(s, base, ops, i, false, utxos);
    assert OutputAt(ops[i], j).Some? && OutputAt(ops[i], j).value.address.Some? by {
      MatchExists(s, txKey, ops[i], j);
    }
    assert (ops[i].tx.txId, ops[i].vouts[j]) in WalletAfterOutputs(s, txKey, ops[i], j + 1, false, before);
    OutputsGrow(s, txKey, ops[i], j + 1, |ops[i].vouts|, before);
    TxsGrow(s, base, ops, i + 1, |ops|, utxos);
  }

  lemma MatchExists(s: Scheme, txKey: HDPrivateKey, op: StampOutpoints, j: nat)
    requires j < |op.vouts| && OutputMatches(s, txKey, op, j)
    ensures OutputAt(op, j).Some? && OutputAt(op, j).value.address.Some?
  {
    hide DerivePrivate;
  }

  // ----- what is recorded -----

  /** The outpoint is listed output j of the transaction, whoever it pays to. */
  ghost predicate ListedAt(op: StampOutpoints, u: Utxo, j: nat) {
    j < |op.vouts| && op.vouts[j] < |op.tx.outputs| &&
    var output := op.tx.outputs[op.vouts[j]];
    output.address.Some? && u == Utxo(output.address.value, output.satoshis, op.tx.txId, op.vouts[j])
  }

  /** Listed output j is what is recorded j places behind `from`. */
  ghost predicate RecordedFrom(op: StampOutpoints, us: seq<Utxo>, from: nat, j: nat) {
    from + j < |us| && ListedAt(op, us[from + j], j)
  }

  lemma {:induction false} OutboundTxRecords(s: Scheme, txKey: HDPrivateKey, op: StampOutpoints, n: nat, acc: Received)
    requires n <= |op.vouts| && ReceiveOutputs(s, txKey, op, n, true, acc).Success?
    ensures var r := ReceiveOutputs(s, txKey, op, n, true, acc).value;
      |r.outpoints| == |acc.outpoints| + n && r.outpoints == acc.outpoints + ListedUtxos(op, n) && r.keys == acc.keys &&
      forall j: nat :: j < n ==> RecordedFrom(op, r.outpoints, |acc.outpoints|, j)
  {
    hide DerivePrivate;
    if n != 0 {
      OutboundTxRecords(s, txKey, op, n - 1, acc);
      var before := ReceiveOutputs(s, txKey, op, n - 1, true, acc).value.outpoints;
      var us := ReceiveOutputs(s, txKey, op, n, true, acc).value.outpoints;
      forall j: nat | j < n
        ensures RecordedFrom(op, us, |acc.outpoints|, j)
      {
        assert j < n - 1 ==> RecordedFrom(op, before, |acc.outpoints|, j);
      }
    }
  }

  lemma {:induction false} OutboundTxsRecord(s: Scheme, base: HDPrivateKey, ops: seq<StampOutpoints>, n: nat)
    requires n <= |ops| && ReceiveTxs(s, base, ops, n, true).Success?
    ensures var r := ReceiveTxs(s, base, ops, n, true).value;
      |r.outpoints| == TotalOutputs(ops, n) && r.outpoints == AllListed(ops, n) && r.keys == [] &&
      forall i: nat, j: nat :: i < n && j < |ops[i].vouts| ==>
        RecordedFrom(ops[i], r.outpoints, TotalOutputs(ops, i), j)
  {
    hide DerivePrivate, ListedAt, ReceiveOutputs, ListedUtxos;
    if n != 0 {
      OutboundTxsRecord(s, base, ops, n - 1);
      var op, acc := ops[n - 1], ReceiveTxs(s, base, ops, n - 1, true).value;
      var txKey := DerivePrivate(s, base, n - 1, false, false).value;
      OutboundTxRecords(s, txKey, op, |op.vouts|, acc);
      var us := ReceiveTxs(s, base, ops, n, true).value.outpoints;
      forall i: nat, j: nat | i < n && j < |ops[i].vouts|
        ensures RecordedFrom(ops[i], us, TotalOutputs(ops, i), j)
      {
        if i < n - 1 {
          assert RecordedFrom(ops[i], acc.outpoints, TotalOutputs(ops, i), j);
          assert us[..|acc.outpoints|] == acc.outpoints;
        }
      }
    }
  }

  /** A successful outbound message records every output it lists, in order, whatever its
      address, and keeps no key. */
  lemma OutboundRecordsAll(s: Scheme, digest: Digest, key: nat, ops: seq<StampOutpoints>)
    requires Receive(s, digest, key, ops, true).Success?
    ensures var r := Receive(s, digest, key, ops, true).value;
      |r.outpoints| == TotalOutputs(ops, |ops|) && r.outpoints == AllListed(ops, |ops|) && r.keys == [] &&
      forall i: nat, j: nat :: i < |ops| && j < |ops[i].vouts| ==>
        RecordedFrom(ops[i], r.outpoints, TotalOutputs(ops, i), j)
  {
    hide ReceiveTxs, PrivateBase;
    OutboundTxsRecord(s, PrivateBase(s, digest, key).value, ops, |ops|);
  }

  lemma {:induction false} InboundTxRecords(s: Scheme, digest: Digest, key: nat, ops: seq<StampOutpoints>, i: nat,
      txKey: HDPrivateKey, n: nat, acc: Received)
    requires i < |ops| && n <= |ops[i].vouts| && ReceiveOutputs(s, txKey, ops[i], n, false, acc).Success?
    requires PrivateBase(s, digest, key).Success?
    requires DerivePrivate(s, PrivateBase(s, digest, key).value, i, false, false) == Success(txKey)
    requires RecordsPayable(s, digest, key, ops, acc)
    ensures RecordsPayable(s, digest, key, ops, ReceiveOutputs(s, txKey, ops[i], n, false, acc).value)
  {
    hide DerivePrivate, PrivateBase, Payable;
    if n != 0 {
      InboundTxRecords(s, digest, key, ops, i, txKey, n - 1, acc);
      if OutputMatches(s, txKey, ops[i], n - 1) {
        MatchPaysTo(s, digest, key, ops, i, n - 1);
      }
    }
  }

  /** Outpoints and keys go together as listed outputs and the keys they pay to. */
  ghost predicate RecordsPayable(s: Scheme, digest: Digest, key: nat, ops: seq<StampOutpoints>, r: Received) {
    |r.outpoints| == |r.keys| && forall m :: 0 <= m < |r.keys| ==>
      Payable(s, digest, key, ops, (r.outpoints[m].txId, r.outpoints[m].outputIndex), (r.outpoints[m], r.keys[m]))
  }

  lemma {:induction false} InboundTxsRecord(s: Scheme, digest: Digest, key: nat, ops: seq<StampOutpoints>, n: nat)
    requires n <= |ops| && PrivateBase(s, digest, key).Success?
    requires ReceiveTxs(s, PrivateBase(s, digest, key).value, ops, n, false).Success?
    ensures RecordsPayable(s, digest, key, ops, ReceiveTxs(s, PrivateBase(s, digest, key).value, ops, n, false).value)
  {
    hide DerivePrivate, PrivateBase, ReceiveOutputs, Payable;
    if n != 0 {
      InboundTxsRecord(s, digest, key, ops, n - 1);
      var base := PrivateBase(s, digest, key).value;
      InboundTxRecords(s, digest, key, ops, n - 1, DerivePrivate(s, base, n - 1, false, false).value,
        |ops[n - 1].vouts|, ReceiveTxs(s, base, ops, n - 1, false).value);
    }
  }

  /** A successful inbound message records listed outputs with the keys they pay to, child
      44, 145, i, j each. Which ones, `TxsKept` and `RelayedStampsAreReceived` say. */
  lemma InboundRecordsPayable(s: Scheme, digest: Digest, key: nat, ops: seq<StampOutpoints>)
    requires Receive(s, digest, key, ops, false).Success?
    ensures RecordsPayable(s, digest, key, ops, Receive(s, digest, key, ops, false).value)
  {
    InboundTxsRecord(s, digest, key, ops, |ops|);
  }
}
