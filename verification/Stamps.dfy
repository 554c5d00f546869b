/** Recipient-spendable stamps: the sender and the relay derive addresses from public data,
    the recipient derives the keys, and derives them again after a restart. */
module Stamps {
  import opened Arith
  import opened HdKeys

  datatype Option<T> = None | Some(value: T)

  datatype Output = Output(satoshis: nat, address: Option<Address>)

  /** Transaction id and output index, which calcUtxoId makes one key of. */
  type Outpoint = (Digest, nat)

  datatype Transaction = Transaction(txId: Digest, inputs: seq<Outpoint>, outputs: seq<Output>)

  /** A stamp transaction and which of its outputs are stamps. */
  datatype StampOutpoints = StampOutpoints(tx: Transaction, vouts: seq<nat>)

  datatype Utxo = Utxo(address: Address, satoshis: nat, txId: Digest, outputIndex: nat)

  // ----- root keys -----

  /** constructStampHDPublicKey; the digest must be a valid private key. */
  function StampPublicRoot(s: Scheme, digest: Digest, destination: Point): Result<HDPublicKey> {
    if !ValidKey(s, digest) then Failure(InvalidKey)
    else
      var point := s.add(s.mulG(digest), destination);
      if point == Infinity then Failure(InvalidKey) else Success(HDPublicKey(point, digest, 0, 0))
  }

  /** constructStampHDPrivateKey */
  function StampPrivateRoot(s: Scheme, digest: Digest, key: nat): Result<HDPrivateKey> {
    var stampKey := (digest + key) % s.n;
    if stampKey == 0 then Failure(InvalidKey) else Success(HDPrivateKey(stampKey, digest, 0, 0))
  }

  /** The digest of an ephemeral Diffie-Hellman point. */
  function StealthDigest(s: Scheme, point: Point, key: nat): Digest {
    s.pointHash(s.mul(point, key))
  }

  /** constructHDStealthPublicKey */
  function StealthPublicRoot(s: Scheme, ephemeral: nat, destination: Point): Result<HDPublicKey> {
    StampPublicRoot(s, StealthDigest(s, destination, ephemeral), destination)
  }

  /** constructHDStealthPrivateKey */
  function StealthPrivateRoot(s: Scheme, ephemeral: Point, key: nat): Result<HDPrivateKey> {
    StampPrivateRoot(s, StealthDigest(s, ephemeral, key), key)
  }

  lemma RootsCommute(s: Scheme, digest: Digest, key: nat)
    requires Cyclic(s)
    ensures StampPublicRoot(s, digest, s.mulG(key)) ==
      var r := StampPrivateRoot(s, digest, key);
      if ValidKey(s, digest) && r.Success? then Success(PublicOf(s, r.value)) else Failure(InvalidKey)
  {
    hide Cyclic;
    ChildPoint(s, digest, key);
  }

  /** The recipient's root key is the secret behind the point of the digest plus that of the
      destination, if there is one, and the digest is its chain code. */
  lemma RootIsSum(s: Scheme, digest: Digest, key: nat)
    requires Cyclic(s)
    ensures var r, sum := StampPrivateRoot(s, digest, key), s.add(s.mulG(digest), s.mulG(key));
      if sum == Infinity then r.Failure?
      else r.Success? && s.mulG(r.value.key) == sum && ValidKey(s, r.value.key) && r.value.chainCode == digest
  {
    hide Cyclic;
    ChildPoint(s, digest, key);
    DivMod(digest + key, s.n);
  }

  /** One destination has different root keys for different payloads, and so have different
      destinations for one payload. */
  lemma RootsDiffer(s: Scheme, digest: Digest, digest': Digest, key: nat, key': nat)
    requires ValidKey(s, digest) && ValidKey(s, digest') && ValidKey(s, key) && ValidKey(s, key')
    requires StampPrivateRoot(s, digest, key).Success? && StampPrivateRoot(s, digest', key').Success?
    requires StampPrivateRoot(s, digest, key).value.key == StampPrivateRoot(s, digest', key').value.key
    ensures digest == digest' <==> key == key'
  {
    if digest == digest' {
      SameSummand(digest, key, key', s.n);
    } else if key == key' {
      SameSummand(key, digest, digest', s.n);
    }
  }

  lemma SameSummand(a: int, x: int, y: int, n: int)
    requires 0 < n && 0 <= x < n && 0 <= y < n && (a + x) % n == (a + y) % n
    ensures x == y
  {
    ModAdd(a + x, -a, n);
    ModAdd(a + y, -a, n);
    ModSmall(x, n);
    ModSmall(y, n);
  }

  /** The sender's and the recipient's stealth keys are the two halves of one key, although
      each knows only one of the two secrets. */
  lemma StealthRootsCommute(s: Scheme, ephemeral: nat, key: nat)
    requires Cyclic(s)
    ensures var digest := StealthDigest(s, s.mulG(key), ephemeral);
      digest == StealthDigest(s, s.mulG(ephemeral), key)
    ensures StealthPublicRoot(s, ephemeral, s.mulG(key)) ==
      var r := StealthPrivateRoot(s, s.mulG(ephemeral), key);
      if ValidKey(s, StealthDigest(s, s.mulG(ephemeral), key)) && r.Success? then Success(PublicOf(s, r.value))
      else Failure(InvalidKey)
  {
    MulComm(key, ephemeral);
    assert s.mul(s.mulG(key), ephemeral) == s.mulG(key * ephemeral);
    assert s.mul(s.mulG(ephemeral), key) == s.mulG(ephemeral * key);
    RootsCommute(s, StealthDigest(s, s.mulG(ephemeral), key), key);
  }

  /** The stealth key is the stamp key for the hash of the shared point. */
  lemma StealthRootIsSum(s: Scheme, ephemeral: nat, key: nat)
    requires Cyclic(s)
    ensures var shared := s.pointHash(s.mulG(ephemeral * key));
      var r, sum := StealthPrivateRoot(s, s.mulG(ephemeral), key), s.add(s.mulG(shared), s.mulG(key));
      if sum == Infinity then r.Failure?
      else r.Success? && s.mulG(r.value.key) == sum && ValidKey(s, r.value.key) && r.value.chainCode == shared
  {
    hide StampPrivateRoot, ValidKey;
    assert s.mul(s.mulG(ephemeral), key) == s.mulG(ephemeral * key);
    hide Cyclic;
    RootIsSum(s, StealthDigest(s, s.mulG(ephemeral), key), key);
  }

  /** root.deriveChild(44).deriveChild(145) */
  function PublicBase(s: Scheme, digest: Digest, destination: Point): Result<HDPublicKey> {
    var root := StampPublicRoot(s, digest, destination);
    if root.Failure? then root else DerivePublicPath(s, root.value, [44, 145])
  }

  function PrivateBase(s: Scheme, digest: Digest, key: nat): Result<HDPrivateKey> {
    var root := StampPrivateRoot(s, digest, key);
    if root.Failure? then root else DerivePrivatePath(s, root.value, [44, 145])
  }

  /** Whenever the relay has a base key, the recipient has its private half. */
  lemma BasesCommute(s: Scheme, digest: Digest, key: nat)
    requires Cyclic(s) && PublicBase(s, digest, s.mulG(key)).Success?
    ensures PrivateBase(s, digest, key).Success?
    ensures PublicBase(s, digest, s.mulG(key)) == Success(PublicOf(s, PrivateBase(s, digest, key).value))
  {
    hide Cyclic, DerivePublicPath, DerivePrivatePath, StaysPublic;
    RootsCommute(s, digest, key);
    var root := StampPrivateRoot(s, digest, key);
    PathsCommute(s, root.value, [44, 145]);
  }

  // ----- what a message lists -----

  function OutputAt(op: StampOutpoints, j: nat): Option<Output>
    requires j < |op.vouts|
  {
    if op.vouts[j] < |op.tx.outputs| then Some(op.tx.outputs[op.vouts[j]]) else None
  }

  function UtxoAt(op: StampOutpoints, j: nat, address: Address): Utxo
    requires j < |op.vouts| && OutputAt(op, j).Some?
  {
    Utxo(address, OutputAt(op, j).value.satoshis, op.tx.txId, op.vouts[j])
  }

  /** The value of the first n listed outputs of a transaction. */
  function TxValue(op: StampOutpoints, n: nat): nat
    requires n <= |op.vouts|
  {
    if n == 0 then 0
    else TxValue(op, n - 1) + (if OutputAt(op, n - 1).Some? then OutputAt(op, n - 1).value.satoshis else 0)
  }

  function TotalValue(ops: seq<StampOutpoints>, n: nat): nat
    requires n <= |ops|
  {
    if n == 0 then 0 else TotalValue(ops, n - 1) + TxValue(ops[n - 1], |ops[n - 1].vouts|)
  }

  function TotalOutputs(ops: seq<StampOutpoints>, n: nat): nat
    requires n <= |ops|
  {
    if n == 0 then 0 else TotalOutputs(ops, n - 1) + |ops[n - 1].vouts|
  }

  // ----- the relay -----

  /** Listed output j exists and pays to child j of the transaction's key. */
  predicate OutputCommits(s: Scheme, txKey: HDPublicKey, op: StampOutpoints, j: nat)
    requires j < |op.vouts|
  {
    var child := DerivePublic(s, txKey, j);
    OutputAt(op, j).Some? && child.Success? && OutputAt(op, j).value.address == Some(s.addressOf(child.value.point))
  }

  predicate TxCommits(s: Scheme, base: HDPublicKey, op: StampOutpoints, i: nat) {
    var txKey := DerivePublic(s, base, i);
    txKey.Success? && forall j :: 0 <= j < |op.vouts| ==> OutputCommits(s, txKey.value, op, j)
  }

  predicate Commits(s: Scheme, digest: Digest, destination: Point, ops: seq<StampOutpoints>) {
    var base := PublicBase(s, digest, destination);
    base.Success? && forall i :: 0 <= i < |ops| ==> TxCommits(s, base.value, ops[i], i)
  }

  datatype Commitment = Commitment(total: nat, outputs: nat)

  /** verifyStampCommitment: accepts exactly the stamps whose every listed output pays to its
      derived address, and adds them up. A message without outpoints is not looked into. */
  method VerifyStampCommitment(s: Scheme, digest: Digest, destination: Point, ops: seq<StampOutpoints>)
    returns (r: Result<Commitment>)
    ensures r.Success? <==> ops == [] || Commits(s, digest, destination, ops)
    ensures r.Success? ==> r.value == Commitment(TotalValue(ops, |ops|), TotalOutputs(ops, |ops|))
  {
    hide DerivePublic, PublicBase;
    if ops == [] {
      return Success(Commitment(0, 0));
    }
    var base := PublicBase(s, digest, destination);
    if base.Failure? {
      return Failure(base.error);
    }
    var total, outputs := 0, 0;
    var txIndex := 0;
    while txIndex < |ops|
      invariant 0 <= txIndex <= |ops|
      invariant forall i :: 0 <= i < txIndex ==> TxCommits(s, base.value, ops[i], i)
      invariant total == TotalValue(ops, txIndex) && outputs == TotalOutputs(ops, txIndex)
    {
      var tx := VerifyTransaction(s, base.value, ops[txIndex], txIndex);
      if tx.Failure? {
        return tx;
      }
      total, outputs := total + tx.value.total, outputs + tx.value.outputs;
      txIndex := txIndex + 1;
    }
    r := Success(Commitment(total, outputs));
  }

  method VerifyTransaction(s: Scheme, base: HDPublicKey, op: StampOutpoints, txIndex: nat)
    returns (r: Result<Commitment>)
    ensures r.Success? <==> TxCommits(s, base, op, txIndex)
    ensures r.Success? ==> r.value == Commitment(TxValue(op, |op.vouts|), |op.vouts|)
  {
    hide DerivePublic;
    var txKey := DerivePublic(s, base, txIndex);
    if txKey.Failure? {
      return Failure(txKey.error);
    }
    var total, outputs := 0, 0;
    var j := 0;
    while j < |op.vouts|
      invariant 0 <= j <= |op.vouts|
      invariant forall k :: 0 <= k < j ==> OutputCommits(s, txKey.value, op, k)
      invariant total == TxValue(op, j) && outputs == j
    {
      ghost var commits := OutputCommits(s, txKey.value, op, j);
      var vout := op.vouts[j];
      if vout >= |op.tx.outputs| {
        return Failure(OutputOutOfRange);
      }
      var derived := DerivePublic(s, txKey.value, j);
      if derived.Failure? {
        return Failure(derived.error);
      }
      var expected := s.addressOf(derived.value.point);
      var actual := op.tx.outputs[vout].address;
      if actual.None? {
        return Failure(NoAddress);
      }
      if actual.value != expected {
        return Failure(WrongAddress);
      }
      total := total + op.tx.outputs[vout].satoshis;
      outputs := outputs + 1;
      j := j + 1;
    }
    r := Success(Commitment(total, outputs));
  }

  // ----- the recipient -----

  /** What receiving a message's stamps leaves: the value counted, the outpoints recorded and,
      unless the message is an outbound one, the key of each outpoint. */
  datatype Received = Received(stampValue: nat, outpoints: seq<Utxo>, keys: seq<nat>)

  function ReceiveOutput(s: Scheme, txKey: HDPrivateKey, op: StampOutpoints, j: nat, outbound: bool,
      acc: Received): Result<Received>
    requires j < |op.vouts|
  {
    var output := OutputAt(op, j);
    if output.None? then Failure(OutputOutOfRange)
    else
      var child := DerivePrivate(s, txKey, j, false, false);
      if child.Failure? then Failure(child.error)
      else if output.value.address.None? then Failure(NoAddress)
      else
        var counted := acc.(stampValue := acc.stampValue + output.value.satoshis);
        var address := output.value.address.value;
        if !outbound && address != s.addressOf(s.mulG(child.value.key)) then Success(counted)
        else
          Success(counted.(
            outpoints := counted.outpoints + [UtxoAt(op, j, address)],
            keys := if outbound then counted.keys else counted.keys + [child.value.key]))
  }

  /** ... for the first n listed outputs of a transaction */
  function ReceiveOutputs(s: Scheme, txKey: HDPrivateKey, op: StampOutpoints, n: nat, outbound: bool,
      acc: Received): Result<Received>
    requires n <= |op.vouts|
  {
    if n == 0 then Success(acc)
    else
      var r := ReceiveOutputs(s, txKey, op, n - 1, outbound, acc);
      if r.Failure? then r else ReceiveOutput(s, txKey, op, n - 1, outbound, r.value)
  }

  function ReceiveTx(s: Scheme, base: HDPrivateKey, op: StampOutpoints, i: nat, outbound: bool,
      acc: Received): Result<Received> {
    var txKey := DerivePrivate(s, base, i, false, false);
    if txKey.Failure? then Failure(txKey.error)
    else ReceiveOutputs(s, txKey.value, op, |op.vouts|, outbound, acc)
  }

  /** ... for the first n transactions */
  function ReceiveTxs(s: Scheme, base: HDPrivateKey, ops: seq<StampOutpoints>, n: nat, outbound: bool): Result<Received>
    requires n <= |ops|
  {
    if n == 0 then Success(Received(0, [], []))
    else
      var r := ReceiveTxs(s, base, ops, n - 1, outbound);
      if r.Failure? then r else ReceiveTx(s, base, ops[n - 1], n - 1, outbound, r.value)
  }

  function Receive(s: Scheme, digest: Digest, key: nat, ops: seq<StampOutpoints>, outbound: bool): Result<Received> {
    var base := PrivateBase(s, digest, key);
    if base.Failure? then Failure(base.error) else ReceiveTxs(s, base.value, ops, |ops|, outbound)
  }

  /** Spendable outputs, each with its key. */
  type Utxos = map<Outpoint, (Utxo, nat)>

  function InputSet(op: StampOutpoints): set<Outpoint> {
    set i | 0 <= i < |op.tx.inputs| :: op.tx.inputs[i]
  }

  /** What a message leaves of a wallet, whether or not receiving it fails somewhere: an
      inbound one adds each matching output up to the failure. */
  function WalletAfterOutputs(s: Scheme, txKey: HDPrivateKey, op: StampOutpoints, n: nat, outbound: bool,
      utxos: Utxos): Utxos
    requires n <= |op.vouts|
  {
    if n == 0 then utxos
    else
      var before := WalletAfterOutputs(s, txKey, op, n - 1, outbound, utxos);
      if outbound || !AllReadable(s, txKey, op, n - 1) || !OutputMatches(s, txKey, op, n - 1) then before
      else
        var utxo := UtxoAt(op, n - 1, OutputAt(op, n - 1).value.address.value);
        before[(utxo.txId, utxo.outputIndex) := (utxo, DerivePrivate(s, txKey, n - 1, false, false).value.key)]
  }

  /** Receiving has not failed within the first n outputs. */
  predicate AllReadable(s: Scheme, txKey: HDPrivateKey, op: StampOutpoints, n: nat)
    requires n <= |op.vouts|
  {
    n == 0 || (AllReadable(s, txKey, op, n - 1) && OutputAt(op, n - 1).Some? &&
               DerivePrivate(s, txKey, n - 1, false, false).Success? && OutputAt(op, n - 1).value.address.Some?)
  }

  /** An outbound message removes the inputs of each transaction it gets to. */
  function WalletAfterTx(s: Scheme, base: HDPrivateKey, op: StampOutpoints, i: nat, outbound: bool,
      utxos: Utxos): Utxos
  {
    var txKey := DerivePrivate(s, base, i, false, false);
    if txKey.Failure? then utxos
    else WalletAfterOutputs(s, txKey.value, op, |op.vouts|, outbound, if outbound then utxos - InputSet(op) else utxos)
  }

  function WalletAfterTxs(s: Scheme, base: HDPrivateKey, ops: seq<StampOutpoints>, n: nat, outbound: bool,
      utxos: Utxos): Utxos
    requires n <= |ops|
  {
    if n == 0 then utxos
    else
      var before := WalletAfterTxs(s, base, ops, n - 1, outbound, utxos);
      if ReceiveTxs(s, base, ops, n - 1, outbound).Failure? then before
      else WalletAfterTx(s, base, ops[n - 1], n - 1, outbound, before)
  }

  function WalletAfter(s: Scheme, digest: Digest, key: nat, ops: seq<StampOutpoints>, outbound: bool,
      utxos: Utxos): Utxos
  {
    var base := PrivateBase(s, digest, key);
    if base.Failure? then utxos else WalletAfterTxs(s, base.value, ops, |ops|, outbound, utxos)
  }

  class Wallet {
    var spendable: Utxos

    constructor ()
      ensures spendable == map[]
    {
      spendable := map[];
    }

    method PutUtxo(utxo: Utxo, key: nat)
      modifies this
      ensures spendable == old(spendable)[(utxo.txId, utxo.outputIndex) := (utxo, key)]
    {
      spendable := spendable[(utxo.txId, utxo.outputIndex) := (utxo, key)];
    }

    method DeleteUtxo(id: Outpoint)
      modifies this
      ensures spendable == old(spendable) - {id}
    {
      spendable := spendable - {id};
    }

    /** The loop over a transaction's inputs. */
    method DeleteInputs(op: StampOutpoints)
      modifies this
      ensures spendable == old(spendable) - InputSet(op)
    {
      var i := 0;
      while i < |op.tx.inputs|
        invariant 0 <= i <= |op.tx.inputs|
        invariant spendable == old(spendable) - set k | 0 <= k < i :: op.tx.inputs[k]
      {
        DeleteUtxo(op.tx.inputs[i]);
        i := i + 1;
      }
    }
  }

  /** Every outpoint is in the wallet with a key whose address it pays to. */
  ghost predicate Spendable(s: Scheme, wallet: Utxos, utxos: seq<Utxo>) {
    forall m :: 0 <= m < |utxos| ==>
      (utxos[m].txId, utxos[m].outputIndex) in wallet &&
      var (utxo, key) := wallet[(utxos[m].txId, utxos[m].outputIndex)];
      utxo.txId == utxos[m].txId && utxo.outputIndex == utxos[m].outputIndex && s.addressOf(s.mulG(key)) == utxo.address
  }

  /** The stamp loop of receiveMessage. The wallet ends as WalletAfter says on every path,
      failures included. */
  method ReceiveStamps(s: Scheme, digest: Digest, key: nat, ops: seq<StampOutpoints>, outbound: bool, wallet: Wallet)
    returns (r: Result<Received>)
    modifies wallet
    ensures r == Receive(s, digest, key, ops, outbound)
    ensures wallet.spendable == WalletAfter(s, digest, key, ops, outbound, old(wallet.spendable))
    ensures r.Success? && !outbound ==> Spendable(s, wallet.spendable, r.value.outpoints)
  {
    hide DerivePrivate, PrivateBase, WalletAfterTx, ReceiveTx;
    ghost var utxos := wallet.spendable;
    var base := PrivateBase(s, digest, key);
    if base.Failure? {
      return Failure(base.error);
    }
    var acc := Received(0, [], []);
    var i := 0;
    while i < |ops|
      invariant 0 <= i <= |ops| && ReceiveTxs(s, base.value, ops, i, outbound) == Success(acc)
      invariant wallet.spendable == WalletAfterTxs(s, base.value, ops, i, outbound, utxos)
      invariant !outbound ==> Spendable(s, wallet.spendable, acc.outpoints)
    {
      var tx := ReceiveTransaction(s, base.value, ops[i], i, outbound, acc, wallet);
      if tx.Failure? {
        ReceiveFails(s, base.value, ops, i, outbound, utxos);
        return tx;
      }
      acc := tx.value;
      i := i + 1;
    }
    r := Success(acc);
  }

  /** After a failure nothing more happens. */
  lemma {:induction false} ReceiveFails(s: Scheme, base: HDPrivateKey, ops: seq<StampOutpoints>, i: nat, outbound: bool,
      utxos: Utxos)
    requires i < |ops| && ReceiveTxs(s, base, ops, i + 1, outbound).Failure?
    ensures ReceiveTxs(s, base, ops, |ops|, outbound) == ReceiveTxs(s, base, ops, i + 1, outbound)
    ensures WalletAfterTxs(s, base, ops, |ops|, outbound, utxos) == WalletAfterTxs(s, base, ops, i + 1, outbound, utxos)
    decreases |ops| - i
  {
    hide ReceiveTx, WalletAfterTx;
    if i + 1 < |ops| {
      ReceiveFails(s, base, ops, i + 1, outbound, utxos);
    }
  }

  lemma {:induction false} OutputsFail(s: Scheme, txKey: HDPrivateKey, op: StampOutpoints, j: nat,
      outbound: bool, acc: Received, utxos: Utxos)
    requires j < |op.vouts| && ReceiveOutputs(s, txKey, op, j + 1, outbound, acc).Failure?
    ensures ReceiveOutputs(s, txKey, op, |op.vouts|, outbound, acc) ==
      ReceiveOutputs(s, txKey, op, j + 1, outbound, acc)
    ensures WalletAfterOutputs(s, txKey, op, |op.vouts|, outbound, utxos) ==
      WalletAfterOutputs(s, txKey, op, j + 1, outbound, utxos)
    decreases |op.vouts| - j
  {
    hide DerivePrivate, ReceiveOutput, OutputMatches, AllReadable;
    if j + 1 < |op.vouts| {
      OutputsFail(s, txKey, op, j + 1, outbound, acc, utxos);
      ReadableIffReceived(s, txKey, op, j + 1, outbound, acc);
    }
  }

  lemma {:induction false} ReadableIffReceived(s: Scheme, txKey: HDPrivateKey, op: StampOutpoints, n: nat,
      outbound: bool, acc: Received)
    requires n <= |op.vouts|
    ensures AllReadable(s, txKey, op, n) <==> ReceiveOutputs(s, txKey, op, n, outbound, acc).Success?
  {
    hide DerivePrivate;
    if n != 0 {
      ReadableIffReceived(s, txKey, op, n - 1, outbound, acc);
    }
  }

  method ReceiveTransaction(s: Scheme, base: HDPrivateKey, op: StampOutpoints, i: nat, outbound: bool,
      acc0: Received, wallet: Wallet)
    returns (r: Result<Received>)
    requires !outbound ==> Spendable(s, wallet.spendable, acc0.outpoints)
    modifies wallet
    ensures r == ReceiveTx(s, base, op, i, outbound, acc0)
    ensures wallet.spendable == WalletAfterTx(s, base, op, i, outbound, old(wallet.spendable))
    ensures r.Success? && !outbound ==> Spendable(s, wallet.spendable, r.value.outpoints)
  {
    hide DerivePrivate, ReceiveOutput, OutputMatches, AllReadable, InputSet;
    var txKey := DerivePrivate(s, base, i, false, false);
    if txKey.Failure? {
      return Failure(txKey.error);
    }
    if outbound {
      wallet.DeleteInputs(op);
    }
    ghost var utxos := wallet.spendable;
    var acc := acc0;
    var j := 0;
    while j < |op.vouts|
      invariant 0 <= j <= |op.vouts| && ReceiveOutputs(s, txKey.value, op, j, outbound, acc0) == Success(acc)
      invariant wallet.spendable == WalletAfterOutputs(s, txKey.value, op, j, outbound, utxos)
      invariant !outbound ==> Spendable(s, wallet.spendable, acc.outpoints)
    {
      ReadableIffReceived(s, txKey.value, op, j, outbound, acc0);
      var next := ReceiveOneOutput(s, txKey.value, op, j, outbound, acc, wallet);
      if next.Failure? {
        OutputsFail(s, txKey.value, op, j, outbound, acc0, utxos);
        return next;
      }
      acc := next.value;
      j := j + 1;
    }
    r := Success(acc);
  }

  /** One listed output. Its value is counted before the address is looked at. */
  method ReceiveOneOutput(s: Scheme, txKey: HDPrivateKey, op: StampOutpoints, j: nat, outbound: bool,
      acc: Received, wallet: Wallet)
    returns (r: Result<Received>)
    requires j < |op.vouts| && (!outbound ==> Spendable(s, wallet.spendable, acc.outpoints))
    modifies wallet
    ensures r == ReceiveOutput(s, txKey, op, j, outbound, acc)
    ensures !outbound && OutputMatches(s, txKey, op, j) ==>
      wallet.spendable == old(wallet.spendable)[(op.tx.txId, op.vouts[j]) :=
        (UtxoAt(op, j, OutputAt(op, j).value.address.value), DerivePrivate(s, txKey, j, false, false).value.key)]
    ensures outbound || !OutputMatches(s, txKey, op, j) ==> wallet.spendable == old(wallet.spendable)
    ensures r.Success? && !outbound ==> Spendable(s, wallet.spendable, r.value.outpoints)
  {
    hide DerivePrivate;
    if op.vouts[j] >= |op.tx.outputs| {
      return Failure(OutputOutOfRange);
    }
    var output := op.tx.outputs[op.vouts[j]];
    var stampValue := acc.stampValue + output.satoshis;
    var child := DerivePrivate(s, txKey, j, false, false);
    if child.Failure? {
      return Failure(child.error);
    }
    if output.address.None? {
      return Failure(NoAddress);
    }
    var address := output.address.value;
    var computed := s.addressOf(s.mulG(child.value.key));
    if !outbound && address != computed {
      return Success(acc.(stampValue := stampValue));
    }
    var utxo := Utxo(address, output.satoshis, op.tx.txId, op.vouts[j]);
    var outpoints := acc.outpoints + [utxo];
    if outbound {
      return Success(Received(stampValue, outpoints, acc.keys));
    }
    wallet.PutUtxo(utxo, child.value.key);
    r := Success(Received(stampValue, outpoints, acc.keys + [child.value.key]));
  }

  /** The inputs of the first n transactions. */
  function InputsOf(ops: seq<StampOutpoints>, n: nat): set<Outpoint>
    requires n <= |ops|
  {
    if n == 0 then {} else InputsOf(ops, n - 1) + InputSet(ops[n - 1])
  }

  /** How many of the first n transactions an outbound message gets to: all, if everything
      before the last one is received, otherwise up to the one that fails, which counts if its
      key can be derived. */
  function Reached(s: Scheme, base: HDPrivateKey, ops: seq<StampOutpoints>, n: nat): (k: nat)
    requires n <= |ops|
    ensures k <= n
  {
    if n == 0 then 0
    else if ReceiveTxs(s, base, ops, n - 1, true).Failure? || DerivePrivate(s, base, n - 1, false, false).Failure? then
      Reached(s, base, ops, n - 1)
    else n
  }

  lemma {:induction false} OutboundOutputs(s: Scheme, txKey: HDPrivateKey, op: StampOutpoints, n: nat, utxos: Utxos)
    requires n <= |op.vouts|
    ensures WalletAfterOutputs(s, txKey, op, n, true, utxos) == utxos
  {
    hide DerivePrivate, AllReadable, OutputMatches;
    if n != 0 {
      OutboundOutputs(s, txKey, op, n - 1, utxos);
    }
  }

  /** An outbound message takes exactly the inputs of the transactions it gets to out of the
      wallet, also when it fails; all inputs when it does not. */
  lemma {:induction false} OutboundTakesInputs(s: Scheme, base: HDPrivateKey, ops: seq<StampOutpoints>, n: nat,
      utxos: Utxos)
    requires n <= |ops|
    ensures WalletAfterTxs(s, base, ops, n, true, utxos) == utxos - InputsOf(ops, Reached(s, base, ops, n))
    ensures ReceiveTxs(s, base, ops, n, true).Success? ==> Reached(s, base, ops, n) == n
  {
    hide DerivePrivate, InputSet, ReceiveOutputs, WalletAfterOutputs;
    if n != 0 {
      OutboundTakesInputs(s, base, ops, n - 1, utxos);
      var txKey := DerivePrivate(s, base, n - 1, false, false);
      if ReceiveTxs(s, base, ops, n - 1, true).Success? && txKey.Success? {
        var before := utxos - InputsOf(ops, n - 1);
        assert before - InputSet(ops[n - 1]) == utxos - InputsOf(ops, n);
        OutboundOutputs(s, txKey.value, ops[n - 1], |ops[n - 1].vouts|, utxos - InputsOf(ops, n));
      }
    }
  }

  // ----- what the relay accepts, the recipient can spend -----

  function ListedUtxos(op: StampOutpoints, n: nat): seq<Utxo>
    requires n <= |op.vouts|
  {
    if n == 0 then []
    else
      var output := OutputAt(op, n - 1);
      ListedUtxos(op, n - 1) +
      (if output.Some? && output.value.address.Some? then [UtxoAt(op, n - 1, output.value.address.value)] else [])
  }

  /** The outpoints of the first n transactions, in the order they are listed. */
  function AllListed(ops: seq<StampOutpoints>, n: nat): seq<Utxo>
    requires n <= |ops|
  {
    if n == 0 then [] else AllListed(ops, n - 1) + ListedUtxos(ops[n - 1], |ops[n - 1].vouts|)
  }

  function OutputKeys(s: Scheme, txKey: HDPrivateKey, n: nat): seq<nat> {
    if n == 0 then []
    else
      var child := DerivePrivate(s, txKey, n - 1, false, false);
      OutputKeys(s, txKey, n - 1) + (if child.Success? then [child.value.key] else [])
  }

  /** Key j of transaction i is child i, j of the base key. */
  function AllKeys(s: Scheme, base: HDPrivateKey, ops: seq<StampOutpoints>, n: nat): seq<nat>
    requires n <= |ops|
  {
    if n == 0 then []
    else
      var txKey := DerivePrivate(s, base, n - 1, false, false);
      AllKeys(s, base, ops, n - 1) + (if txKey.Success? then OutputKeys(s, txKey.value, |ops[n - 1].vouts|) else [])
  }

  /** On one listed output relay and recipient agree: the relay's check passes exactly when
      the recipient keeps the output, under a child key that is not a hardened one. */
  lemma OutputAgreement(s: Scheme, txKey: HDPrivateKey, op: StampOutpoints, j: nat, acc: Received)
    requires Cyclic(s) && j < |op.vouts|
    ensures var child := DerivePrivate(s, txKey, j, false, false);
      var r := ReceiveOutput(s, txKey, op, j, false, acc);
      OutputCommits(s, PublicOf(s, txKey), op, j) <==>
        child.Success? && child.value.childIndex < HARDENED && r.Success? && |r.value.outpoints| == |acc.outpoints| + 1
  {
    hide Cyclic, DerivePublic, DerivePrivate;
    DerivationCommutes(s, txKey, j);
  }

  /** Listed output j pays to the recipient's child key j. */
  predicate OutputMatches(s: Scheme, txKey: HDPrivateKey, op: StampOutpoints, j: nat)
    requires j < |op.vouts|
  {
    var child := DerivePrivate(s, txKey, j, false, false);
    OutputAt(op, j).Some? && child.Success? &&
    OutputAt(op, j).value.address == Some(s.addressOf(s.mulG(child.value.key)))
  }

  predicate TxMatches(s: Scheme, base: HDPrivateKey, op: StampOutpoints, i: nat) {
    var txKey := DerivePrivate(s, base, i, false, false);
    txKey.Success? && forall j :: 0 <= j < |op.vouts| ==> OutputMatches(s, txKey.value, op, j)
  }

  lemma CommittedTxMatches(s: Scheme, base: HDPrivateKey, op: StampOutpoints, i: nat)
    requires Cyclic(s) && TxCommits(s, PublicOf(s, base), op, i)
    ensures TxMatches(s, base, op, i)
  {
    hide Cyclic, DerivePublic, DerivePrivate, OutputCommits, OutputMatches;
    DerivationCommutes(s, base, i);
    var txKey := DerivePrivate(s, base, i, false, false).value;
    forall j | 0 <= j < |op.vouts|
      ensures OutputMatches(s, txKey, op, j)
    {
      CommittedOutputMatches(s, txKey, op, j);
    }
  }

  lemma CommittedOutputMatches(s: Scheme, txKey: HDPrivateKey, op: StampOutpoints, j: nat)
    requires Cyclic(s) && j < |op.vouts| && OutputCommits(s, PublicOf(s, txKey), op, j)
    ensures OutputMatches(s, txKey, op, j)
  {
    hide Cyclic, DerivePublic, DerivePrivate;
    DerivationCommutes(s, txKey, j);
  }

  lemma {:induction false} MatchingOutputs(s: Scheme, txKey: HDPrivateKey, op: StampOutpoints, n: nat, acc: Received)
    requires n <= |op.vouts|
    requires forall j :: 0 <= j < n ==> OutputMatches(s, txKey, op, j)
    ensures ReceiveOutputs(s, txKey, op, n, false, acc) == Success(Received(
      acc.stampValue + TxValue(op, n), acc.outpoints + ListedUtxos(op, n), acc.keys + OutputKeys(s, txKey, n)))
  {
    hide DerivePrivate;
    if n == 0 {
      assert acc.outpoints + [] == acc.outpoints && acc.keys + [] == acc.keys;
    } else {
      MatchingOutputs(s, txKey, op, n - 1, acc);
      assert OutputMatches(s, txKey, op, n - 1);
      var child := DerivePrivate(s, txKey, n - 1, false, false);
      var utxo := UtxoAt(op, n - 1, OutputAt(op, n - 1).value.address.value);
      assert acc.outpoints + ListedUtxos(op, n) == (acc.outpoints + ListedUtxos(op, n - 1)) + [utxo];
      assert acc.keys + OutputKeys(s, txKey, n) == (acc.keys + OutputKeys(s, txKey, n - 1)) + [child.value.key];
    }
  }

  lemma {:induction false} MatchingTxs(s: Scheme, base: HDPrivateKey, ops: seq<StampOutpoints>, n: nat)
    requires n <= |ops|
    requires forall i :: 0 <= i < n ==> TxMatches(s, base, ops[i], i)
    ensures ReceiveTxs(s, base, ops, n, false) ==
      Success(Received(TotalValue(ops, n), AllListed(ops, n), AllKeys(s, base, ops, n)))
  {
    hide DerivePrivate, ReceiveOutputs, OutputMatches;
    if n != 0 {
      MatchingTxs(s, base, ops, n - 1);
      assert TxMatches(s, base, ops[n - 1], n - 1);
      var txKey := DerivePrivate(s, base, n - 1, false, false);
      var acc := Received(TotalValue(ops, n - 1), AllListed(ops, n - 1), AllKeys(s, base, ops, n - 1));
      MatchingOutputs(s, txKey.value, ops[n - 1], |ops[n - 1].vouts|, acc);
    }
  }

  /** Every stamp the relay accepts is accepted in full by the recipient of an inbound message:
      all listed outputs, with the same total. Only of an empty one, which the relay does not
      look into, the recipient may lack the base key. */
  lemma RelayedStampsAreReceived(s: Scheme, digest: Digest, key: nat, ops: seq<StampOutpoints>)
    requires Cyclic(s) && (ops == [] || Commits(s, digest, s.mulG(key), ops))
    ensures Commits(s, digest, s.mulG(key), ops) ==> PrivateBase(s, digest, key).Success?
    ensures var base := PrivateBase(s, digest, key);
      Receive(s, digest, key, ops, false) ==
        if base.Failure? then Failure(base.error)
        else Success(Received(TotalValue(ops, |ops|), AllListed(ops, |ops|), AllKeys(s, base.value, ops, |ops|)))
  {
    hide Cyclic, PublicBase, PrivateBase, TxCommits, TxMatches;
    if PublicBase(s, digest, s.mulG(key)).Success? {
      BasesCommute(s, digest, key);
    }
    if PrivateBase(s, digest, key).Success? {
      var base := PrivateBase(s, digest, key).value;
      forall i | 0 <= i < |ops|
        ensures TxMatches(s, base, ops[i], i)
      {
        CommittedTxMatches(s, base, ops[i], i);
      }
      MatchingTxs(s, base, ops, |ops|);
    }
  }

  lemma {:induction false} OutputsCounted(s: Scheme, txKey: HDPrivateKey, op: StampOutpoints, n: nat,
      outbound: bool, acc: Received)
    requires n <= |op.vouts| && ReceiveOutputs(s, txKey, op, n, outbound, acc).Success?
    ensures ReceiveOutputs(s, txKey, op, n, outbound, acc).value.stampValue == acc.stampValue + TxValue(op, n)
  {
    hide DerivePrivate;
    if n != 0 {
      OutputsCounted(s, txKey, op, n - 1, outbound, acc);
    }
  }

  lemma {:induction false} TxsCounted(s: Scheme, base: HDPrivateKey, ops: seq<StampOutpoints>, n: nat, outbound: bool)
    requires n <= |ops| && ReceiveTxs(s, base, ops, n, outbound).Success?
    ensures ReceiveTxs(s, base, ops, n, outbound).value.stampValue == TotalValue(ops, n)
  {
    hide DerivePrivate;
    if n != 0 {
      TxsCounted(s, base, ops, n - 1, outbound);
      var txKey := DerivePrivate(s, base, n - 1, false, false);
      OutputsCounted(s, txKey.value, ops[n - 1], |ops[n - 1].vouts|, outbound,
        ReceiveTxs(s, base, ops, n - 1, outbound).value);
    }
  }

  /** The value counted is that of everything listed, outputs refused for their address
      included. */
  lemma EverythingListedIsCounted(s: Scheme, digest: Digest, key: nat, ops: seq<StampOutpoints>, outbound: bool)
    requires Receive(s, digest, key, ops, outbound).Success?
    ensures Receive(s, digest, key, ops, outbound).value.stampValue == TotalValue(ops, |ops|)
  {
    TxsCounted(s, PrivateBase(s, digest, key).value, ops, |ops|, outbound);
  }

  /** What the recorded outpoints are worth. */
  function Worth(us: seq<Utxo>): nat {
    if us == [] then 0 else Worth(us[..|us| - 1]) + us[|us| - 1].satoshis
  }

  /** The output pays to its child key, or pays nothing. */
  predicate NothingLost(s: Scheme, txKey: HDPrivateKey, op: StampOutpoints, j: nat)
    requires j < |op.vouts|
  {
    OutputMatches(s, txKey, op, j) || (OutputAt(op, j).Some? && OutputAt(op, j).value.satoshis == 0)
  }

  predicate NothingLostInTx(s: Scheme, base: HDPrivateKey, op: StampOutpoints, i: nat) {
    var txKey := DerivePrivate(s, base, i, false, false);
    txKey.Success? && forall j :: 0 <= j < |op.vouts| ==> NothingLost(s, txKey.value, op, j)
  }

  lemma WorthOfOneMore(us: seq<Utxo>, u: Utxo)
    ensures Worth(us + [u]) == Worth(us) + u.satoshis
  {
    assert (us + [u])[..|us|] == us;
  }

  lemma {:induction false} OutputsWorth(s: Scheme, txKey: HDPrivateKey, op: StampOutpoints, n: nat, acc: Received)
    requires n <= |op.vouts| && ReceiveOutputs(s, txKey, op, n, false, acc).Success?
    ensures var r := ReceiveOutputs(s, txKey, op, n, false, acc).value;
      var gap := (r.stampValue - Worth(r.outpoints)) - (acc.stampValue - Worth(acc.outpoints));
      gap >= 0 && (gap == 0 <==> forall j :: 0 <= j < n ==> NothingLost(s, txKey, op, j))
  {
    hide DerivePrivate, Worth;
    if n != 0 {
      OutputsWorth(s, txKey, op, n - 1, acc);
      var r := ReceiveOutputs(s, txKey, op, n - 1, false, acc).value;
      var output := OutputAt(op, n - 1).value;
      WorthOfOneMore(r.outpoints, UtxoAt(op, n - 1, output.address.value));
      ghost var last := NothingLost(s, txKey, op, n - 1);
    }
  }

  lemma {:induction false} TxsWorth(s: Scheme, base: HDPrivateKey, ops: seq<StampOutpoints>, n: nat)
    requires n <= |ops| && ReceiveTxs(s, base, ops, n, false).Success?
    ensures var r := ReceiveTxs(s, base, ops, n, false).value;
      Worth(r.outpoints) <= r.stampValue &&
      (Worth(r.outpoints) == r.stampValue <==> forall i :: 0 <= i < n ==> NothingLostInTx(s, base, ops[i], i))
  {
    hide DerivePrivate, NothingLost, ReceiveOutputs;
    if n != 0 {
      TxsWorth(s, base, ops, n - 1);
      var txKey := DerivePrivate(s, base, n - 1, false, false);
      OutputsWorth(s, txKey.value, ops[n - 1], |ops[n - 1].vouts|, ReceiveTxs(s, base, ops, n - 1, false).value);
      ghost var last := NothingLostInTx(s, base, ops[n - 1], n - 1);
    }
  }

  /** The stamp value of an inbound message is never less than the recorded outpoints are
      worth, and it is just that exactly when every listed output pays to its child key or
      pays nothing. */
  lemma CountedValueIsRecorded(s: Scheme, digest: Digest, key: nat, ops: seq<StampOutpoints>)
    requires Receive(s, digest, key, ops, false).Success?
    ensures var r := Receive(s, digest, key, ops, false).value;
      Worth(r.outpoints) <= r.stampValue
    ensures var r := Receive(s, digest, key, ops, false).value;
      Worth(r.outpoints) == r.stampValue <==>
        forall i :: 0 <= i < |ops| ==> NothingLostInTx(s, PrivateBase(s, digest, key).value, ops[i], i)
  {
    TxsWorth(s, PrivateBase(s, digest, key).value, ops, |ops|);
  }

  /** A message for which they differ: one output of five satoshis to a foreign address. */
  lemma ForeignOutputIsCounted(any: Scheme) returns (s: Scheme, ops: seq<StampOutpoints>)
    ensures Cyclic(s)
    ensures Receive(s, 0, 1, ops, false) == Success(Received(5, [], []))
  {
    var plain := any.(
      childHash := (p: Point, c: Digest, i: nat) => ChildHash(0, c),
      addressOf := (p: Point) => Address(0));
    s := ModelScheme(plain);
    CyclicHasModel(plain);
    hide Cyclic;
    var op := StampOutpoints(Transaction(0, [], [Output(5, Some(Address(1)))]), [0]);
    ops := [op];
    ModSmall(1, s.n);
    var root := HDPrivateKey(1, 0, 0, 0);
    assert StampPrivateRoot(s, 0, 1) == Success(root);
    var c44, c145, txKey := HDPrivateKey(1, 0, 1, 44), HDPrivateKey(1, 0, 2, 145), HDPrivateKey(1, 0, 3, 0);
    assert DerivePrivate(s, root, 44, false, false) == Success(c44);
    assert DerivePrivate(s, c44, 145, false, false) == Success(c145);
    assert DerivePrivatePath(s, c44, [145]) == Success(c145);
    assert PrivateBase(s, 0, 1) == Success(c145);
    assert DerivePrivate(s, c145, 0, false, false) == Success(txKey);
    assert DerivePrivate(s, txKey, 0, false, false).Success?;
    var none := Received(0, [], []);
    assert ReceiveOutputs(s, txKey, op, 0, false, none) == Success(none);
    assert ReceiveOutputs(s, txKey, op, 1, false, none) == Success(Received(5, [], []));
    assert ReceiveTxs(s, c145, ops, 0, false) == Success(none);
  }

  // ----- which stamps are received in full -----

  /** No more outpoints are kept than listed; all of them exactly when every output matches. */
  lemma {:induction false} OutputsKept(s: Scheme, txKey: HDPrivateKey, op: StampOutpoints, n: nat, acc: Received)
    requires n <= |op.vouts| && ReceiveOutputs(s, txKey, op, n, false, acc).Success?
    ensures var kept := |ReceiveOutputs(s, txKey, op, n, false, acc).value.outpoints| - |acc.outpoints|;
      kept <= n && (kept == n <==> forall j :: 0 <= j < n ==> OutputMatches(s, txKey, op, j))
  {
    hide DerivePrivate;
    if n != 0 {
      OutputsKept(s, txKey, op, n - 1, acc);
      ghost var last := OutputMatches(s, txKey, op, n - 1);
    }
  }

  lemma {:induction false} TxsKept(s: Scheme, base: HDPrivateKey, ops: seq<StampOutpoints>, n: nat)
    requires n <= |ops| && ReceiveTxs(s, base, ops, n, false).Success?
    ensures var kept := |ReceiveTxs(s, base, ops, n, false).value.outpoints|;
      kept <= TotalOutputs(ops, n) &&
      (kept == TotalOutputs(ops, n) <==> forall i :: 0 <= i < n ==> TxMatches(s, base, ops[i], i))
  {
    hide DerivePrivate, OutputMatches, ReceiveOutputs;
    if n != 0 {
      TxsKept(s, base, ops, n - 1);
      var txKey := DerivePrivate(s, base, n - 1, false, false);
      OutputsKept(s, txKey.value, ops[n - 1], |ops[n - 1].vouts|, ReceiveTxs(s, base, ops, n - 1, false).value);
      ghost var last := TxMatches(s, base, ops[n - 1], n - 1);
    }
  }

  /** Each recorded outpoint goes with a key that opens its address. */
  ghost predicate KeysOpen(s: Scheme, r: Received) {
    |r.keys| == |r.outpoints| &&
    forall m :: 0 <= m < |r.keys| ==> s.addressOf(s.mulG(r.keys[m])) == r.outpoints[m].address
  }

  lemma {:induction false} OutputKeysOpen(s: Scheme, txKey: HDPrivateKey, op: StampOutpoints, n: nat, acc: Received)
    requires n <= |op.vouts| && KeysOpen(s, acc) && ReceiveOutputs(s, txKey, op, n, false, acc).Success?
    ensures KeysOpen(s, ReceiveOutputs(s, txKey, op, n, false, acc).value)
  {
    hide DerivePrivate;
    if n != 0 {
      OutputKeysOpen(s, txKey, op, n - 1, acc);
    }
  }

  lemma {:induction false} TxKeysOpen(s: Scheme, base: HDPrivateKey, ops: seq<StampOutpoints>, n: nat)
    requires n <= |ops| && ReceiveTxs(s, base, ops, n, false).Success?
    ensures KeysOpen(s, ReceiveTxs(s, base, ops, n, false).value)
  {
    hide DerivePrivate;
    if n != 0 {
      TxKeysOpen(s, base, ops, n - 1);
      OutputKeysOpen(s, DerivePrivate(s, base, n - 1, false, false).value, ops[n - 1], |ops[n - 1].vouts|,
        ReceiveTxs(s, base, ops, n - 1, false).value);
    }
  }

  /** Whatever an inbound message lists, every outpoint recorded has a key that opens it. */
  lemma ReceivedKeysOpen(s: Scheme, digest: Digest, key: nat, ops: seq<StampOutpoints>)
    requires Receive(s, digest, key, ops, false).Success?
    ensures KeysOpen(s, Receive(s, digest, key, ops, false).value)
  {
    TxKeysOpen(s, PrivateBase(s, digest, key).value, ops, |ops|);
  }
}
