/** The sender's side of stamps: the address generator and the bundle of transactions that
    pay one stamp output each. */
module StampSender {
  import opened HdKeys
  import opened Stamps
  import opened StampRecovery
  import opened PartialReceipts

  /** The key a generator for transaction i hands out for output j. */
  function GeneratorKey(s: Scheme, root: HDPublicKey, i: nat, j: nat): Result<HDPublicKey> {
    DerivePublicPath(s, root, [44, 145, i, j])
  }

  /** The closure made by stampAddressGenerator: it counts up its transaction number each
      time it has handed out an address. */
  class StampAddressGenerator {
    const root: HDPublicKey
    var transactionNumber: nat

    constructor (root: HDPublicKey, transactionNumber: nat)
      ensures this.root == root && this.transactionNumber == transactionNumber
    {
      this.root, this.transactionNumber := root, transactionNumber;
    }

    method Next(s: Scheme, outputNumber: nat) returns (r: Result<Address>)
      modifies this
      ensures var key := GeneratorKey(s, root, old(transactionNumber), outputNumber);
        r == if key.Success? then Success(s.addressOf(key.value.point)) else Failure(key.error)
      ensures transactionNumber == old(transactionNumber) + (if r.Success? then 1 else 0)
    {
      var key := DerivePublicPath(s, root, [44, 145, transactionNumber, outputNumber]);
      if key.Failure? {
        return Failure(key.error);
      }
      transactionNumber := transactionNumber + 1;
      r := Success(s.addressOf(key.value.point));
    }
  }

  /** A transaction of the wallet's: what it spends, and what else it pays to before and after
      the stamp output. */
  datatype Plan = Plan(txId: Digest, inputs: seq<Outpoint>, amount: nat, before: seq<Output>, after: seq<Output>)

  function PlannedAmount(plans: seq<Plan>, n: nat): nat
    requires n <= |plans|
  {
    if n == 0 then 0 else PlannedAmount(plans, n - 1) + plans[n - 1].amount
  }

  lemma {:induction false} PathSplit(s: Scheme, k: HDPublicKey, p: seq<int>, q: seq<int>)
    ensures DerivePublicPath(s, k, p + q) ==
      var r := DerivePublicPath(s, k, p);
      if r.Failure? then r else DerivePublicPath(s, r.value, q)
    decreases |p|
  {
    hide DerivePublic;
    if p == [] {
      assert p + q == q;
    } else {
      var child := DerivePublic(s, k, p[0]);
      assert (p + q)[1..] == p[1..] + q;
      if child.Success? {
        PathSplit(s, child.value, p[1..], q);
      }
    }
  }

  /** The generator's key is child j of child i of the relay's base key. */
  lemma GeneratorKeyFromBase(s: Scheme, root: HDPublicKey, i: nat, j: nat)
    ensures GeneratorKey(s, root, i, j) ==
      var base := DerivePublicPath(s, root, [44, 145]);
      if base.Failure? then base else
      var txKey := DerivePublic(s, base.value, i);
      if txKey.Failure? then txKey else DerivePublic(s, txKey.value, j)
  {
    hide DerivePublic;
    assert [44, 145, i, j] == [44, 145] + [i, j];
    PathSplit(s, root, [44, 145], [i, j]);
    var base := DerivePublicPath(s, root, [44, 145]);
    if base.Success? {
      var p: seq<int>, q: seq<int> := [i], [j];
      assert [i, j] == p + q;
      PathSplit(s, base.value, p, q);
      PathOne(s, base.value, i);
      var txKey := DerivePublic(s, base.value, i);
      if txKey.Success? {
        PathOne(s, txKey.value, j);
      }
    }
  }

  lemma PathOne(s: Scheme, k: HDPublicKey, i: int)
    ensures DerivePublicPath(s, k, [i]) == DerivePublic(s, k, i)
  {
    hide DerivePublic;
    var child := DerivePublic(s, k, i);
    if child.Success? {
      assert DerivePublicPath(s, child.value, [i][1..]) == child;
    }
  }

  /** The generators have an address for the first output of each of n transactions. */
  ghost predicate AddressesExist(s: Scheme, digest: Digest, destination: Point, n: nat) {
    var root := StampPublicRoot(s, digest, destination);
    root.Success? && forall i: nat :: i < n ==> GeneratorKey(s, root.value, i, 0).Success?
  }

  /** The wallet's loop over transactions with the generator for each. It succeeds exactly
      when all addresses can be derived, each transaction then pays the plan's amount at the
      plan's place, and the relay accepts the bundle for the full amount. */
  method BuildStampTransactions(s: Scheme, digest: Digest, destination: Point, plans: seq<Plan>)
    returns (r: Result<seq<StampOutpoints>>)
    ensures r.Success? <==> AddressesExist(s, digest, destination, |plans|)
    ensures r.Success? ==> |r.value| == |plans| && TotalValue(r.value, |plans|) == PlannedAmount(plans, |plans|)
    ensures r.Success? && plans != [] ==> Commits(s, digest, destination, r.value)
    ensures r.Success? ==> forall i: nat :: i < |plans| ==>
      var address := s.addressOf(GeneratorKey(s, StampPublicRoot(s, digest, destination).value, i, 0).value.point);
      var plan := plans[i];
      r.value[i].tx.txId == plan.txId && r.value[i].tx.inputs == plan.inputs && r.value[i].vouts == [|plan.before|] &&
      r.value[i].tx.outputs == plan.before + [Output(plan.amount, Some(address))] + plan.after
  {
    hide DerivePublic, DerivePublicPath, GeneratorKey;
    var root := StampPublicRoot(s, digest, destination);
    if root.Failure? {
      return Failure(root.error);
    }
    ghost var base := PublicBase(s, digest, destination);
    var bundle: seq<StampOutpoints> := [];
    var n := 0;
    while n < |plans|
      invariant 0 <= n == |bundle| <= |plans|
      invariant n > 0 ==> base.Success?
      invariant forall i :: 0 <= i < n ==> TxCommits(s, base.value, bundle[i], i)
      invariant forall i: nat :: i < n ==> GeneratorKey(s, root.value, i, 0).Success?
      invariant forall i: nat :: i < n ==>
        bundle[i] == PayStamp(plans[i], s.addressOf(GeneratorKey(s, root.value, i, 0).value.point))
      invariant TotalValue(bundle, n) == PlannedAmount(plans, n)
    {
      var generator := new StampAddressGenerator(root.value, n);
      var address := generator.Next(s, 0);
      if address.Failure? {
        return Failure(address.error);
      }
      var op := PayStamp(plans[n], address.value);
      GeneratorKeyFromBase(s, root.value, n, 0);
      SingleOutputCommits(s, base.value, op, n);
      TotalValueExtends(bundle, op);
      bundle := bundle + [op];
      n := n + 1;
    }
    r := Success(bundle);
  }

  function PayStamp(plan: Plan, address: Address): StampOutpoints {
    StampOutpoints(
      Transaction(plan.txId, plan.inputs, plan.before + [Output(plan.amount, Some(address))] + plan.after),
      [|plan.before|])
  }

  lemma SingleOutputCommits(s: Scheme, base: HDPublicKey, op: StampOutpoints, i: nat)
    requires |op.vouts| == 1 && DerivePublic(s, base, i).Success?
    requires OutputCommits(s, DerivePublic(s, base, i).value, op, 0)
    ensures TxCommits(s, base, op, i)
  {
  }

  lemma {:induction false} TotalValuePrefix(ops: seq<StampOutpoints>, op: StampOutpoints, n: nat)
    requires n <= |ops|
    ensures TotalValue(ops + [op], n) == TotalValue(ops, n)
  {
    if n != 0 {
      TotalValuePrefix(ops, op, n - 1);
    }
  }

  lemma TotalValueExtends(ops: seq<StampOutpoints>, op: StampOutpoints)
    ensures TotalValue(ops + [op], |ops| + 1) == TotalValue(ops, |ops|) + TxValue(op, |op.vouts|)
  {
    TotalValuePrefix(ops, op, |ops|);
  }

  /** The whole life of a stamp with one output per transaction: accepted by the relay, it is
      received in full by the recipient, and after a restart every outpoint gets its key
      back. */
  lemma SingleOutputStampsSurvive(s: Scheme, digest: Digest, key: nat, ops: seq<StampOutpoints>)
    requires Cyclic(s) && Commits(s, digest, s.mulG(key), ops)
    requires forall i :: 0 <= i < |ops| ==> |ops[i].vouts| == 1
    requires forall i, k :: 0 <= i < k < |ops| ==> ops[i].tx.txId != ops[k].tx.txId
    ensures var r := Receive(s, digest, key, ops, false);
      r.Success? && r.value.stampValue == TotalValue(ops, |ops|) && |r.value.outpoints| == |r.value.keys| == |ops| &&
      Recover(s, digest, key, r.value.outpoints) == Success(Zip(r.value.outpoints, r.value.keys))
  {
    hide Cyclic, DerivePublic, DerivePrivate, PublicBase, PrivateBase, TxCommits, TxMatches, Recover, ReceiveTxs;
    RelayedStampsAreReceived(s, digest, key, ops);
    var base := PrivateBase(s, digest, key).value;
    BasesCommute(s, digest, key);
    forall i | 0 <= i < |ops|
      ensures TxMatches(s, base, ops[i], i)
    {
      CommittedTxMatches(s, base, ops[i], i);
    }
    TxsKept(s, base, ops, |ops|);
    OneOutputEach(ops, |ops|);
    WholeIsRecoverable(s, base, ops);
    RestartRecovers(s, digest, key, ops);
  }

  lemma {:induction false} OneOutputEach(ops: seq<StampOutpoints>, n: nat)
    requires n <= |ops| && forall i :: 0 <= i < |ops| ==> |ops[i].vouts| == 1
    ensures TotalOutputs(ops, n) == n
  {
    if n != 0 {
      OneOutputEach(ops, n - 1);
    }
  }
}
