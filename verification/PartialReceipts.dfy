/** Messages of which some outputs were refused: exactly when a restart recovers the keys of all
    that was kept. */
module PartialReceipts {
  import opened HdKeys
  import opened Stamps
  import opened StampRecovery

  // ----- what is kept of a message -----

  /** How many of the first n listed outputs are kept. */
  function MatchCount(s: Scheme, txKey: HDPrivateKey, op: StampOutpoints, n: nat): (k: nat)
    requires n <= |op.vouts|
    ensures k <= n
  {
    if n == 0 then 0 else MatchCount(s, txKey, op, n - 1) + if OutputMatches(s, txKey, op, n - 1) then 1 else 0
  }

  /** How many outputs of transaction i are. */
  function KeptIn(s: Scheme, base: HDPrivateKey, ops: seq<StampOutpoints>, i: nat): (k: nat)
    requires i < |ops|
    ensures k <= |ops[i].vouts|
  {
    var txKey := DerivePrivate(s, base, i, false, false);
    if txKey.Failure? then 0 else MatchCount(s, txKey.value, ops[i], |ops[i].vouts|)
  }

  predicate Matches(s: Scheme, base: HDPrivateKey, ops: seq<StampOutpoints>, i: nat, j: nat)
    requires i < |ops| && j < |ops[i].vouts|
  {
    var txKey := DerivePrivate(s, base, i, false, false);
    txKey.Success? && OutputMatches(s, txKey.value, ops[i], j)
  }

  /** Transaction i keeps the first outputs it lists and no others. */
  predicate KeepsPrefix(s: Scheme, base: HDPrivateKey, ops: seq<StampOutpoints>, i: nat)
    requires i < |ops|
  {
    forall j :: 0 <= j < |ops[i].vouts| ==> (Matches(s, base, ops, i, j) <==> j < KeptIn(s, base, ops, i))
  }

  /** What is kept is a prefix of each list, transactions that keep nothing come last, and the
      others have different ids. */
  predicate Recoverable(s: Scheme, base: HDPrivateKey, ops: seq<StampOutpoints>) {
    (forall i :: 0 <= i < |ops| ==> KeepsPrefix(s, base, ops, i)) &&
    (forall i, k :: 0 <= i < k < |ops| && KeptIn(s, base, ops, k) > 0 ==>
      KeptIn(s, base, ops, i) > 0 && ops[i].tx.txId != ops[k].tx.txId)
  }

  /** The transactions that keep something, listing only that. */
  function Trimmed(s: Scheme, base: HDPrivateKey, ops: seq<StampOutpoints>, n: nat): (r: seq<StampOutpoints>)
    requires n <= |ops|
    ensures |r| <= n
  {
    if n == 0 then []
    else
      var k := KeptIn(s, base, ops, n - 1);
      var front := Trimmed(s, base, ops, n - 1);
      if k == 0 then front else front + [ops[n - 1].(vouts := ops[n - 1].vouts[..k])]
  }

  lemma {:induction false} TrimmedShape(s: Scheme, base: HDPrivateKey, ops: seq<StampOutpoints>, n: nat)
    requires n <= |ops| && Recoverable(s, base, ops)
    ensures var ops' := Trimmed(s, base, ops, n);
      (forall i :: 0 <= i < |ops'| ==>
        KeptIn(s, base, ops, i) > 0 && ops'[i] == ops[i].(vouts := ops[i].vouts[..KeptIn(s, base, ops, i)])) &&
      (forall i :: |ops'| <= i < n ==> KeptIn(s, base, ops, i) == 0)
  {
    hide KeptIn, KeepsPrefix;
    if n != 0 {
      TrimmedShape(s, base, ops, n - 1);
      var front := Trimmed(s, base, ops, n - 1);
      if |front| < n - 1 {
        assert KeptIn(s, base, ops, |front|) == 0;
      }
    }
  }

  lemma TrimmedMatches(s: Scheme, base: HDPrivateKey, ops: seq<StampOutpoints>)
    requires Recoverable(s, base, ops)
    ensures var ops' := Trimmed(s, base, ops, |ops|);
      WellShaped(ops') && forall i :: 0 <= i < |ops'| ==> TxMatches(s, base, ops'[i], i)
  {
    hide KeptIn, DerivePrivate, OutputMatches;
    TrimmedShape(s, base, ops, |ops|);
    var ops' := Trimmed(s, base, ops, |ops|);
    forall i | 0 <= i < |ops'|
      ensures TxMatches(s, base, ops'[i], i)
    {
      TrimmedTxMatches(s, base, ops, i);
    }
  }

  lemma TrimmedTxMatches(s: Scheme, base: HDPrivateKey, ops: seq<StampOutpoints>, i: nat)
    requires i < |ops| && KeepsPrefix(s, base, ops, i) && KeptIn(s, base, ops, i) > 0
    ensures TxMatches(s, base, ops[i].(vouts := ops[i].vouts[..KeptIn(s, base, ops, i)]), i)
  {
    hide KeptIn, DerivePrivate;
    var k := KeptIn(s, base, ops, i);
    var op := ops[i].(vouts := ops[i].vouts[..k]);
    assert Matches(s, base, ops, i, 0);
    var txKey := DerivePrivate(s, base, i, false, false);
    forall j | 0 <= j < k
      ensures OutputMatches(s, txKey.value, op, j)
    {
      assert Matches(s, base, ops, i, j);
    }
  }

  /** Outputs behind the prefix add nothing. */
  lemma {:induction false} KeptOutputs(s: Scheme, txKey: HDPrivateKey, op: StampOutpoints, k: nat, n: nat,
      acc: Received)
    requires k <= n <= |op.vouts| && ReceiveOutputs(s, txKey, op, n, false, acc).Success?
    requires forall j :: 0 <= j < n ==> (OutputMatches(s, txKey, op, j) <==> j < k)
    ensures var r := ReceiveOutputs(s, txKey, op, n, false, acc).value;
      r.outpoints == acc.outpoints + ListedUtxos(op, k) && r.keys == acc.keys + OutputKeys(s, txKey, k)
  {
    hide DerivePrivate;
    if n == k {
      MatchingOutputs(s, txKey, op, k, acc);
    } else {
      KeptOutputs(s, txKey, op, k, n - 1, acc);
      assert !OutputMatches(s, txKey, op, n - 1);
    }
  }

  lemma {:induction false} ListedTrimmed(op: StampOutpoints, k: nat, n: nat)
    requires n <= k <= |op.vouts|
    ensures ListedUtxos(op.(vouts := op.vouts[..k]), n) == ListedUtxos(op, n)
  {
    if n != 0 {
      ListedTrimmed(op, k, n - 1);
    }
  }

  /** A transaction that keeps a prefix adds what it would if it listed only that. */
  lemma ReceivedPrefix(s: Scheme, base: HDPrivateKey, ops: seq<StampOutpoints>, i: nat, acc: Received)
    requires i < |ops| && KeepsPrefix(s, base, ops, i) && ReceiveTx(s, base, ops[i], i, false, acc).Success?
    ensures var r := ReceiveTx(s, base, ops[i], i, false, acc).value;
      var k := KeptIn(s, base, ops, i);
      var op := ops[i].(vouts := ops[i].vouts[..k]);
      var txKey := DerivePrivate(s, base, i, false, false).value;
      r.outpoints == acc.outpoints + ListedUtxos(op, k) && r.keys == acc.keys + OutputKeys(s, txKey, k)
  {
    hide DerivePrivate, OutputMatches, KeptIn, ListedUtxos, OutputKeys;
    var op, k := ops[i], KeptIn(s, base, ops, i);
    var txKey := DerivePrivate(s, base, i, false, false).value;
    forall j | 0 <= j < |op.vouts|
      ensures OutputMatches(s, txKey, op, j) <==> j < k
    {
      assert Matches(s, base, ops, i, j) <==> j < k;
    }
    KeptOutputs(s, txKey, op, k, |op.vouts|, acc);
    ListedTrimmed(op, k, k);
  }

  /** A message that keeps prefixes is received like one that lists only these. */
  lemma {:induction false} ReceivedTrimmed(s: Scheme, base: HDPrivateKey, ops: seq<StampOutpoints>, n: nat)
    requires n <= |ops| && Recoverable(s, base, ops) && ReceiveTxs(s, base, ops, n, false).Success?
    ensures var ops' := Trimmed(s, base, ops, n);
      var r := ReceiveTxs(s, base, ops, n, false).value;
      r.outpoints == AllListed(ops', |ops'|) && r.keys == AllKeys(s, base, ops', |ops'|)
  {
    hide DerivePrivate, KeptIn, KeepsPrefix, ReceiveTx, ListedUtxos, OutputKeys;
    if n != 0 {
      var i := n - 1;
      ReceivedTrimmed(s, base, ops, i);
      TrimmedShape(s, base, ops, n);
      TrimmedShape(s, base, ops, i);
      ReceivedPrefix(s, base, ops, i, ReceiveTxs(s, base, ops, i, false).value);
      ReceiveTxKey(s, base, ops[i], i, ReceiveTxs(s, base, ops, i, false).value);
      NothingListed(s, DerivePrivate(s, base, i, false, false).value, ops[i].(vouts := []));
      AllExtended(s, base, Trimmed(s, base, ops, i), Trimmed(s, base, ops, n));
    }
  }

  lemma ReceiveTxKey(s: Scheme, base: HDPrivateKey, op: StampOutpoints, i: nat, acc: Received)
    requires ReceiveTx(s, base, op, i, false, acc).Success?
    ensures DerivePrivate(s, base, i, false, false).Success?
  {
    hide DerivePrivate;
  }

  lemma NothingListed(s: Scheme, txKey: HDPrivateKey, op: StampOutpoints)
    ensures ListedUtxos(op, 0) == [] && OutputKeys(s, txKey, 0) == []
  {
  }

  lemma {:induction false} AllSame(s: Scheme, base: HDPrivateKey, ops: seq<StampOutpoints>, ops': seq<StampOutpoints>,
      n: nat)
    requires n <= |ops| <= |ops'| && ops == ops'[..|ops|]
    ensures AllListed(ops', n) == AllListed(ops, n) && AllKeys(s, base, ops', n) == AllKeys(s, base, ops, n)
  {
    hide DerivePrivate;
    if n != 0 {
      AllSame(s, base, ops, ops', n - 1);
    }
  }

  lemma AllExtended(s: Scheme, base: HDPrivateKey, ops: seq<StampOutpoints>, ops': seq<StampOutpoints>)
    requires ops' == ops || (|ops'| == |ops| + 1 && ops'[..|ops|] == ops)
    ensures AllListed(ops', |ops|) == AllListed(ops, |ops|)
    ensures AllKeys(s, base, ops', |ops|) == AllKeys(s, base, ops, |ops|)
  {
    AllSame(s, base, ops, ops', |ops|);
  }

  /** So all its keys are found again. */
  lemma RecoverableRecovers(s: Scheme, base: HDPrivateKey, ops: seq<StampOutpoints>)
    requires ReceiveTxs(s, base, ops, |ops|, false).Success? && Recoverable(s, base, ops)
    ensures var r := ReceiveTxs(s, base, ops, |ops|, false).value;
      var groups := GroupByTx(r.outpoints);
      |r.outpoints| == |r.keys| && RecoverGroups(s, base, groups, |groups|) == Success(Zip(r.outpoints, r.keys))
  {
    hide DerivePrivate, OutputMatches, TxMatches, AddAll, RecoverGroups, ReceiveTxs, Recoverable, WellShaped;
    var ops' := Trimmed(s, base, ops, |ops|);
    ReceivedTrimmed(s, base, ops, |ops|);
    TrimmedMatches(s, base, ops);
    GroupingFindsTransactions(s, base, ops');
    RecoveredGroups(s, base, ops', |ops'|);
    GroupCount(ops', |ops'|);
  }

  // ----- and only these are recovered -----

  /** The address of child i, j of the base key. */
  function ChildAddress(s: Scheme, base: HDPrivateKey, i: nat, j: nat): Option<Address> {
    var txKey := DerivePrivate(s, base, i, false, false);
    if txKey.Failure? then None
    else
      var child := DerivePrivate(s, txKey.value, j, false, false);
      if child.Failure? then None else Some(s.addressOf(s.mulG(child.value.key)))
  }

  /** The children up to n have different addresses. */
  ghost predicate DistinctChildren(s: Scheme, base: HDPrivateKey, n: nat) {
    forall i: nat, j: nat, k: nat, l: nat | i < n && j < n && k < n && l < n ::
      ChildAddress(s, base, i, j).Some? && ChildAddress(s, base, i, j) == ChildAddress(s, base, k, l) ==>
        i == k && j == l
  }

  function GroupSizes(groups: seq<Group>, n: nat): nat
    requires n <= |groups|
  {
    if n == 0 then 0 else GroupSizes(groups, n - 1) + |groups[n - 1].outputs|
  }

  lemma {:induction false} SizesSame(groups: seq<Group>, groups': seq<Group>, n: nat)
    requires n <= |groups| && n <= |groups'|
    requires forall i :: 0 <= i < n ==> |groups[i].outputs| == |groups'[i].outputs|
    ensures GroupSizes(groups, n) == GroupSizes(groups', n)
  {
    if n != 0 {
      SizesSame(groups, groups', n - 1);
    }
  }

  lemma {:induction false} OneGrown(groups: seq<Group>, groups': seq<Group>, k: nat, n: nat)
    requires k < n <= |groups| && n <= |groups'|
    requires forall i :: 0 <= i < n ==> |groups'[i].outputs| == |groups[i].outputs| + if i == k then 1 else 0
    ensures GroupSizes(groups', n) == GroupSizes(groups, n) + 1
  {
    if k == n - 1 {
      SizesSame(groups, groups', n - 1);
    } else {
      OneGrown(groups, groups', k, n - 1);
    }
  }

  lemma {:induction false} SizesOfGroups(us: seq<Utxo>, n: nat)
    requires n <= |us|
    ensures var groups := AddAll([], us, n); GroupSizes(groups, |groups|) == n
  {
    if n != 0 {
      SizesOfGroups(us, n - 1);
      var before, after := AddAll([], us, n - 1), AddAll([], us, n);
      var k := IndexOf(before, us[n - 1].txId);
      if k < |before| {
        OneGrown(before, after, k, |before|);
      } else {
        SizesSame(before, after, |before|);
      }
    }
  }

  lemma {:induction false} GroupsShareIds(us: seq<Utxo>, n: nat)
    requires n <= |us|
    ensures forall g, u :: g in AddAll([], us, n) && u in g.outputs ==> u.txId == g.txId
  {
    if n != 0 {
      GroupsShareIds(us, n - 1);
    }
  }

  ghost predicate Rederived(s: Scheme, base: HDPrivateKey, us: seq<Utxo>, i: nat, n: nat)
    requires n <= |us|
  {
    forall p: nat :: p < n ==> ChildAddress(s, base, i, p) == Some(us[p].address)
  }

  /** No more is recovered than there is, and all of it only if every address is derived again. */
  lemma {:induction false} OutputsRecovered(s: Scheme, base: HDPrivateKey, txKey: HDPrivateKey, us: seq<Utxo>, i: nat,
      n: nat, acc: seq<Derived>)
    requires n <= |us| && RecoverOutputs(s, txKey, us, n, acc).Success?
    requires DerivePrivate(s, base, i, false, false) == Success(txKey)
    ensures var found := |RecoverOutputs(s, txKey, us, n, acc).value| - |acc|;
      found <= n && (found == n ==> Rederived(s, base, us, i, n))
  {
    hide DerivePrivate;
    if n != 0 {
      OutputsRecovered(s, base, txKey, us, i, n - 1, acc);
      ghost var last := ChildAddress(s, base, i, n - 1);
    }
  }

  lemma {:induction false} GroupsRecovered(s: Scheme, base: HDPrivateKey, groups: seq<Group>, n: nat)
    requires n <= |groups| && RecoverGroups(s, base, groups, n).Success?
    ensures var found := |RecoverGroups(s, base, groups, n).value|;
      found <= GroupSizes(groups, n) && (found == GroupSizes(groups, n) ==>
        forall i: nat :: i < n ==> Rederived(s, base, groups[i].outputs, i, |groups[i].outputs|))
  {
    hide DerivePrivate, RecoverOutputs, Rederived;
    if n != 0 {
      GroupsRecovered(s, base, groups, n - 1);
      var txKey := DerivePrivate(s, base, n - 1, false, false).value;
      var us := groups[n - 1].outputs;
      OutputsRecovered(s, base, txKey, us, n - 1, |us|, RecoverGroups(s, base, groups, n - 1).value);
    }
  }

  /** The outpoint was recorded for output j of transaction i. */
  ghost predicate RecordedFor(s: Scheme, base: HDPrivateKey, ops: seq<StampOutpoints>, u: Utxo, i: nat, j: nat) {
    i < |ops| && j < |ops[i].vouts| && Matches(s, base, ops, i, j) &&
    ChildAddress(s, base, i, j) == Some(u.address) && u.txId == ops[i].tx.txId
  }

  lemma {:induction false} OutputsRecorded(s: Scheme, base: HDPrivateKey, txKey: HDPrivateKey, ops: seq<StampOutpoints>,
      i: nat, n: nat, acc: Received)
    requires i < |ops| && n <= |ops[i].vouts| && ReceiveOutputs(s, txKey, ops[i], n, false, acc).Success?
    requires DerivePrivate(s, base, i, false, false) == Success(txKey)
    requires forall u :: u in acc.outpoints ==> exists k, l :: RecordedFor(s, base, ops, u, k, l)
    ensures var r := ReceiveOutputs(s, txKey, ops[i], n, false, acc).value;
      |r.outpoints| == |acc.outpoints| + MatchCount(s, txKey, ops[i], n) &&
      forall u :: u in r.outpoints ==> exists k, l :: RecordedFor(s, base, ops, u, k, l)
  {
    hide DerivePrivate;
    if n != 0 {
      OutputsRecorded(s, base, txKey, ops, i, n - 1, acc);
      var r := ReceiveOutputs(s, txKey, ops[i], n, false, acc).value;
      if OutputMatches(s, txKey, ops[i], n - 1) {
        assert RecordedFor(s, base, ops, r.outpoints[|r.outpoints| - 1], i, n - 1);
      }
    }
  }

  function KeptInAll(s: Scheme, base: HDPrivateKey, ops: seq<StampOutpoints>, n: nat): nat
    requires n <= |ops|
  {
    if n == 0 then 0 else KeptInAll(s, base, ops, n - 1) + KeptIn(s, base, ops, n - 1)
  }

  lemma {:induction false} TxsRecorded(s: Scheme, base: HDPrivateKey, ops: seq<StampOutpoints>, n: nat)
    requires n <= |ops| && ReceiveTxs(s, base, ops, n, false).Success?
    ensures var r := ReceiveTxs(s, base, ops, n, false).value;
      |r.outpoints| == KeptInAll(s, base, ops, n) <= TotalOutputs(ops, n) &&
      forall u :: u in r.outpoints ==> exists k, l :: RecordedFor(s, base, ops, u, k, l)
  {
    hide DerivePrivate, ReceiveOutputs, RecordedFor, MatchCount;
    if n != 0 {
      TxsRecorded(s, base, ops, n - 1);
      var txKey := DerivePrivate(s, base, n - 1, false, false).value;
      OutputsRecorded(s, base, txKey, ops, n - 1, |ops[n - 1].vouts|, ReceiveTxs(s, base, ops, n - 1, false).value);
    }
  }

  /** Where all of a group is derived again, its members are the first outputs kept. */
  lemma {:induction false} LeadingMatches(s: Scheme, txKey: HDPrivateKey, op: StampOutpoints, c: nat, n: nat)
    requires n <= |op.vouts| && forall p :: 0 <= p < c && p < n ==> OutputMatches(s, txKey, op, p)
    ensures MatchCount(s, txKey, op, n) >= if c < n then c else n
    ensures c <= n && MatchCount(s, txKey, op, n) == c ==>
      forall p :: 0 <= p < n ==> (OutputMatches(s, txKey, op, p) <==> p < c)
  {
    hide OutputMatches;
    if n != 0 {
      LeadingMatches(s, txKey, op, c, n - 1);
    }
  }

  /** Numbers that are pointwise at most others, with the same sum, are the others. */
  lemma {:induction false} SumsAgree(s: Scheme, base: HDPrivateKey, ops: seq<StampOutpoints>, groups: seq<Group>,
      n: nat)
    requires |groups| <= |ops| && n <= |ops|
    requires forall i :: 0 <= i < |groups| ==> |groups[i].outputs| <= KeptIn(s, base, ops, i)
    ensures var m := if n < |groups| then n else |groups|;
      GroupSizes(groups, m) <= KeptInAll(s, base, ops, n) &&
      (GroupSizes(groups, m) == KeptInAll(s, base, ops, n) ==>
        forall i :: 0 <= i < n ==> KeptIn(s, base, ops, i) == if i < |groups| then |groups[i].outputs| else 0)
  {
    hide KeptIn;
    if n != 0 {
      SumsAgree(s, base, ops, groups, n - 1);
    }
  }

  lemma {:induction false} GroupsAreFew(groups: seq<Group>, n: nat)
    requires n <= |groups| && ProperGroups(groups)
    ensures n <= GroupSizes(groups, n) && forall i :: 0 <= i < n ==> |groups[i].outputs| <= GroupSizes(groups, n)
  {
    if n != 0 {
      GroupsAreFew(groups, n - 1);
    }
  }

  /** Different children: a group member that is derived again was recorded for that child. */
  lemma SameChild(s: Scheme, base: HDPrivateKey, ops: seq<StampOutpoints>, u: Utxo, g: nat, p: nat, bound: nat)
    requires DistinctChildren(s, base, bound) && g < bound && p < bound
    requires ChildAddress(s, base, g, p) == Some(u.address) && exists i, j :: RecordedFor(s, base, ops, u, i, j)
    requires |ops| <= bound && TotalOutputs(ops, |ops|) <= bound
    ensures RecordedFor(s, base, ops, u, g, p)
  {
    hide ChildAddress, Matches;
    var i: nat, j: nat :| RecordedFor(s, base, ops, u, i, j);
    ListWithinTotal(ops, i, |ops|);
  }

  lemma {:induction false} ListWithinTotal(ops: seq<StampOutpoints>, i: nat, n: nat)
    requires i < n <= |ops|
    ensures |ops[i].vouts| <= TotalOutputs(ops, n)
    decreases n
  {
    if i < n - 1 {
      ListWithinTotal(ops, i, n - 1);
    }
  }

  lemma GroupWasKept(s: Scheme, base: HDPrivateKey, ops: seq<StampOutpoints>, group: Group, g: nat)
    requires group.outputs != []
    requires forall p: nat :: p < |group.outputs| ==> RecordedFor(s, base, ops, group.outputs[p], g, p)
    ensures g < |ops| && |group.outputs| <= KeptIn(s, base, ops, g) && group.outputs[0].txId == ops[g].tx.txId
    ensures |group.outputs| == KeptIn(s, base, ops, g) ==> KeepsPrefix(s, base, ops, g)
  {
    hide ChildAddress, DerivePrivate, OutputMatches;
    var c := |group.outputs|;
    assert RecordedFor(s, base, ops, group.outputs[0], g, 0);
    assert RecordedFor(s, base, ops, group.outputs[c - 1], g, c - 1);
    var txKey := DerivePrivate(s, base, g, false, false).value;
    forall p | 0 <= p < c
      ensures OutputMatches(s, txKey, ops[g], p)
    {
      assert RecordedFor(s, base, ops, group.outputs[p], g, p);
    }
    LeadingMatches(s, txKey, ops[g], c, |ops[g].vouts|);
  }

  lemma NothingKept(s: Scheme, base: HDPrivateKey, ops: seq<StampOutpoints>, i: nat)
    requires i < |ops| && KeptIn(s, base, ops, i) == 0
    ensures KeepsPrefix(s, base, ops, i)
  {
    hide DerivePrivate, OutputMatches;
    var txKey := DerivePrivate(s, base, i, false, false);
    if txKey.Success? {
      LeadingMatches(s, txKey.value, ops[i], 0, |ops[i].vouts|);
    }
  }

  /** The groups of a message of which everything is recovered. */
  lemma {:induction false} RecoveredGroupsKept(s: Scheme, base: HDPrivateKey, ops: seq<StampOutpoints>, us: seq<Utxo>,
      groups: seq<Group>)
    requires DistinctChildren(s, base, |ops| + TotalOutputs(ops, |ops|)) && |us| <= TotalOutputs(ops, |ops|)
    requires groups == GroupByTx(us) && forall u :: u in us ==> exists i, j :: RecordedFor(s, base, ops, u, i, j)
    requires forall g: nat :: g < |groups| ==> Rederived(s, base, groups[g].outputs, g, |groups[g].outputs|)
    ensures forall g :: 0 <= g < |groups| ==>
      g < |ops| && 0 < |groups[g].outputs| <= KeptIn(s, base, ops, g) && groups[g].txId == ops[g].tx.txId &&
      (|groups[g].outputs| == KeptIn(s, base, ops, g) ==> KeepsPrefix(s, base, ops, g))
  {
    hide ChildAddress, DistinctChildren, AddAll, RecordedFor, KeptIn, KeepsPrefix;
    var bound := |ops| + TotalOutputs(ops, |ops|);
    GroupsHoldPersisted(us, |us|);
    GroupsShareIds(us, |us|);
    SizesOfGroups(us, |us|);
    GroupsAreProper(us, |us|);
    GroupsAreFew(groups, |groups|);
    forall g | 0 <= g < |groups|
      ensures g < |ops| && 0 < |groups[g].outputs| <= KeptIn(s, base, ops, g) && groups[g].txId == ops[g].tx.txId
      ensures |groups[g].outputs| == KeptIn(s, base, ops, g) ==> KeepsPrefix(s, base, ops, g)
    {
      assert groups[g] in groups && Rederived(s, base, groups[g].outputs, g, |groups[g].outputs|);
      forall p: nat | p < |groups[g].outputs|
        ensures RecordedFor(s, base, ops, groups[g].outputs[p], g, p)
      {
        assert groups[g].outputs[p] in groups[g].outputs && groups[g].outputs[p] in us;
        SameChild(s, base, ops, groups[g].outputs[p], g, p, bound);
      }
      GroupWasKept(s, base, ops, groups[g], g);
      assert groups[g].outputs[0] in groups[g].outputs;
    }
  }

  lemma RecoveredIsRecoverable(s: Scheme, base: HDPrivateKey, ops: seq<StampOutpoints>)
    requires ReceiveTxs(s, base, ops, |ops|, false).Success?
    requires DistinctChildren(s, base, |ops| + TotalOutputs(ops, |ops|))
    requires var us := ReceiveTxs(s, base, ops, |ops|, false).value.outpoints;
      var groups := GroupByTx(us);
      var r := RecoverGroups(s, base, groups, |groups|);
      r.Success? && |r.value| == |us|
    ensures Recoverable(s, base, ops)
  {
    hide DistinctChildren, RecordedFor, KeptIn, KeepsPrefix, AddAll, ReceiveTxs, RecoverGroups, Rederived;
    var us := ReceiveTxs(s, base, ops, |ops|, false).value.outpoints;
    var groups := GroupByTx(us);
    TxsRecorded(s, base, ops, |ops|);
    SizesOfGroups(us, |us|);
    GroupsRecovered(s, base, groups, |groups|);
    RecoveredGroupsKept(s, base, ops, us, groups);
    GroupsAreProper(us, |us|);
    if |groups| > 0 {
      var last := groups[|groups| - 1];
    }
    SumsAgree(s, base, ops, groups, |ops|);
    forall i | 0 <= i < |ops|
      ensures KeepsPrefix(s, base, ops, i)
    {
      if i >= |groups| {
        NothingKept(s, base, ops, i);
      }
    }
  }

  /** Restart recovery: every outpoint recorded gets back the key it was received with if what
      is kept is a prefix of each list, transactions that keep nothing come last and the
      others have different ids; and only if so, where the children have different addresses. */
  lemma RestartRecovers(s: Scheme, digest: Digest, key: nat, ops: seq<StampOutpoints>)
    requires Receive(s, digest, key, ops, false).Success?
    ensures var r := Receive(s, digest, key, ops, false).value; |r.outpoints| == |r.keys|
    ensures var r := Receive(s, digest, key, ops, false).value;
      var base := PrivateBase(s, digest, key).value;
      Recoverable(s, base, ops) ==> Recover(s, digest, key, r.outpoints) == Success(Zip(r.outpoints, r.keys))
    ensures var r := Receive(s, digest, key, ops, false).value;
      var base := PrivateBase(s, digest, key).value;
      DistinctChildren(s, base, |ops| + TotalOutputs(ops, |ops|)) ==>
        (Recover(s, digest, key, r.outpoints) == Success(Zip(r.outpoints, r.keys)) <==> Recoverable(s, base, ops))
  {
    hide DerivePrivate, PrivateBase, RecoverGroups, ReceiveTxs, Recoverable, DistinctChildren, GroupByTx, Zip;
    var base := PrivateBase(s, digest, key).value;
    var r := Receive(s, digest, key, ops, false).value;
    ReceivedKeysOpen(s, digest, key, ops);
    if Recoverable(s, base, ops) {
      RecoverableRecovers(s, base, ops);
    }
    if DistinctChildren(s, base, |ops| + TotalOutputs(ops, |ops|)) &&
       Recover(s, digest, key, r.outpoints) == Success(Zip(r.outpoints, r.keys)) {
      RecoveredIsRecoverable(s, base, ops);
    }
  }

  /** A message received in full, whose transactions have different ids and list something
      each, is recoverable. */
  lemma WholeIsRecoverable(s: Scheme, base: HDPrivateKey, ops: seq<StampOutpoints>)
    requires WellShaped(ops) && forall i :: 0 <= i < |ops| ==> TxMatches(s, base, ops[i], i)
    ensures Recoverable(s, base, ops)
  {
    hide DerivePrivate, OutputMatches;
    forall i | 0 <= i < |ops|
      ensures KeptIn(s, base, ops, i) == |ops[i].vouts| && KeepsPrefix(s, base, ops, i)
    {
      assert TxMatches(s, base, ops[i], i);
      LeadingMatches(s, DerivePrivate(s, base, i, false, false).value, ops[i], |ops[i].vouts|, |ops[i].vouts|);
    }
  }

  // ----- what was persisted, whatever it is -----

  /** The outpoint is among the recovered ones, with a key that opens it. */
  ghost predicate Found(s: Scheme, derived: seq<Derived>, u: Utxo) {
    exists m :: 0 <= m < |derived| && derived[m].stamp == u && s.addressOf(s.mulG(derived[m].key)) == u.address
  }

  lemma FoundAppended(s: Scheme, derived: seq<Derived>, d: Derived, u: Utxo)
    ensures Found(s, derived, u) ==> Found(s, derived + [d], u)
    ensures d.stamp == u && s.addressOf(s.mulG(d.key)) == u.address ==> Found(s, derived + [d], u)
  {
    if Found(s, derived, u) {
      var m :| 0 <= m < |derived| && derived[m].stamp == u && s.addressOf(s.mulG(derived[m].key)) == u.address;
      assert (derived + [d])[m] == derived[m];
    }
    assert (derived + [d])[|derived|] == d;
  }

  /** The children of the first n outpoints can be derived. */
  ghost predicate Derivable(s: Scheme, base: HDPrivateKey, i: nat, n: nat) {
    DerivePrivate(s, base, i, false, false).Success? && forall p: nat :: p < n ==> ChildAddress(s, base, i, p).Some?
  }

  lemma {:induction false} OutputsFound(s: Scheme, base: HDPrivateKey, txKey: HDPrivateKey, us: seq<Utxo>, i: nat,
      n: nat, acc: seq<Derived>)
    requires n <= |us| && DerivePrivate(s, base, i, false, false) == Success(txKey)
    ensures var r := RecoverOutputs(s, txKey, us, n, acc);
      (r.Success? <==> Derivable(s, base, i, n)) &&
      (r.Success? ==>
        (forall u :: Found(s, acc, u) ==> Found(s, r.value, u)) &&
        forall p: nat :: p < n && ChildAddress(s, base, i, p) == Some(us[p].address) ==> Found(s, r.value, us[p]))
  {
    hide DerivePrivate, Found;
    if n != 0 {
      OutputsFound(s, base, txKey, us, i, n - 1, acc);
      var r := RecoverOutputs(s, txKey, us, n - 1, acc);
      var child := DerivePrivate(s, txKey, n - 1, false, false);
      assert ChildAddress(s, base, i, n - 1) ==
        if child.Failure? then None else Some(s.addressOf(s.mulG(child.value.key)));
      if r.Success? && child.Success? {
        forall u
          ensures Found(s, r.value, u) ==> Found(s, r.value + [Derived(us[n - 1], child.value.key)], u)
        {
          FoundAppended(s, r.value, Derived(us[n - 1], child.value.key), u);
        }
        FoundAppended(s, r.value, Derived(us[n - 1], child.value.key), us[n - 1]);
      }
    }
  }

  lemma {:induction false} GroupsFound(s: Scheme, base: HDPrivateKey, groups: seq<Group>, n: nat)
    requires n <= |groups|
    ensures var r := RecoverGroups(s, base, groups, n);
      (r.Success? <==> forall i: nat :: i < n ==> Derivable(s, base, i, |groups[i].outputs|)) &&
      (r.Success? ==> forall i: nat, p: nat ::
        (i < n && p < |groups[i].outputs| && ChildAddress(s, base, i, p) == Some(groups[i].outputs[p].address)) ==>
        Found(s, r.value, groups[i].outputs[p]))
  {
    hide DerivePrivate, Found, ChildAddress, RecoverOutputs;
    if n != 0 {
      GroupsFound(s, base, groups, n - 1);
      var r, us := RecoverGroups(s, base, groups, n - 1), groups[n - 1].outputs;
      var txKey := DerivePrivate(s, base, n - 1, false, false);
      if r.Success? && txKey.Success? {
        OutputsFound(s, base, txKey.value, us, n - 1, |us|, r.value);
      }
    }
  }

  /** Recovery fails only where a key cannot be derived; every outpoint that pays to the child of
      its place among the groups is found, whatever stands beside it. */
  lemma MismatchLosesNoOther(s: Scheme, digest: Digest, key: nat, persisted: seq<Utxo>)
    ensures var base, groups := PrivateBase(s, digest, key), GroupByTx(persisted);
      var r := Recover(s, digest, key, persisted);
      (r.Success? <==>
        base.Success? && forall i: nat :: i < |groups| ==> Derivable(s, base.value, i, |groups[i].outputs|)) &&
      (r.Success? ==> forall i: nat, p: nat ::
        (i < |groups| && p < |groups[i].outputs| &&
         ChildAddress(s, base.value, i, p) == Some(groups[i].outputs[p].address)) ==>
        Found(s, r.value, groups[i].outputs[p]))
  {
    hide PrivateBase, Found, ChildAddress, Derivable, RecoverGroups, GroupByTx;
    var base, groups := PrivateBase(s, digest, key), GroupByTx(persisted);
    if base.Success? {
      GroupsFound(s, base.value, groups, |groups|);
    }
  }
}
