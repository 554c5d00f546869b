/** Restart: the keys of received stamps are not stored. They are derived again from the
    persisted outpoints, grouped by transaction id in the order of their appearance. */
module StampRecovery {
  import opened HdKeys
  import opened Stamps

  datatype Group = Group(txId: Digest, outputs: seq<Utxo>)

  datatype Derived = Derived(stamp: Utxo, key: nat)

  /** The first group of a transaction, or the number of groups. */
  function IndexOf(groups: seq<Group>, txId: Digest): (k: nat)
    ensures k <= |groups| && (k < |groups| ==> groups[k].txId == txId)
    ensures forall i :: 0 <= i < k ==> groups[i].txId != txId
  {
    if groups == [] then 0 else if groups[0].txId == txId then 0 else 1 + IndexOf(groups[1..], txId)
  }

  lemma {:induction false} IndexUnique(groups: seq<Group>, txId: Digest, k: nat)
    requires k <= |groups| && (k < |groups| ==> groups[k].txId == txId)
    requires forall i :: 0 <= i < k ==> groups[i].txId != txId
    ensures IndexOf(groups, txId) == k
  {
    if 0 < k {
      assert groups[0].txId != txId;
      IndexUnique(groups[1..], txId, k - 1);
    }
  }

  function AddToGroups(groups: seq<Group>, u: Utxo): seq<Group> {
    var k := IndexOf(groups, u.txId);
    if k < |groups| then groups[k := Group(u.txId, groups[k].outputs + [u])] else groups + [Group(u.txId, [u])]
  }

  /** The first n outpoints sorted into the groups, in order. */
  function AddAll(groups: seq<Group>, us: seq<Utxo>, n: nat): seq<Group>
    requires n <= |us|
  {
    if n == 0 then groups else AddToGroups(AddAll(groups, us, n - 1), us[n - 1])
  }

  function GroupByTx(us: seq<Utxo>): seq<Group> {
    AddAll([], us, |us|)
  }

  function RecoverOutputs(s: Scheme, txKey: HDPrivateKey, us: seq<Utxo>, n: nat,
      acc: seq<Derived>): Result<seq<Derived>>
    requires n <= |us|
  {
    if n == 0 then Success(acc)
    else
      var r := RecoverOutputs(s, txKey, us, n - 1, acc);
      if r.Failure? then r
      else
        var child := DerivePrivate(s, txKey, n - 1, false, false);
        if child.Failure? then Failure(child.error)
        else if us[n - 1].address != s.addressOf(s.mulG(child.value.key)) then r
        else Success(r.value + [Derived(us[n - 1], child.value.key)])
  }

  function RecoverGroup(s: Scheme, base: HDPrivateKey, group: Group, i: nat, acc: seq<Derived>): Result<seq<Derived>> {
    var txKey := DerivePrivate(s, base, i, false, false);
    if txKey.Failure? then Failure(txKey.error) else RecoverOutputs(s, txKey.value, group.outputs, |group.outputs|, acc)
  }

  function RecoverGroups(s: Scheme, base: HDPrivateKey, groups: seq<Group>, n: nat): Result<seq<Derived>>
    requires n <= |groups|
  {
    if n == 0 then Success([])
    else
      var r := RecoverGroups(s, base, groups, n - 1);
      if r.Failure? then r else RecoverGroup(s, base, groups[n - 1], n - 1, r.value)
  }

  function Recover(s: Scheme, digest: Digest, key: nat, persisted: seq<Utxo>): Result<seq<Derived>> {
    var base := PrivateBase(s, digest, key);
    if base.Failure? then Failure(base.error)
    else
      var groups := GroupByTx(persisted);
      RecoverGroups(s, base.value, groups, |groups|)
  }

  // ----- the loops -----

  method GroupStamps(persisted: seq<Utxo>) returns (groups: seq<Group>)
    ensures groups == GroupByTx(persisted)
  {
    groups := [];
    var n := 0;
    while n < |persisted|
      invariant 0 <= n <= |persisted| && groups == AddAll([], persisted, n)
    {
      var u := persisted[n];
      var k := 0;
      while k < |groups| && groups[k].txId != u.txId
        invariant 0 <= k <= |groups| && forall i :: 0 <= i < k ==> groups[i].txId != u.txId
      {
        k := k + 1;
      }
      ghost var before := groups;
      IndexUnique(groups, u.txId, k);
      if k == |groups| {
        groups := groups + [Group(u.txId, [])];
        assert [] + [u] == [u];
        assert (before + [Group(u.txId, [])])[k := Group(u.txId, [u])] == before + [Group(u.txId, [u])];
      }
      groups := groups[k := Group(u.txId, groups[k].outputs + [u])];
      n := n + 1;
    }
  }

  /** What is kept of a group: only keys that open the persisted address. */
  ghost predicate Opens(s: Scheme, persisted: seq<Utxo>, derived: seq<Derived>) {
    forall m :: 0 <= m < |derived| ==>
      derived[m].stamp in persisted && s.addressOf(s.mulG(derived[m].key)) == derived[m].stamp.address
  }

  method RecoverOneGroup(s: Scheme, base: HDPrivateKey, group: Group, i: nat, acc: seq<Derived>,
      ghost persisted: seq<Utxo>)
    returns (r: Result<seq<Derived>>)
    requires Opens(s, persisted, acc) && forall u :: u in group.outputs ==> u in persisted
    ensures r == RecoverGroup(s, base, group, i, acc)
    ensures r.Success? ==> Opens(s, persisted, r.value)
  {
    hide DerivePrivate;
    var txKey := DerivePrivate(s, base, i, false, false);
    if txKey.Failure? {
      return Failure(txKey.error);
    }
    var derived := acc;
    var j := 0;
    while j < |group.outputs|
      invariant 0 <= j <= |group.outputs| && RecoverOutputs(s, txKey.value, group.outputs, j, acc) == Success(derived)
      invariant Opens(s, persisted, derived)
    {
      var child := DerivePrivate(s, txKey.value, j, false, false);
      if child.Failure? {
        OutputsStop(s, txKey.value, group.outputs, j, acc);
        return Failure(child.error);
      }
      if group.outputs[j].address == s.addressOf(s.mulG(child.value.key)) {
        derived := derived + [Derived(group.outputs[j], child.value.key)];
      }
      j := j + 1;
    }
    r := Success(derived);
  }

  lemma {:induction false} OutputsStop(s: Scheme, txKey: HDPrivateKey, us: seq<Utxo>, j: nat, acc: seq<Derived>)
    requires j < |us| && RecoverOutputs(s, txKey, us, j + 1, acc).Failure?
    ensures RecoverOutputs(s, txKey, us, |us|, acc) == RecoverOutputs(s, txKey, us, j + 1, acc)
    decreases |us| - j
  {
    if j + 1 < |us| {
      OutputsStop(s, txKey, us, j + 1, acc);
    }
  }

  lemma {:induction false} GroupsStop(s: Scheme, base: HDPrivateKey, groups: seq<Group>, i: nat)
    requires i < |groups| && RecoverGroups(s, base, groups, i + 1).Failure?
    ensures RecoverGroups(s, base, groups, |groups|) == RecoverGroups(s, base, groups, i + 1)
    decreases |groups| - i
  {
    if i + 1 < |groups| {
      GroupsStop(s, base, groups, i + 1);
    }
  }

  lemma {:induction false} GroupsHoldPersisted(us: seq<Utxo>, n: nat)
    requires n <= |us|
    ensures forall g, u :: g in AddAll([], us, n) && u in g.outputs ==> u in us
  {
    if n != 0 {
      GroupsHoldPersisted(us, n - 1);
    }
  }

  /** deriveReceivedStampKeys. Whatever was persisted, every key returned opens the address it
      is returned for. */
  method DeriveReceivedStampKeys(s: Scheme, digest: Digest, key: nat,
      persisted: seq<Utxo>) returns (r: Result<seq<Derived>>)
    ensures r == Recover(s, digest, key, persisted)
    ensures r.Success? ==> Opens(s, persisted, r.value)
  {
    hide DerivePrivate, PrivateBase, RecoverGroup, AddAll;
    var base := PrivateBase(s, digest, key);
    if base.Failure? {
      return Failure(base.error);
    }
    var groups := GroupStamps(persisted);
    GroupsHoldPersisted(persisted, |persisted|);
    var derived: seq<Derived> := [];
    var i := 0;
    while i < |groups|
      invariant 0 <= i <= |groups| && RecoverGroups(s, base.value, groups, i) == Success(derived)
      invariant Opens(s, persisted, derived)
    {
      var group := RecoverOneGroup(s, base.value, groups[i], i, derived, persisted);
      if group.Failure? {
        GroupsStop(s, base.value, groups, i);
        return group;
      }
      derived := group.value;
      i := i + 1;
    }
    r := Success(derived);
  }

  // ----- the same keys after a restart -----

  function GroupsOf(ops: seq<StampOutpoints>, n: nat): seq<Group>
    requires n <= |ops|
  {
    if n == 0 then []
    else GroupsOf(ops, n - 1) + [Group(ops[n - 1].tx.txId, ListedUtxos(ops[n - 1], |ops[n - 1].vouts|))]
  }

  /** The messages for which grouping by transaction id finds the listed transactions again. */
  predicate WellShaped(ops: seq<StampOutpoints>) {
    (forall i :: 0 <= i < |ops| ==> ops[i].vouts != []) &&
    (forall i, k :: 0 <= i < k < |ops| ==> ops[i].tx.txId != ops[k].tx.txId)
  }

  lemma {:induction false} AddAllConcat(groups: seq<Group>, us: seq<Utxo>, vs: seq<Utxo>, n: nat)
    requires n <= |vs|
    ensures AddAll(groups, us + vs, |us| + n) == AddAll(AddAll(groups, us, |us|), vs, n)
  {
    if n == 0 {
      AddAllPrefix(groups, us, vs, |us|);
    } else {
      AddAllConcat(groups, us, vs, n - 1);
    }
  }

  lemma {:induction false} AddAllPrefix(groups: seq<Group>, us: seq<Utxo>, vs: seq<Utxo>, n: nat)
    requires n <= |us|
    ensures AddAll(groups, us + vs, n) == AddAll(groups, us, n)
  {
    if n != 0 {
      AddAllPrefix(groups, us, vs, n - 1);
    }
  }

  ghost predicate NoGroupOf(groups: seq<Group>, txId: Digest) {
    forall k :: 0 <= k < |groups| ==> groups[k].txId != txId
  }

  /** The outpoints of one new transaction form one new group. */
  lemma {:induction false} OneGroup(groups: seq<Group>, us: seq<Utxo>, n: nat, txId: Digest)
    requires 0 < n <= |us|
    requires forall k :: 0 <= k < |us| ==> us[k].txId == txId
    requires NoGroupOf(groups, txId)
    ensures AddAll(groups, us, n) == groups + [Group(txId, us[..n])]
  {
    if n == 1 {
      IndexUnique(groups, txId, |groups|);
      assert us[..1] == [us[0]];
      assert AddAll(groups, us, 0) == groups;
    } else {
      OneGroup(groups, us, n - 1, txId);
      var before := groups + [Group(txId, us[..n - 1])];
      IndexUnique(before, txId, |groups|);
      assert us[..n] == us[..n - 1] + [us[n - 1]];
    }
  }

  function Zip(us: seq<Utxo>, ks: seq<nat>): (r: seq<Derived>)
    requires |us| == |ks|
    ensures |r| == |us|
  {
    seq(|us|, m requires 0 <= m < |us| => Derived(us[m], ks[m]))
  }

  /** The outpoints of a transaction whose listed outputs all match. */
  lemma {:induction false} ListedShape(s: Scheme, txKey: HDPrivateKey, op: StampOutpoints, n: nat)
    requires n <= |op.vouts| && forall j :: 0 <= j < n ==> OutputMatches(s, txKey, op, j)
    ensures |ListedUtxos(op, n)| == |OutputKeys(s, txKey, n)| == n
    ensures forall j :: 0 <= j < n ==> ListedUtxos(op, n)[j].txId == op.tx.txId
  {
    hide DerivePrivate;
    if n != 0 {
      ListedShape(s, txKey, op, n - 1);
      assert OutputMatches(s, txKey, op, n - 1);
    }
  }

  lemma {:induction false} ListedPrefix(s: Scheme, txKey: HDPrivateKey, op: StampOutpoints, j: nat, n: nat)
    requires j < n <= |op.vouts| && forall k :: 0 <= k < n ==> OutputMatches(s, txKey, op, k)
    ensures |ListedUtxos(op, n)| == n && OutputMatches(s, txKey, op, j)
    ensures ListedUtxos(op, n)[j] == UtxoAt(op, j, OutputAt(op, j).value.address.value)
    decreases n
  {
    hide DerivePrivate;
    ListedShape(s, txKey, op, n);
    ListedShape(s, txKey, op, n - 1);
    assert OutputMatches(s, txKey, op, n - 1);
    if j < n - 1 {
      ListedPrefix(s, txKey, op, j, n - 1);
    }
  }

  lemma {:induction false} RecoveredOutputs(s: Scheme, txKey: HDPrivateKey, op: StampOutpoints, us: seq<Utxo>,
      n: nat, acc: seq<Derived>)
    requires n <= |op.vouts| && us == ListedUtxos(op, |op.vouts|)
    requires forall j :: 0 <= j < |op.vouts| ==> OutputMatches(s, txKey, op, j)
    ensures |ListedUtxos(op, n)| == |OutputKeys(s, txKey, n)| && n <= |us|
    ensures RecoverOutputs(s, txKey, us, n, acc) == Success(acc + Zip(ListedUtxos(op, n), OutputKeys(s, txKey, n)))
  {
    hide DerivePrivate;
    ListedShape(s, txKey, op, n);
    ListedShape(s, txKey, op, |op.vouts|);
    if n == 0 {
      assert acc + Zip([], []) == acc;
    } else {
      RecoveredOutputs(s, txKey, op, us, n - 1, acc);
      ListedPrefix(s, txKey, op, n - 1, |op.vouts|);
      ListedShape(s, txKey, op, n - 1);
      assert OutputMatches(s, txKey, op, n - 1);
      var child := DerivePrivate(s, txKey, n - 1, false, false);
      var front := Zip(ListedUtxos(op, n - 1), OutputKeys(s, txKey, n - 1));
      assert Zip(ListedUtxos(op, n), OutputKeys(s, txKey, n)) == front + [Derived(us[n - 1], child.value.key)];
      assert acc + (front + [Derived(us[n - 1], child.value.key)]) ==
        (acc + front) + [Derived(us[n - 1], child.value.key)];
    }
  }

  lemma {:induction false} AllShape(s: Scheme, base: HDPrivateKey, ops: seq<StampOutpoints>, n: nat)
    requires n <= |ops| && forall i :: 0 <= i < n ==> TxMatches(s, base, ops[i], i)
    ensures |AllListed(ops, n)| == |AllKeys(s, base, ops, n)|
  {
    hide DerivePrivate, OutputMatches;
    if n != 0 {
      AllShape(s, base, ops, n - 1);
      assert TxMatches(s, base, ops[n - 1], n - 1);
      ListedShape(s, DerivePrivate(s, base, n - 1, false, false).value, ops[n - 1], |ops[n - 1].vouts|);
    }
  }

  lemma {:induction false} GroupOfTx(ops: seq<StampOutpoints>, n: nat, i: nat)
    requires i < n <= |ops|
    ensures |GroupsOf(ops, n)| == n
    ensures GroupsOf(ops, n)[i] == Group(ops[i].tx.txId, ListedUtxos(ops[i], |ops[i].vouts|))
    decreases n
  {
    if i < n - 1 {
      GroupOfTx(ops, n - 1, i);
    } else if n > 1 {
      GroupOfTx(ops, n - 1, 0);
    }
  }

  lemma ZipNothing()
    ensures Zip([], []) == []
  {
  }

  lemma ZipConcat(us: seq<Utxo>, ks: seq<nat>, vs: seq<Utxo>, ls: seq<nat>)
    requires |us| == |ks| && |vs| == |ls|
    ensures Zip(us + vs, ks + ls) == Zip(us, ks) + Zip(vs, ls)
  {
  }

  /** Deriving from the groups of the listed transactions gives the keys of the receipt. */
  lemma {:induction false} RecoveredGroups(s: Scheme, base: HDPrivateKey, ops: seq<StampOutpoints>, n: nat)
    requires n <= |ops| && forall i :: 0 <= i < |ops| ==> TxMatches(s, base, ops[i], i)
    ensures n <= |GroupsOf(ops, |ops|)| && |AllListed(ops, n)| == |AllKeys(s, base, ops, n)|
    ensures RecoverGroups(s, base, GroupsOf(ops, |ops|), n) == Success(Zip(AllListed(ops, n), AllKeys(s, base, ops, n)))
  {
    hide DerivePrivate, OutputMatches, RecoverOutputs, ListedUtxos, OutputKeys, Zip, GroupsOf;
    AllShape(s, base, ops, n);
    if n == 0 {
      ZipNothing();
    } else {
      RecoveredGroups(s, base, ops, n - 1);
      GroupOfTx(ops, |ops|, n - 1);
      assert TxMatches(s, base, ops[n - 1], n - 1);
      var txKey := DerivePrivate(s, base, n - 1, false, false).value;
      var op := ops[n - 1];
      AllShape(s, base, ops, n - 1);
      var acc := Zip(AllListed(ops, n - 1), AllKeys(s, base, ops, n - 1));
      var us := ListedUtxos(op, |op.vouts|);
      RecoveredOutputs(s, txKey, op, us, |op.vouts|, acc);
      ListedShape(s, txKey, op, |op.vouts|);
      ZipConcat(AllListed(ops, n - 1), AllKeys(s, base, ops, n - 1), us, OutputKeys(s, txKey, |op.vouts|));
    }
  }

  /** Groups have members and different transaction ids. */
  ghost predicate ProperGroups(groups: seq<Group>) {
    (forall i :: 0 <= i < |groups| ==> groups[i].outputs != []) &&
    (forall i, k :: 0 <= i < k < |groups| ==> groups[i].txId != groups[k].txId)
  }

  lemma {:induction false} GroupsAreProper(us: seq<Utxo>, n: nat)
    requires n <= |us|
    ensures ProperGroups(AddAll([], us, n))
  {
    if n != 0 {
      GroupsAreProper(us, n - 1);
    }
  }

  lemma {:induction false} ListedGroups(s: Scheme, base: HDPrivateKey, ops: seq<StampOutpoints>, n: nat)
    requires n <= |ops| && WellShaped(ops) && forall i :: 0 <= i < |ops| ==> TxMatches(s, base, ops[i], i)
    ensures AddAll([], AllListed(ops, n), |AllListed(ops, n)|) == GroupsOf(ops, n)
  {
    hide DerivePrivate, OutputMatches, AddAll, WellShaped, ListedUtxos, NoGroupOf;
    if n == 0 {
      NoOutpoints();
    } else {
      ListedGroups(s, base, ops, n - 1);
      assert TxMatches(s, base, ops[n - 1], n - 1);
      var op := ops[n - 1];
      var us, vs := AllListed(ops, n - 1), ListedUtxos(op, |op.vouts|);
      ListedShape(s, DerivePrivate(s, base, n - 1, false, false).value, op, |op.vouts|);
      AddAllConcat([], us, vs, |vs|);
      NewTransaction(ops, n);
      OneGroup(GroupsOf(ops, n - 1), vs, |vs|, op.tx.txId);
      assert vs[..|vs|] == vs;
    }
  }

  lemma NoOutpoints()
    ensures AddAll([], [], 0) == []
  {
  }

  lemma NewTransaction(ops: seq<StampOutpoints>, n: nat)
    requires 0 < n <= |ops| && WellShaped(ops)
    ensures NoGroupOf(GroupsOf(ops, n - 1), ops[n - 1].tx.txId) && ops[n - 1].vouts != []
  {
    var groups := GroupsOf(ops, n - 1);
    GroupCount(ops, n - 1);
    forall k | 0 <= k < |groups|
      ensures groups[k].txId != ops[n - 1].tx.txId
    {
      GroupOfTx(ops, n - 1, k);
    }
  }

  /** Grouping finds the listed transactions again exactly when they have different ids and
      none lists nothing. */
  lemma GroupingFindsTransactions(s: Scheme, base: HDPrivateKey, ops: seq<StampOutpoints>)
    requires forall i :: 0 <= i < |ops| ==> TxMatches(s, base, ops[i], i)
    ensures GroupByTx(AllListed(ops, |ops|)) == GroupsOf(ops, |ops|) <==> WellShaped(ops)
  {
    hide DerivePrivate, OutputMatches, TxMatches, AddAll;
    var us := AllListed(ops, |ops|);
    if WellShaped(ops) {
      ListedGroups(s, base, ops, |ops|);
    } else if GroupByTx(us) == GroupsOf(ops, |ops|) {
      GroupsAreProper(us, |us|);
      forall i | 0 <= i < |ops|
        ensures ops[i].vouts != []
      {
        GroupOfTx(ops, |ops|, i);
        assert GroupsOf(ops, |ops|)[i].outputs != [];
      }
      forall i, k | 0 <= i < k < |ops|
        ensures ops[i].tx.txId != ops[k].tx.txId
      {
        GroupOfTx(ops, |ops|, i);
        GroupOfTx(ops, |ops|, k);
        assert GroupsOf(ops, |ops|)[i].txId != GroupsOf(ops, |ops|)[k].txId;
      }
    }
  }

  lemma {:induction false} GroupCount(ops: seq<StampOutpoints>, n: nat)
    requires n <= |ops|
    ensures |GroupsOf(ops, n)| == n
  {
    if n != 0 {
      GroupCount(ops, n - 1);
    }
  }
}
