/** What the relay holds after a PUT or a DELETE and what a GET answers, message by message. */
module MailboxContents {
  import opened HdKeys
  import opened M = Mailbox

  // ----- PUT -----

  /** The digest a message is stored under: its own, or that of its payload if it has none. */
  function DigestOf(env: Environment, m: Message): Bytes {
    if m.payload != [] && m.digest == [] then env.sha256(m.payload) else m.digest
  }

  /** What is stored of a message received at `now`. */
  function AsStored(env: Environment, m: Message, now: nat): Message {
    Message(m.destination, m.hasKey, m.payload, DigestOf(env, m), now, m.rest)
  }

  /** A message for the owner of the mailbox, whose digest, if it has both, is that of its
      payload, and whose stamp passes. */
  predicate Admissible(env: Environment, m: Message, address: Address) {
    m.hasKey && m.destination == address &&
    (m.payload == [] || m.digest == [] || env.sha256(m.payload) == m.digest) &&
    env.stampAccepted(m.(digest := DigestOf(env, m)))
  }

  /** How many messages at the start of a set are admissible. */
  function Leading(env: Environment, address: Address, messages: seq<Message>): (n: nat)
    ensures n <= |messages| && forall k :: 0 <= k < n ==> Admissible(env, messages[k], address)
    ensures n < |messages| ==> !Admissible(env, messages[n], address)
  {
    if messages == [] || !Admissible(env, messages[0], address) then 0
    else 1 + Leading(env, address, messages[1..])
  }

  /** Message k is the first of its digest, and the mailbox has none. */
  predicate IsNew(env: Environment, old': seq<Message>, messages: seq<Message>, k: nat) {
    k < |messages| && !Holds(old', DigestOf(env, messages[k])) &&
    forall l :: 0 <= l < k ==> DigestOf(env, messages[l]) != DigestOf(env, messages[k])
  }

  /** What is added of the first n messages. */
  function Additions(env: Environment, old': seq<Message>, messages: seq<Message>, n: nat, now: nat): seq<Message>
    requires n <= |messages|
  {
    if n == 0 then []
    else
      Additions(env, old', messages, n - 1, now) +
      (if IsNew(env, old', messages, n - 1) then [AsStored(env, messages[n - 1], now)] else [])
  }

  function Announced(address: Address, added: seq<Message>): seq<(Address, Bytes)> {
    seq(|added|, i requires 0 <= i < |added| => (address, added[i].digest))
  }

  /** The additions are the new messages, in order and each once. */
  lemma {:induction false} AdditionsAreNew(env: Environment, old': seq<Message>, messages: seq<Message>,
    n: nat, now: nat)
    returns (pos: seq<nat>)
    requires n <= |messages|
    ensures var added := Additions(env, old', messages, n, now);
      |pos| == |added| && Increasing(pos) &&
      (forall x :: 0 <= x < |pos| ==> pos[x] < n && added[x] == AsStored(env, messages[pos[x]], now)) &&
      forall k: nat :: k in pos <==> k < n && IsNew(env, old', messages, k)
  {
    hide IsNew;
    pos := [];
    if n != 0 {
      pos := AdditionsAreNew(env, old', messages, n - 1, now);
      if IsNew(env, old', messages, n - 1) {
        pos := pos + [n - 1];
      }
    }
  }

  ghost predicate Increasing(pos: seq<nat>) {
    forall x, y :: 0 <= x < y < |pos| ==> pos[x] < pos[y]
  }

  lemma HoldsAppended(mailbox: seq<Message>, added: seq<Message>, digest: Bytes)
    ensures Holds(mailbox + added, digest) <==> Holds(mailbox, digest) || Holds(added, digest)
  {
    if Holds(mailbox, digest) {
      var i :| 0 <= i < |mailbox| && mailbox[i].digest == digest;
      assert (mailbox + added)[i].digest == digest;
    }
    if Holds(added, digest) {
      var i :| 0 <= i < |added| && added[i].digest == digest;
      assert (mailbox + added)[|mailbox| + i].digest == digest;
    }
  }

  /** One of the first n messages has the digest. */
  predicate Occurs(env: Environment, messages: seq<Message>, n: nat, digest: Bytes)
    requires n <= |messages|
  {
    exists l :: 0 <= l < n && DigestOf(env, messages[l]) == digest
  }

  lemma OccursNext(env: Environment, messages: seq<Message>, n: nat, digest: Bytes)
    requires n < |messages|
    ensures Occurs(env, messages, n + 1, digest) <==>
      Occurs(env, messages, n, digest) || DigestOf(env, messages[n]) == digest
  {
    if Occurs(env, messages, n + 1, digest) {
      var l :| 0 <= l < n + 1 && DigestOf(env, messages[l]) == digest;
    }
  }

  lemma NewOrNot(env: Environment, old': seq<Message>, messages: seq<Message>, k: nat)
    requires k < |messages|
    ensures IsNew(env, old', messages, k) <==>
      !Holds(old', DigestOf(env, messages[k])) && !Occurs(env, messages, k, DigestOf(env, messages[k]))
  {
    hide Holds;
  }

  lemma HoldsOne(m: Message, digest: Bytes)
    ensures Holds([m], digest) <==> m.digest == digest
  {
    assert [m][0] == m;
  }

  /** With the additions, the mailbox holds the digests of all the messages. */
  lemma {:induction false} AdditionsHold(env: Environment, old': seq<Message>, messages: seq<Message>, n: nat, now: nat,
      digest: Bytes)
    requires n <= |messages|
    ensures Holds(old' + Additions(env, old', messages, n, now), digest) <==>
      Holds(old', digest) || Occurs(env, messages, n, digest)
  {
    hide Holds, IsNew, Occurs, DigestOf;
    if n == 0 {
      assert old' + [] == old';
      assert !Occurs(env, messages, 0, digest) by {
        NothingOccurs(env, messages, digest);
      }
    } else {
      AdditionsHold(env, old', messages, n - 1, now, digest);
      var before, m := Additions(env, old', messages, n - 1, now), messages[n - 1];
      HoldsAppended(old', before, digest);
      HoldsAppended(old', Additions(env, old', messages, n, now), digest);
      HoldsAppended(before, [AsStored(env, m, now)], digest);
      HoldsOne(AsStored(env, m, now), digest);
      OccursNext(env, messages, n - 1, digest);
      NewOrNot(env, old', messages, n - 1);
      if !IsNew(env, old', messages, n - 1) {
        assert Additions(env, old', messages, n, now) == before;
      }
    }
  }

  lemma NothingOccurs(env: Environment, messages: seq<Message>, digest: Bytes)
    ensures !Occurs(env, messages, 0, digest)
  {
  }

  lemma AdmissibleIsAccepted(env: Environment, m: Message, address: Address)
    ensures Accepted(env, m, address) <==> Admissible(env, m, address)
    ensures Normalized(env, m).digest == DigestOf(env, m)
    ensures Normalized(env, m).(receivedTime := m.receivedTime) == m.(digest := DigestOf(env, m))
  {
  }

  /** Message k is stored under the digest with a payload. */
  predicate Writes(env: Environment, messages: seq<Message>, k: nat, digest: Bytes) {
    k < |messages| && digest != [] && messages[k].payload != [] && DigestOf(env, messages[k]) == digest
  }

  predicate Written(env: Environment, messages: seq<Message>, n: nat, digest: Bytes) {
    exists k: nat :: k < n && Writes(env, messages, k, digest)
  }

  /** Of the first n messages, k is the last one stored under the digest with a payload. */
  predicate LastWriter(env: Environment, messages: seq<Message>, n: nat, k: nat, digest: Bytes) {
    k < n && Writes(env, messages, k, digest) && forall l: nat :: k < l < n ==> !Writes(env, messages, l, digest)
  }

  predicate SameEntry(before: map<(Address, Bytes), Bytes>, after: map<(Address, Bytes), Bytes>, address: Address,
      digest: Bytes)
  {
    ((address, digest) in after <==> (address, digest) in before) &&
    ((address, digest) in before ==> after[(address, digest)] == before[(address, digest)])
  }

  /** Each payload entry is that of the last message to write it, or as it was. */
  ghost predicate PayloadsWritten(env: Environment, before: map<(Address, Bytes), Bytes>,
      after: map<(Address, Bytes), Bytes>, address: Address, messages: seq<Message>, n: nat)
  {
    (forall a, d :: a != address || !Written(env, messages, n, d) ==> SameEntry(before, after, a, d)) &&
    (forall k: nat, d :: LastWriter(env, messages, n, k, d) ==> HasEntry(after, address, d, messages, k))
  }

  predicate HasEntry(payloads: map<(Address, Bytes), Bytes>, address: Address, digest: Bytes, messages: seq<Message>,
      k: nat)
  {
    (address, digest) in payloads && k < |messages| && payloads[(address, digest)] == messages[k].payload
  }

  /** What a PUT under way has done when it has taken the first n messages, all admissible. */
  ghost predicate Taken(env: Environment, st: State, address: Address, messages: seq<Message>, n: nat, now: nat,
    p: Progress)
    requires n <= |messages|
  {
    var old' := Mailbox(st, address);
    var added := Additions(env, old', messages, n, now);
    !p.failed && p.mailbox == old' + added &&
    p.st.mailboxes == (if address in st.mailboxes then st.mailboxes[address := old' + added] else st.mailboxes) &&
    p.st.notified == st.notified + Announced(address, added) &&
    PayloadsWritten(env, st.payloads, p.st.payloads, address, messages, n)
  }

  lemma WriterNext(env: Environment, messages: seq<Message>, n: nat, k: nat, digest: Bytes)
    requires n < |messages|
    ensures Written(env, messages, n + 1, digest) <==>
      Written(env, messages, n, digest) || Writes(env, messages, n, digest)
    ensures LastWriter(env, messages, n + 1, k, digest) <==>
      if Writes(env, messages, n, digest) then k == n else LastWriter(env, messages, n, k, digest)
  {
    hide Writes;
  }

  function PayloadsAfter(env: Environment, payloads: map<(Address, Bytes), Bytes>, address: Address, m: Message):
    map<(Address, Bytes), Bytes>
  {
    var d := DigestOf(env, m);
    if d != [] && m.payload != [] then payloads[(address, d) := m.payload] else payloads
  }

  /** One more message changes the entry it writes and no other. */
  lemma EntryNext(env: Environment, payloads: map<(Address, Bytes), Bytes>, address: Address, messages: seq<Message>,
      n: nat, a: Address, d: Bytes)
    requires n < |messages|
    ensures var after := PayloadsAfter(env, payloads, address, messages[n]);
      (a == address && Writes(env, messages, n, d) ==> HasEntry(after, address, d, messages, n)) &&
      (a != address || !Writes(env, messages, n, d) ==> SameEntry(payloads, after, a, d))
  {
    hide DigestOf;
  }

  lemma WriteNext(env: Environment, before: map<(Address, Bytes), Bytes>, after: map<(Address, Bytes), Bytes>,
      address: Address, messages: seq<Message>, n: nat)
    requires n < |messages| && PayloadsWritten(env, before, after, address, messages, n)
    ensures PayloadsWritten(env, before, PayloadsAfter(env, after, address, messages[n]), address, messages, n + 1)
  {
    hide Written, LastWriter, Writes, PayloadsAfter, SameEntry, HasEntry;
    var after' := PayloadsAfter(env, after, address, messages[n]);
    forall a, d | a != address || !Written(env, messages, n + 1, d)
      ensures SameEntry(before, after', a, d)
    {
      WriterNext(env, messages, n, 0, d);
      EntryNext(env, after, address, messages, n, a, d);
      assert SameEntry(before, after, a, d);
      SameAgain(before, after, after', a, d);
    }
    forall k: nat, d | LastWriter(env, messages, n + 1, k, d)
      ensures HasEntry(after', address, d, messages, k)
    {
      WriterNext(env, messages, n, k, d);
      EntryNext(env, after, address, messages, n, address, d);
      if !Writes(env, messages, n, d) {
        EntryKept(after, after', address, d, messages, k);
      }
    }
  }

  lemma SameAgain(before: map<(Address, Bytes), Bytes>, after: map<(Address, Bytes), Bytes>,
      after': map<(Address, Bytes), Bytes>, a: Address, d: Bytes)
    requires SameEntry(before, after, a, d) && SameEntry(after, after', a, d)
    ensures SameEntry(before, after', a, d)
  {
  }

  lemma EntryKept(after: map<(Address, Bytes), Bytes>, after': map<(Address, Bytes), Bytes>, address: Address, d: Bytes,
      messages: seq<Message>, k: nat)
    requires HasEntry(after, address, d, messages, k) && SameEntry(after, after', address, d)
    ensures HasEntry(after', address, d, messages, k)
  {
  }

  lemma TakeNext(env: Environment, st: State, address: Address, messages: seq<Message>, n: nat, now: nat, p: Progress)
    requires n < |messages| && Taken(env, st, address, messages, n, now, p) && Admissible(env, messages[n], address)
    ensures Taken(env, st, address, messages, n + 1, now, Deliver(env, p, address, messages[n], now))
  {
    hide Holds, Admissible, PayloadsWritten, IsNew, Occurs;
    var old', m := Mailbox(st, address), messages[n];
    WriteNext(env, st.payloads, p.st.payloads, address, messages, n);
    var added, added' := Additions(env, old', messages, n, now), Additions(env, old', messages, n + 1, now);
    AdmissibleIsAccepted(env, m, address);
    AdditionsHold(env, old', messages, n, now, DigestOf(env, m));
    NewOrNot(env, old', messages, n);
    assert Holds(p.mailbox, DigestOf(env, m)) <==> !IsNew(env, old', messages, n);
    if IsNew(env, old', messages, n) {
      assert Announced(address, added') == Announced(address, added) + [(address, DigestOf(env, m))];
      assert old' + added' == (old' + added) + [AsStored(env, m, now)];
    } else {
      assert added' == added;
    }
  }

  lemma {:induction false} TakeAll(env: Environment, st: State, address: Address, messages: seq<Message>,
    n: nat, now: nat)
    requires n <= |messages| && forall k :: 0 <= k < n ==> Admissible(env, messages[k], address)
    ensures Taken(env, st, address, messages, n, now,
      DeliverAll(env, Progress(st, Mailbox(st, address), false), address, messages, n, now))
  {
    hide Taken, Admissible, Deliver;
    if n == 0 {
      TakeNothing(env, st, address, messages, now);
    } else {
      TakeAll(env, st, address, messages, n - 1, now);
      TakeNext(env, st, address, messages, n - 1, now,
        DeliverAll(env, Progress(st, Mailbox(st, address), false), address, messages, n - 1, now));
    }
  }

  lemma TakeNothing(env: Environment, st: State, address: Address, messages: seq<Message>, now: nat)
    ensures Taken(env, st, address, messages, 0, now, Progress(st, Mailbox(st, address), false))
  {
  }

  /** A PUT takes the messages up to the first that is not admissible. It is answered 204 exactly
      if there is a message and none is refused; an accepted PUT, and one to an address with a
      mailbox, adds to the mailbox what is new of them and keeps everything else. */
  lemma PutExactly(env: Environment, st: State, address: Address, messages: seq<Message>, now: nat)
    ensures var n := Leading(env, address, messages);
      var (st', status) := Put(env, st, address, messages, now);
      var mailbox := Mailbox(st, address) + Additions(env, Mailbox(st, address), messages, n, now);
      status == (if messages != [] && n == |messages| then 204 else 400) &&
      st'.mailboxes == (if status == 204 || address in st.mailboxes
        then st.mailboxes[address := mailbox] else st.mailboxes) &&
      st'.notified == st.notified + Announced(address, Additions(env, Mailbox(st, address), messages, n, now)) &&
      PayloadsWritten(env, st.payloads, st'.payloads, address, messages, n)
  {
    hide Admissible, Deliver, PayloadsWritten, Additions;
    var n := Leading(env, address, messages);
    var start := Progress(st, Mailbox(st, address), false);
    TakeAll(env, st, address, messages, n, now);
    TakeAll(env, st, address, messages, 0, now);
    var p := DeliverAll(env, start, address, messages, n, now);
    if n < |messages| {
      RefusedAt(env, p, address, messages[n], now);
      FailureStays(env, start, address, messages, n + 1, now);
    }
    NothingAdded(env, Mailbox(st, address), messages, now);
    if messages == [] {
      assert Mailbox(st, address) + [] == Mailbox(st, address);
    }
  }

  lemma NothingAdded(env: Environment, old': seq<Message>, messages: seq<Message>, now: nat)
    ensures Additions(env, old', messages, 0, now) == []
  {
  }

  lemma RefusedAt(env: Environment, p: Progress, address: Address, m: Message, now: nat)
    requires !p.failed && !Admissible(env, m, address)
    ensures Deliver(env, p, address, m, now) == p.(failed := true)
  {
    AdmissibleIsAccepted(env, m, address);
  }

  /** A PUT, refused or not, takes nothing out of any mailbox, and touches no other one. */
  lemma PutKeeps(env: Environment, st: State, address: Address, messages: seq<Message>, now: nat, a: Address)
    ensures var st' := Put(env, st, address, messages, now).0;
      Mailbox(st, a) <= Mailbox(st', a) && (a in st.mailboxes ==> a in st'.mailboxes) &&
      (a != address ==> (a in st'.mailboxes <==> a in st.mailboxes) && Mailbox(st', a) == Mailbox(st, a))
  {
    hide Put, Additions, PayloadsWritten;
    PutExactly(env, st, address, messages, now);
  }

  // ----- GET -----

  /** Of the first n messages, those at the positions, in order. */
  ghost predicate Picked(mailbox: seq<Message>, picked: seq<Message>, pos: seq<nat>, n: nat) {
    |pos| == |picked| && Increasing(pos) && n <= |mailbox| &&
    forall x :: 0 <= x < |pos| ==> pos[x] < n && picked[x] == mailbox[pos[x]]
  }

  lemma PickNext(mailbox: seq<Message>, picked: seq<Message>, pos: seq<nat>, n: nat)
    requires n < |mailbox| && Picked(mailbox, picked, pos, n)
    ensures Picked(mailbox, picked, pos, n + 1)
    ensures Picked(mailbox, picked + [mailbox[n]], pos + [n], n + 1)
    ensures forall i: nat :: i in pos + [n] <==> i in pos || i == n
  {
  }

  lemma {:induction false} BetweenPicks(mailbox: seq<Message>, start: nat, end: nat, n: nat) returns (pos: seq<nat>)
    requires n <= |mailbox|
    ensures Picked(mailbox, Between(mailbox[..n], start, end), pos, n)
    ensures forall i: nat :: i in pos <==> i < n && start <= mailbox[i].receivedTime <= end
  {
    hide Picked;
    if n == 0 {
      pos := [];
      assert mailbox[..0] == [];
      NothingPicked(mailbox);
    } else {
      pos := BetweenPicks(mailbox, start, end, n - 1);
      var before := Between(mailbox[..n - 1], start, end);
      PickNext(mailbox, before, pos, n - 1);
      assert before + [] == before;
      assert mailbox[..n][..n - 1] == mailbox[..n - 1];
      if start <= mailbox[n - 1].receivedTime <= end {
        pos := pos + [n - 1];
      }
    }
  }

  lemma NothingPicked(mailbox: seq<Message>)
    ensures Picked(mailbox, [], [], 0)
  {
  }

  /** A GET answers the messages received in the span, in order and each as often as it is held. */
  lemma BetweenPositions(mailbox: seq<Message>, start: nat, end: nat) returns (pos: seq<nat>)
    ensures Picked(mailbox, Between(mailbox, start, end), pos, |mailbox|)
    ensures forall i: nat :: i in pos <==> i < |mailbox| && start <= mailbox[i].receivedTime <= end
  {
    pos := BetweenPicks(mailbox, start, end, |mailbox|);
    assert mailbox[..|mailbox|] == mailbox;
  }

  lemma BetweenMembers(mailbox: seq<Message>, start: nat, end: nat, m: Message)
    ensures m in Between(mailbox, start, end) <==> m in mailbox && start <= m.receivedTime <= end
  {
    var pos := BetweenPositions(mailbox, start, end);
    if m in mailbox && start <= m.receivedTime <= end {
      var i: nat :| i < |mailbox| && mailbox[i] == m;
      assert i in pos;
    }
  }

  /** What an accepted PUT stored is answered whole, payload and time of receipt included, by a
      GET over a span that holds that time. */
  lemma PutThenGet(env: Environment, st: State, address: Address, messages: seq<Message>, now: nat, k: nat,
    start: nat, end: nat)
    requires Put(env, st, address, messages, now).1 == 204 && start <= now <= end
    requires k < |messages| && IsNew(env, Mailbox(st, address), messages, k)
    ensures var m := messages[k];
      var digest := if m.payload != [] && m.digest == [] then env.sha256(m.payload) else m.digest;
      Message(m.destination, m.hasKey, m.payload, digest, now, m.rest)
        in Between(Mailbox(Put(env, st, address, messages, now).0, address), start, end)
  {
    hide Put, IsNew, PayloadsWritten, Between;
    var old', stored := Mailbox(st, address), AsStored(env, messages[k], now);
    PutExactly(env, st, address, messages, now);
    var pos := AdditionsAreNew(env, old', messages, |messages|, now);
    assert k in pos;
    var added := Additions(env, old', messages, |messages|, now);
    var x :| 0 <= x < |pos| && pos[x] == k;
    assert added[x] == stored;
    assert (old' + added)[|old'| + x] == stored;
    BetweenMembers(Mailbox(Put(env, st, address, messages, now).0, address), start, end, stored);
  }

  // ----- DELETE -----

  lemma {:induction false} WithoutPicks(mailbox: seq<Message>, digest: Bytes, n: nat) returns (pos: seq<nat>)
    requires n <= |mailbox|
    ensures Picked(mailbox, Without(mailbox[..n], digest), pos, n)
    ensures forall i: nat :: i in pos <==> i < n && mailbox[i].digest != digest
  {
    hide Picked;
    if n == 0 {
      pos := [];
      assert mailbox[..0] == [];
      NothingPicked(mailbox);
    } else {
      pos := WithoutPicks(mailbox, digest, n - 1);
      var before := Without(mailbox[..n - 1], digest);
      PickNext(mailbox, before, pos, n - 1);
      assert before + [] == before;
      assert mailbox[..n][..n - 1] == mailbox[..n - 1];
      if mailbox[n - 1].digest != digest {
        pos := pos + [n - 1];
      }
    }
  }

  /** A DELETE leaves the messages of other digests, in order, no payload entry of its own, and
      everything else as it was. */
  lemma DeleteExactly(st: State, address: Address, digest: Bytes) returns (pos: seq<nat>)
    ensures var st' := Delete(st, address, digest);
      var old', new' := Mailbox(st, address), Mailbox(st', address);
      address in st'.mailboxes && Picked(old', new', pos, |old'|) &&
      forall i: nat :: i in pos <==> i < |old'| && old'[i].digest != digest
    ensures var st' := Delete(st, address, digest);
      (address, digest) !in st'.payloads && st'.notified == st.notified &&
      (forall a, d :: a != address || d != digest ==> SameEntry(st.payloads, st'.payloads, a, d)) &&
      forall a :: a != address ==>
        (a in st'.mailboxes <==> a in st.mailboxes) && Mailbox(st', a) == Mailbox(st, a)
  {
    hide Without, Picked;
    var mailbox := Mailbox(st, address);
    pos := WithoutPicks(mailbox, digest, |mailbox|);
    assert mailbox[..|mailbox|] == mailbox;
  }

  // ----- a refused set -----

  /** A set that is empty or holds a message that is not admissible is answered 400 in every
      state. */
  lemma RefusedInAnyState(env: Environment, st: State, address: Address, messages: seq<Message>, now: nat)
    requires messages == [] || exists k :: 0 <= k < |messages| && !Admissible(env, messages[k], address)
    ensures Put(env, st, address, messages, now).1 == 400
  {
    hide Put, Admissible, PayloadsWritten;
    PutExactly(env, st, address, messages, now);
  }
}
