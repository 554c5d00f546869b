/** The relay's mailboxes, deduplicated by payload digest. */
module Mailbox {
  import opened HdKeys

  type Bytes = seq<bv8>

  /** A message envelope. `destination` is the address of its destination key, if it has a
      readable one; `rest` stands for all other fields. */
  datatype Message = Message(destination: Address, hasKey: bool, payload: Bytes, digest: Bytes, receivedTime: nat,
      rest: nat)

  /** The hash function and the outcome of the stamp check. */
  datatype Environment = Environment(sha256: Bytes -> Bytes, stampAccepted: Message -> bool)

  ghost predicate HashesAreFull(env: Environment) {
    forall p :: |env.sha256(p)| == 32
  }

  /** The relay's maps; `notified` records what was pushed to listening clients. */
  datatype State = State(
    mailboxes: map<Address, seq<Message>>,
    payloads: map<(Address, Bytes), Bytes>,
    notified: seq<(Address, Bytes)>)

  // ----- one message -----

  /** verifyMessageEnvelope: a missing digest is filled in. */
  predicate EnvelopeAccepted(env: Environment, m: Message, address: Address) {
    m.hasKey && m.destination == address &&
    (m.payload != [] && m.digest != [] ==> env.sha256(m.payload) == m.digest)
  }

  function Normalized(env: Environment, m: Message): Message {
    if m.payload != [] && m.digest == [] then m.(digest := env.sha256(m.payload)) else m
  }

  predicate Accepted(env: Environment, m: Message, address: Address) {
    EnvelopeAccepted(env, m, address) && env.stampAccepted(Normalized(env, m))
  }

  predicate Holds(mailbox: seq<Message>, digest: Bytes) {
    exists i :: 0 <= i < |mailbox| && mailbox[i].digest == digest
  }

  /** A PUT under way: the array it pushes to, and whether a message was refused. The array is
      the mailbox itself if the address has one, else a new one not yet in the map. */
  datatype Progress = Progress(st: State, mailbox: seq<Message>, failed: bool)

  function Deliver(env: Environment, p: Progress, address: Address, m: Message, now: nat): Progress {
    if p.failed then p
    else if !Accepted(env, m, address) then p.(failed := true)
    else
      var msg := Normalized(env, m).(receivedTime := now);
      var payloads :=
        if msg.digest != [] && msg.payload != [] then p.st.payloads[(address, msg.digest) := msg.payload]
        else p.st.payloads;
      if Holds(p.mailbox, msg.digest) then p.(st := p.st.(payloads := payloads))
      else
        var mailbox := p.mailbox + [msg];
        var mailboxes := if address in p.st.mailboxes then p.st.mailboxes[address := mailbox] else p.st.mailboxes;
        Progress(State(mailboxes, payloads, p.st.notified + [(address, msg.digest)]), mailbox, false)
  }

  function DeliverAll(env: Environment, p: Progress, address: Address, messages: seq<Message>, n: nat,
      now: nat): Progress
    requires n <= |messages|
  {
    if n == 0 then p else Deliver(env, DeliverAll(env, p, address, messages, n - 1, now), address, messages[n - 1], now)
  }

  function Mailbox(st: State, address: Address): seq<Message> {
    if address in st.mailboxes then st.mailboxes[address] else []
  }

  const NO_CONTENT := 204
  const BAD_REQUEST := 400

  /** PUT /messages: the new state and the reply's status */
  function Put(env: Environment, st: State, address: Address, messages: seq<Message>, now: nat): (State, nat) {
    if messages == [] then (st, BAD_REQUEST)
    else
      var p := DeliverAll(env, Progress(st, Mailbox(st, address), false), address, messages, |messages|, now);
      if p.failed then (p.st, BAD_REQUEST)
      else (p.st.(mailboxes := p.st.mailboxes[address := p.mailbox]), NO_CONTENT)
  }

  function Without(mailbox: seq<Message>, digest: Bytes): seq<Message> {
    if mailbox == [] then []
    else
      var last := mailbox[|mailbox| - 1];
      Without(mailbox[..|mailbox| - 1], digest) + (if last.digest != digest then [last] else [])
  }

  /** The messages received in a time span. */
  function Between(mailbox: seq<Message>, start: nat, end: nat): seq<Message> {
    if mailbox == [] then []
    else
      var last := mailbox[|mailbox| - 1];
      Between(mailbox[..|mailbox| - 1], start, end) + (if start <= last.receivedTime <= end then [last] else [])
  }

  /** DELETE /messages */
  function Delete(st: State, address: Address, digest: Bytes): State {
    st.(mailboxes := st.mailboxes[address := Without(Mailbox(st, address), digest)],
        payloads := st.payloads - {(address, digest)})
  }

  // ----- the relay object -----

  class Relay {
    var mailboxes: map<Address, seq<Message>>
    var payloads: map<(Address, Bytes), Bytes>
    var notified: seq<(Address, Bytes)>

    constructor ()
      ensures Contents() == State(map[], map[], [])
    {
      mailboxes, payloads, notified := map[], map[], [];
    }

    ghost function Contents(): State
      reads this
    {
      State(mailboxes, payloads, notified)
    }

    method PutMessages(env: Environment, address: Address, incoming: seq<Message>, now: nat) returns (status: nat)
      modifies this
      ensures (Contents(), status) == Put(env, old(Contents()), address, incoming, now)
    {
      if incoming == [] {
        return BAD_REQUEST;
      }
      ghost var start := Progress(Contents(), Mailbox(Contents(), address), false);
      var shared := address in mailboxes;
      var mailbox := if shared then mailboxes[address] else [];
      var i := 0;
      while i < |incoming|
        invariant 0 <= i <= |incoming| && (shared <==> address in mailboxes)
        invariant DeliverAll(env, start, address, incoming, i, now) == Progress(Contents(), mailbox, false)
      {
        var message := incoming[i];
        if !EnvelopeAccepted(env, message, address) {
          FailureStays(env, start, address, incoming, i + 1, now);
          return BAD_REQUEST;
        }
        message := Normalized(env, message);
        if !env.stampAccepted(message) {
          FailureStays(env, start, address, incoming, i + 1, now);
          return BAD_REQUEST;
        }
        message := message.(receivedTime := now);
        if message.digest != [] && message.payload != [] {
          payloads := payloads[(address, message.digest) := message.payload];
        }
        var known := ContainsDigest(mailbox, message.digest);
        if !known {
          mailbox := mailbox + [message];
          if shared {
            mailboxes := mailboxes[address := mailbox];
          }
          notified := notified + [(address, message.digest)];
        }
        i := i + 1;
      }
      mailboxes := mailboxes[address := mailbox];
      status := NO_CONTENT;
    }

    method GetMessages(address: Address, start: nat, end: nat) returns (selected: seq<Message>)
      ensures selected == Between(Mailbox(Contents(), address), start, end)
    {
      var mailbox := if address in mailboxes then mailboxes[address] else [];
      selected := [];
      var i := 0;
      while i < |mailbox|
        invariant 0 <= i <= |mailbox|
        invariant selected == Between(mailbox[..i], start, end)
      {
        assert mailbox[..i + 1][..i] == mailbox[..i];
        var t := mailbox[i].receivedTime;
        if t >= start && t <= end {
          selected := selected + [mailbox[i]];
        }
        i := i + 1;
      }
      assert mailbox[..i] == mailbox;
    }

    method DeleteMessage(address: Address, digest: Bytes)
      modifies this
      ensures Contents() == Delete(old(Contents()), address, digest)
    {
      var mailbox := if address in mailboxes then mailboxes[address] else [];
      var kept: seq<Message> := [];
      var i := 0;
      while i < |mailbox|
        invariant 0 <= i <= |mailbox| && kept == Without(mailbox[..i], digest)
      {
        assert mailbox[..i + 1][..i] == mailbox[..i];
        if mailbox[i].digest != digest {
          kept := kept + [mailbox[i]];
        }
        i := i + 1;
      }
      assert mailbox[..i] == mailbox;
      mailboxes := mailboxes[address := kept];
      payloads := payloads - {(address, digest)};
    }
  }

  /** mailbox.some(existing => same digest) */
  method ContainsDigest(mailbox: seq<Message>, digest: Bytes) returns (found: bool)
    ensures found <==> Holds(mailbox, digest)
  {
    found := false;
    var i := 0;
    while i < |mailbox| && !found
      invariant 0 <= i <= |mailbox|
      invariant found ==> Holds(mailbox, digest)
      invariant !found ==> forall k :: 0 <= k < i ==> mailbox[k].digest != digest
    {
      found := mailbox[i].digest == digest;
      i := i + 1;
    }
  }

  lemma {:induction false} FailureStays(env: Environment, p: Progress, address: Address,
      messages: seq<Message>, n: nat, now: nat)
    requires n <= |messages| && DeliverAll(env, p, address, messages, n, now).failed
    ensures DeliverAll(env, p, address, messages, |messages|, now) == DeliverAll(env, p, address, messages, n, now)
    decreases |messages| - n
  {
    if n < |messages| {
      FailureStays(env, p, address, messages, n + 1, now);
    }
  }

  // ----- what every run keeps -----

  /** Digests are unique in a mailbox, and a stored message that carries a payload has an entry
      among the payloads, of something that hashes to its digest. */
  ghost predicate Consistent(env: Environment, st: State) {
    forall address :: address in st.mailboxes ==>
      UniqueDigests(st.mailboxes[address]) && PayloadsStored(env, st.payloads, address, st.mailboxes[address])
  }

  ghost predicate UniqueDigests(mailbox: seq<Message>) {
    forall i, k :: 0 <= i < k < |mailbox| ==> mailbox[i].digest != mailbox[k].digest
  }

  ghost predicate PayloadsStored(env: Environment, payloads: map<(Address, Bytes), Bytes>, address: Address,
      mailbox: seq<Message>) {
    forall i :: 0 <= i < |mailbox| && mailbox[i].payload != [] ==>
      (address, mailbox[i].digest) in payloads &&
      env.sha256(payloads[(address, mailbox[i].digest)]) == mailbox[i].digest
  }

  /** ... also of the array a PUT is pushing to. */
  ghost predicate ProgressConsistent(env: Environment, p: Progress, address: Address) {
    Consistent(env, p.st) && UniqueDigests(p.mailbox) && PayloadsStored(env, p.st.payloads, address, p.mailbox)
  }

  lemma DeliverConsistent(env: Environment, p: Progress, address: Address, m: Message, now: nat)
    requires HashesAreFull(env) && ProgressConsistent(env, p, address)
    ensures ProgressConsistent(env, Deliver(env, p, address, m, now), address)
  {
    hide UniqueDigests;
    if !p.failed && Accepted(env, m, address) {
      var msg := Normalized(env, m).(receivedTime := now);
      assert msg.payload != [] ==> env.sha256(msg.payload) == msg.digest && |env.sha256(msg.payload)| == 32;
      if !Holds(p.mailbox, msg.digest) {
        StillUnique(p.mailbox, msg);
      }
    }
  }

  lemma StillUnique(mailbox: seq<Message>, msg: Message)
    requires UniqueDigests(mailbox) && !Holds(mailbox, msg.digest)
    ensures UniqueDigests(mailbox + [msg])
  {
  }

  lemma {:induction false} DeliverAllConsistent(env: Environment, p: Progress, address: Address,
      messages: seq<Message>, n: nat, now: nat)
    requires HashesAreFull(env) && ProgressConsistent(env, p, address) && n <= |messages|
    ensures ProgressConsistent(env, DeliverAll(env, p, address, messages, n, now), address)
  {
    hide ProgressConsistent, Deliver;
    if n != 0 {
      DeliverAllConsistent(env, p, address, messages, n - 1, now);
      DeliverConsistent(env, DeliverAll(env, p, address, messages, n - 1, now), address, messages[n - 1], now);
    }
  }

  lemma PutConsistent(env: Environment, st: State, address: Address, messages: seq<Message>, now: nat)
    requires HashesAreFull(env) && Consistent(env, st)
    ensures Consistent(env, Put(env, st, address, messages, now).0)
  {
    hide Deliver, DeliverAll;
    DeliverAllConsistent(env, Progress(st, Mailbox(st, address), false), address, messages, |messages|, now);
  }

  lemma {:induction false} WithoutKeeps(mailbox: seq<Message>, digest: Bytes)
    requires UniqueDigests(mailbox)
    ensures UniqueDigests(Without(mailbox, digest))
    ensures forall m :: m in Without(mailbox, digest) <==> m in mailbox && m.digest != digest
  {
    if mailbox != [] {
      var n := |mailbox| - 1;
      WithoutKeeps(mailbox[..n], digest);
      assert mailbox == mailbox[..n] + [mailbox[n]];
    }
  }

  lemma DeleteConsistent(env: Environment, st: State, address: Address, digest: Bytes)
    requires Consistent(env, st)
    ensures Consistent(env, Delete(st, address, digest))
  {
    hide Without;
    WithoutKeeps(Mailbox(st, address), digest);
    var st' := Delete(st, address, digest);
    forall a | a in st'.mailboxes
      ensures UniqueDigests(st'.mailboxes[a]) && PayloadsStored(env, st'.payloads, a, st'.mailboxes[a])
    {
      if a == address {
        forall i | 0 <= i < |st'.mailboxes[a]| && st'.mailboxes[a][i].payload != []
          ensures (a, st'.mailboxes[a][i].digest) in st'.payloads
          ensures env.sha256(st'.payloads[(a, st'.mailboxes[a][i].digest)]) == st'.mailboxes[a][i].digest
        {
          assert st'.mailboxes[a][i] in Mailbox(st, address);
        }
      }
    }
  }

  /** What changes the relay's state: a PUT by anyone, or a DELETE. */
  datatype Event = PutEvent(address: Address, messages: seq<Message>, now: nat)
      | DeleteEvent(address: Address, digest: Bytes)

  function Apply(env: Environment, st: State, e: Event): State {
    match e
    case PutEvent(address, messages, now) => Put(env, st, address, messages, now).0
    case DeleteEvent(address, digest) => Delete(st, address, digest)
  }

  function Run(env: Environment, st: State, es: seq<Event>): State {
    if es == [] then st else Apply(env, Run(env, st, es[..|es| - 1]), es[|es| - 1])
  }

  /** Every state the relay can reach is consistent. */
  lemma {:induction false} RunConsistent(env: Environment, es: seq<Event>)
    requires HashesAreFull(env)
    ensures Consistent(env, Run(env, State(map[], map[], []), es))
  {
    hide Put, Delete;
    if es != [] {
      var st := Run(env, State(map[], map[], []), es[..|es| - 1]);
      RunConsistent(env, es[..|es| - 1]);
      match es[|es| - 1]
      case PutEvent(address, messages, now) => PutConsistent(env, st, address, messages, now);
      case DeleteEvent(address, digest) => DeleteConsistent(env, st, address, digest);
    }
  }

  // ----- stored and notified at most once -----

  predicate Stored(st: State, address: Address, digest: Bytes) {
    Holds(Mailbox(st, address), digest)
  }

  function Count(notified: seq<(Address, Bytes)>, address: Address, digest: Bytes): nat {
    if notified == [] then 0
    else
      Count(notified[..|notified| - 1], address, digest) +
      (if notified[|notified| - 1] == (address, digest) then 1 else 0)
  }

  function Notified(st: State, address: Address, digest: Bytes): nat {
    Count(st.notified, address, digest)
  }

  /** In the array the PUT pushes to, if it is for this address. */
  predicate StoredSoFar(p: Progress, target: Address, address: Address, digest: Bytes) {
    if address == target then Holds(p.mailbox, digest) else Stored(p.st, address, digest)
  }

  function Increment(before: bool, after: bool): nat {
    if !before && after then 1 else 0
  }

  lemma DeliverOnce(env: Environment, p: Progress, target: Address, m: Message, now: nat, address: Address,
      digest: Bytes)
    ensures var p' := Deliver(env, p, target, m, now);
      (StoredSoFar(p, target, address, digest) ==> StoredSoFar(p', target, address, digest)) &&
      Notified(p'.st, address, digest) == Notified(p.st, address, digest) +
        Increment(StoredSoFar(p, target, address, digest), StoredSoFar(p', target, address, digest))
  {
    var p' := Deliver(env, p, target, m, now);
    if p' != p && p'.mailbox != p.mailbox {
      var last := p'.mailbox[|p.mailbox|];
      assert p'.mailbox == p.mailbox + [last];
      assert p'.st.notified == p.st.notified + [(target, last.digest)];
      assert p'.st.notified[..|p.st.notified|] == p.st.notified;
      if address == target {
        assert Holds(p'.mailbox, digest) <==> Holds(p.mailbox, digest) || last.digest == digest by {
          if last.digest == digest {
            assert p'.mailbox[|p.mailbox|].digest == digest;
          }
          if Holds(p.mailbox, digest) {
            var i :| 0 <= i < |p.mailbox| && p.mailbox[i].digest == digest;
            assert p'.mailbox[i].digest == digest;
          }
        }
      }
    }
  }

  /** What the messages so far have done: nothing is forgotten, every notification goes with
      a message stored for the first time, and an existing mailbox is up to date. */
  ghost predicate DeliveredOnce(p: Progress, p': Progress, target: Address, address: Address, digest: Bytes) {
    && (StoredSoFar(p, target, address, digest) ==> StoredSoFar(p', target, address, digest))
    && Notified(p'.st, address, digest) == Notified(p.st, address, digest) +
      Increment(StoredSoFar(p, target, address, digest), StoredSoFar(p', target, address, digest))
  }

  predicate UpToDate(p: Progress, target: Address) {
    target in p.st.mailboxes ==> p.st.mailboxes[target] == p.mailbox
  }

  lemma DeliverKeepsUp(env: Environment, p: Progress, target: Address, m: Message, now: nat)
    requires UpToDate(p, target)
    ensures var p' := Deliver(env, p, target, m, now);
      UpToDate(p', target) && (target in p'.st.mailboxes <==> target in p.st.mailboxes) &&
      (p'.failed <==> p.failed || !Accepted(env, m, target))
  {
    hide Accepted, Holds, Normalized;
  }

  lemma {:induction false} DeliverAllOnce(env: Environment, p: Progress, target: Address,
      messages: seq<Message>, n: nat, now: nat, address: Address, digest: Bytes)
    requires n <= |messages| && UpToDate(p, target) && !p.failed
    ensures var p' := DeliverAll(env, p, target, messages, n, now);
      DeliveredOnce(p, p', target, address, digest) && UpToDate(p', target) &&
      (target in p'.st.mailboxes <==> target in p.st.mailboxes) &&
      (p'.failed <==> exists k :: 0 <= k < n && !Accepted(env, messages[k], target))
  {
    hide Accepted, Deliver, Count, Holds, Normalized, Stored;
    if n != 0 {
      DeliverAllOnce(env, p, target, messages, n - 1, now, address, digest);
      var q := DeliverAll(env, p, target, messages, n - 1, now);
      DeliverOnce(env, q, target, messages[n - 1], now, address, digest);
      DeliverKeepsUp(env, q, target, messages[n - 1], now);
    }
  }

  /** A PUT is steady unless it is refused midway on an address without a mailbox: what it
      pushed before is then lost with its array. A PUT of one message is always steady. */
  ghost predicate Steady(env: Environment, st: State, e: Event) {
    e.PutEvent? ==>
      || e.address in st.mailboxes
      || e.messages == []
      || !Accepted(env, e.messages[0], e.address)
      || (forall k :: 0 <= k < |e.messages| ==> Accepted(env, e.messages[k], e.address))
  }

  /** Over one event other than the message's deletion, every notification goes with a message
      stored for the first time. */
  ghost predicate StoresOnce(st: State, st': State, address: Address, digest: Bytes) {
    && (Stored(st, address, digest) ==> Stored(st', address, digest))
    && Notified(st', address, digest) == Notified(st, address, digest) +
      Increment(Stored(st, address, digest), Stored(st', address, digest))
  }

  lemma {:induction false} NothingDelivered(env: Environment, p: Progress, target: Address,
      messages: seq<Message>, n: nat, now: nat)
    requires 0 < n <= |messages| && !p.failed && !Accepted(env, messages[0], target)
    ensures DeliverAll(env, p, target, messages, n, now) == p.(failed := true)
  {
    if n == 1 {
      assert DeliverAll(env, p, target, messages, 0, now) == p;
    } else {
      NothingDelivered(env, p, target, messages, n - 1, now);
    }
  }

  lemma SteadyPutStoresOnce(env: Environment, st: State, e: Event, address: Address, digest: Bytes)
    requires e.PutEvent? && Steady(env, st, e)
    ensures StoresOnce(st, Apply(env, st, e), address, digest)
  {
    hide Accepted, Deliver, Count, Holds;
    if e.messages != [] {
      var p := Progress(st, Mailbox(st, e.address), false);
      DeliverAllOnce(env, p, e.address, e.messages, |e.messages|, e.now, address, digest);
      if !Accepted(env, e.messages[0], e.address) {
        NothingDelivered(env, p, e.address, e.messages, |e.messages|, e.now);
      }
    }
  }

  /** Otherwise the first message is notified but not stored, and a retry notifies it again. */
  lemma UnsteadyPutForgets(env: Environment, st: State, e: Event)
    requires e.PutEvent? && !Steady(env, st, e)
    ensures var digest := Normalized(env, e.messages[0]).digest;
      !StoresOnce(st, Apply(env, st, e), e.address, digest)
  {
    var p := Progress(st, Mailbox(st, e.address), false);
    var digest := Normalized(env, e.messages[0]).digest;
    DeliverAllOnce(env, p, e.address, e.messages, |e.messages|, e.now, e.address, digest);
    FirstIsHeld(env, p, e.address, e.messages, |e.messages|, e.now);
  }

  lemma {:induction false} FirstIsHeld(env: Environment, p: Progress, target: Address, messages: seq<Message>,
      n: nat, now: nat)
    requires 0 < n <= |messages| && !p.failed && UpToDate(p, target) && Accepted(env, messages[0], target)
    ensures Holds(DeliverAll(env, p, target, messages, n, now).mailbox, Normalized(env, messages[0]).digest)
  {
    var digest := Normalized(env, messages[0]).digest;
    if n == 1 {
      assert DeliverAll(env, p, target, messages, 0, now) == p;
      var q := Deliver(env, p, target, messages[0], now);
      if !Holds(p.mailbox, digest) {
        assert q.mailbox[|p.mailbox|].digest == digest;
      }
    } else {
      FirstIsHeld(env, p, target, messages, n - 1, now);
      DeliverOnce(env, DeliverAll(env, p, target, messages, n - 1, now), target, messages[n - 1], now, target, digest);
    }
  }

  /** A PUT stores and notifies each message together, whatever address and digest one asks
      about, exactly when it is steady. */
  lemma SteadyIffStoresOnce(env: Environment, st: State, e: Event)
    requires e.PutEvent?
    ensures Steady(env, st, e) <==> forall address, digest :: StoresOnce(st, Apply(env, st, e), address, digest)
  {
    hide Steady, StoresOnce;
    if Steady(env, st, e) {
      forall address, digest
        ensures StoresOnce(st, Apply(env, st, e), address, digest)
      {
        SteadyPutStoresOnce(env, st, e, address, digest);
      }
    } else {
      UnsteadyHasMessages(env, st, e);
      UnsteadyPutForgets(env, st, e);
    }
  }

  lemma UnsteadyHasMessages(env: Environment, st: State, e: Event)
    requires !Steady(env, st, e)
    ensures e.PutEvent? && e.messages != []
  {
  }

  lemma DeleteKeepsOthers(st: State, target: Address, gone: Bytes, address: Address, digest: Bytes)
    requires (target, gone) != (address, digest)
    ensures StoresOnce(st, Delete(st, target, gone), address, digest)
    ensures Stored(Delete(st, target, gone), address, digest) <==> Stored(st, address, digest)
  {
    hide Count;
    if target == address {
      WithoutOthers(Mailbox(st, target), gone, digest);
    }
  }

  lemma {:induction false} WithoutOthers(mailbox: seq<Message>, gone: Bytes, digest: Bytes)
    ensures Holds(Without(mailbox, gone), digest) <==> Holds(mailbox, digest) && digest != gone
  {
    if mailbox != [] {
      var n := |mailbox| - 1;
      WithoutOthers(mailbox[..n], gone, digest);
      HoldsLast(mailbox[..n], mailbox[n], digest);
      HoldsLast(Without(mailbox[..n], gone), mailbox[n], digest);
      assert mailbox == mailbox[..n] + [mailbox[n]];
      assert Without(mailbox[..n], gone) + [] == Without(mailbox[..n], gone);
    }
  }

  lemma HoldsLast(front: seq<Message>, last: Message, digest: Bytes)
    ensures Holds(front + [last], digest) <==> Holds(front, digest) || last.digest == digest
  {
    var all := front + [last];
    if last.digest == digest {
      assert all[|front|].digest == digest;
    }
    if Holds(front, digest) {
      var i :| 0 <= i < |front| && front[i].digest == digest;
      assert all[i].digest == digest;
    }
  }

  /** The event is no PUT to this address, or a steady one, and does not delete the message. */
  ghost predicate Spares(env: Environment, st: State, e: Event, address: Address, digest: Bytes) {
    (e.address == address ==> Steady(env, st, e)) && e != DeleteEvent(address, digest)
  }

  ghost predicate KeepsMessage(env: Environment, st: State, es: seq<Event>, address: Address, digest: Bytes) {
    forall n :: 0 <= n < |es| ==> Spares(env, Run(env, st, es[..n]), es[n], address, digest)
  }

  /** Over any run between deletions of a message, however often and by whomever it is put, the
      mailbox stores it once and notifies it once. */
  lemma {:induction false} StoredAndNotifiedOnce(env: Environment, st: State, es: seq<Event>, address: Address,
      digest: Bytes)
    requires KeepsMessage(env, st, es, address, digest)
    ensures StoresOnce(st, Run(env, st, es), address, digest)
  {
    hide Apply, Spares, Stored, Notified;
    if es != [] {
      var n := |es| - 1;
      var front := es[..n];
      forall k | 0 <= k < n
        ensures Spares(env, Run(env, st, front[..k]), front[k], address, digest)
      {
        assert front[..k] == es[..k];
      }
      StoredAndNotifiedOnce(env, st, front, address, digest);
      EventStoresOnce(env, Run(env, st, front), es[n], address, digest);
    }
  }

  /** A PUT to another address cannot touch the message, refused midway or not. */
  lemma PutElsewhere(env: Environment, st: State, target: Address, messages: seq<Message>, now: nat,
      address: Address, digest: Bytes)
    requires target != address
    ensures StoresOnce(st, Put(env, st, target, messages, now).0, address, digest)
  {
    hide Accepted, Deliver, Count, Holds;
    if messages != [] {
      var p := Progress(st, Mailbox(st, target), false);
      DeliverAllOnce(env, p, target, messages, |messages|, now, address, digest);
    }
  }

  lemma EventStoresOnce(env: Environment, st: State, e: Event, address: Address, digest: Bytes)
    requires Spares(env, st, e, address, digest)
    ensures StoresOnce(st, Apply(env, st, e), address, digest)
  {
    hide Steady, StoresOnce, Put;
    match e
    case PutEvent(target, messages, now) =>
      if target == address {
        SteadyPutStoresOnce(env, st, e, address, digest);
      } else {
        PutElsewhere(env, st, target, messages, now, address, digest);
      }
    case DeleteEvent(target, gone) => DeleteKeepsOthers(st, target, gone, address, digest);
  }

  /** A PUT that is answered 204 has stored every message. */
  lemma AcceptedPutStores(env: Environment, st: State, address: Address, messages: seq<Message>, now: nat, k: nat)
    requires k < |messages| && Put(env, st, address, messages, now).1 == NO_CONTENT
    ensures Stored(Put(env, st, address, messages, now).0, address, Normalized(env, messages[k]).digest)
  {
    hide Deliver, Holds, Normalized;
    var p := Progress(st, Mailbox(st, address), false);
    DeliverAllOnce(env, p, address, messages, |messages|, now, address, Normalized(env, messages[k]).digest);
    MessageIsHeld(env, p, address, messages, k, |messages|, now);
  }

  lemma {:induction false} MessageIsHeld(env: Environment, p: Progress, target: Address,
      messages: seq<Message>, k: nat, n: nat, now: nat)
    requires k < n <= |messages| && !DeliverAll(env, p, target, messages, n, now).failed
    ensures Holds(DeliverAll(env, p, target, messages, n, now).mailbox, Normalized(env, messages[k]).digest)
    decreases n
  {
    var digest := Normalized(env, messages[k]).digest;
    var q := DeliverAll(env, p, target, messages, n - 1, now);
    if k == n - 1 {
      var q' := Deliver(env, q, target, messages[k], now);
      if !Holds(q.mailbox, digest) {
        assert q'.mailbox[|q.mailbox|].digest == digest;
      }
    } else {
      MessageIsHeld(env, p, target, messages, k, n - 1, now);
      DeliverOnce(env, q, target, messages[n - 1], now, target, digest);
    }
  }
}
