/** The client that retries its deliveries over a connection that loses requests and replies,
    while others use the relay. */
module Retry {
  import opened HdKeys
  import opened M = Mailbox
  import opened MailboxContents

  /** What the connection does with an attempt. */
  datatype Delivery = RequestLost | ReplyLost | Answered

  datatype PushResult = Delivered | Refused(status: nat) | GaveUp

  /** An event that puts at most one message to this address and does not delete this one. */
  predicate Gentle(e: Event, address: Address, digest: Bytes) {
    match e
    case PutEvent(target, messages, _) => target == address ==> |messages| <= 1
    case DeleteEvent(a, d) => (a, d) != (address, digest)
  }

  lemma GentleRunKeeps(env: Environment, st: State, es: seq<Event>, address: Address, digest: Bytes)
    requires forall n :: 0 <= n < |es| ==> Gentle(es[n], address, digest)
    ensures KeepsMessage(env, st, es, address, digest)
  {
    forall n | 0 <= n < |es|
      ensures Spares(env, Run(env, st, es[..n]), es[n], address, digest)
    {
      assert Gentle(es[n], address, digest);
    }
  }

  lemma {:induction false} RunConcat(env: Environment, st: State, es: seq<Event>, fs: seq<Event>)
    ensures Run(env, st, es + fs) == Run(env, Run(env, st, es), fs)
  {
    if fs == [] {
      assert es + fs == es;
    } else {
      var n := |fs| - 1;
      assert (es + fs)[..|es + fs| - 1] == es + fs[..n];
      RunConcat(env, st, es, fs[..n]);
    }
  }

  /** What others do to the relay in the meantime. */
  method Interfere(env: Environment, relay: Relay, es: seq<Event>)
    modifies relay
    ensures relay.Contents() == Run(env, old(relay.Contents()), es)
  {
    hide Put, Delete;
    var i := 0;
    while i < |es|
      invariant 0 <= i <= |es| && relay.Contents() == Run(env, old(relay.Contents()), es[..i])
    {
      assert es[..i + 1][..i] == es[..i];
      match es[i] {
        case PutEvent(address, messages, now) => var _ := relay.PutMessages(env, address, messages, now);
        case DeleteEvent(address, digest) => relay.DeleteMessage(address, digest);
      }
      i := i + 1;
    }
    assert es[..i] == es;
  }

  /** One attempt: the same envelopes again, and the status the client sees, if any. */
  method Attempt(env: Environment, relay: Relay, address: Address, messages: seq<Message>, now: nat, delivery: Delivery)
    returns (status: nat, ghost trace: seq<Event>)
    modifies relay
    ensures relay.Contents() == Run(env, old(relay.Contents()), trace)
    ensures trace == if delivery.RequestLost? then [] else [PutEvent(address, messages, now)]
    ensures status == if delivery.Answered? then Put(env, old(relay.Contents()), address, messages, now).1 else 0
    ensures status == NO_CONTENT ==> forall k :: 0 <= k < |messages| ==>
      Stored(relay.Contents(), address, Normalized(env, messages[k]).digest)
  {
    hide Stored, Normalized, Put;
    if delivery.RequestLost? {
      return 0, [];
    }
    trace := [PutEvent(address, messages, now)];
    assert trace[..0] == [];
    assert Run(env, relay.Contents(), trace[..0]) == relay.Contents();
    ghost var st := relay.Contents();
    status := relay.PutMessages(env, address, messages, now);
    if status == NO_CONTENT {
      forall k | 0 <= k < |messages|
        ensures Stored(relay.Contents(), address, Normalized(env, messages[k]).digest)
      {
        AcceptedPutStores(env, st, address, messages, now, k);
      }
    }
    if delivery.ReplyLost? {
      status := 0;
    }
  }

  /** What happens around the client's attempts 1, 2, ...: what the connection does with each,
      what others do to the relay before it, and when it is made. */
  datatype World = World(connection: nat -> Delivery, others: nat -> seq<Event>, clock: nat -> nat)

  /** The PUT of attempt n, if it reaches the relay. */
  function Attempted(w: World, address: Address, messages: seq<Message>, n: nat): seq<Event> {
    if w.connection(n).RequestLost? then [] else [PutEvent(address, messages, w.clock(n))]
  }

  /** Everything that happens to the relay during the first n attempts, in order. */
  function Trace(w: World, address: Address, messages: seq<Message>, n: nat): seq<Event> {
    if n == 0 then [] else Trace(w, address, messages, n - 1) + w.others(n) + Attempted(w, address, messages, n)
  }

  /** The status attempt n sees: the relay's reply to it in the state it finds, or none (0). */
  function Seen(env: Environment, st: State, w: World, address: Address, messages: seq<Message>, n: nat): nat
    requires n > 0
  {
    var found := Run(env, st, Trace(w, address, messages, n - 1) + w.others(n));
    if w.connection(n).Answered? then Put(env, found, address, messages, w.clock(n)).1 else 0
  }

  /** pushMessagesWithRetry, with others using the relay before each attempt. The attempts are
      made one by one until one sees 204 or 4xx, and that is the result; each puts the same
      envelopes at most once. A delivered set is stored; whatever is lost and retried, a single
      message is stored and notified at most once. A set that is empty or holds a message that
      is not admissible is refused by the first attempt that is answered. */
  method PushMessagesWithRetry(env: Environment, relay: Relay, address: Address, messages: seq<Message>,
      maxAttempts: nat, w: World)
    returns (r: PushResult, attempts: nat)
    modifies relay
    ensures attempts <= maxAttempts
    ensures relay.Contents() == Run(env, old(relay.Contents()), Trace(w, address, messages, attempts))
    ensures forall n :: 0 < n < attempts ==>
      var status := Seen(env, old(relay.Contents()), w, address, messages, n);
      status != 204 && !(400 <= status < 500)
    ensures r.Delivered? <==>
      attempts > 0 && Seen(env, old(relay.Contents()), w, address, messages, attempts) == 204
    ensures forall c :: r == Refused(c) <==>
      attempts > 0 && Seen(env, old(relay.Contents()), w, address, messages, attempts) == c && 400 <= c < 500
    ensures r.GaveUp? ==> attempts == maxAttempts
    ensures r.Delivered? ==> forall k :: 0 <= k < |messages| ==>
      Stored(relay.Contents(), address, Normalized(env, messages[k]).digest)
    ensures forall digest :: |messages| == 1 && AllGentle(w, address, digest) ==>
      StoresOnce(old(relay.Contents()), relay.Contents(), address, digest)
    ensures Inadmissible(env, address, messages) ==>
      forall n :: 0 < n <= attempts && w.connection(n).Answered? ==> n == attempts && r == Refused(400)
  {
    hide Stored, Normalized, Put, Run, Gentle, StoresOnce, AllGentle, Inadmissible;
    ghost var st := relay.Contents();
    attempts := 0;
    r := GaveUp;
    RunNothing(env, st);
    while attempts < maxAttempts && r == GaveUp
      invariant attempts <= maxAttempts
      invariant relay.Contents() == Run(env, st, Trace(w, address, messages, attempts))
      invariant forall n :: 0 < n < attempts ==> !Final(Seen(env, st, w, address, messages, n))
      invariant Told(r, if attempts == 0 then 0 else Seen(env, st, w, address, messages, attempts))
      invariant r.Delivered? ==> forall k :: 0 <= k < |messages| ==>
        Stored(relay.Contents(), address, Normalized(env, messages[k]).digest)
      decreases maxAttempts - attempts
    {
      ghost var trace := Trace(w, address, messages, attempts);
      attempts := attempts + 1;
      Interfere(env, relay, w.others(attempts));
      RunConcat(env, st, trace, w.others(attempts));
      var status: nat;
      ghost var put: seq<Event>;
      status, put := Attempt(env, relay, address, messages, w.clock(attempts), w.connection(attempts));
      RunConcat(env, st, trace + w.others(attempts), put);
      if status == NO_CONTENT {
        r := Delivered;
      } else if 400 <= status < 500 {
        r := Refused(status);
      }
    }
    if Inadmissible(env, address, messages) {
      RefusedWhenAnswered(env, st, w, address, messages);
    }
    forall digest | |messages| == 1 && AllGentle(w, address, digest)
      ensures StoresOnce(st, relay.Contents(), address, digest)
    {
      TraceIsGentle(w, address, messages, attempts, digest);
      GentleRunKeeps(env, st, Trace(w, address, messages, attempts), address, digest);
      StoredAndNotifiedOnce(env, st, Trace(w, address, messages, attempts), address, digest);
    }
  }

  /** A status that ends the attempts. */
  predicate Final(status: nat) {
    status == 204 || 400 <= status < 500
  }

  /** The result so far tells the status last seen, or that it ended nothing. */
  predicate Told(r: PushResult, status: nat) {
    match r
    case Delivered => status == 204
    case Refused(c) => status == c && 400 <= c < 500
    case GaveUp => !Final(status)
  }

  /** The set is empty or holds a message that is not admissible. */
  predicate Inadmissible(env: Environment, address: Address, messages: seq<Message>) {
    messages == [] || exists k :: 0 <= k < |messages| && !Admissible(env, messages[k], address)
  }

  lemma RefusedWhenAnswered(env: Environment, st: State, w: World, address: Address, messages: seq<Message>)
    requires Inadmissible(env, address, messages)
    ensures forall n :: 0 < n && w.connection(n).Answered? ==> Seen(env, st, w, address, messages, n) == 400
  {
    hide Put, Run, Admissible;
    forall n | 0 < n && w.connection(n).Answered?
      ensures Seen(env, st, w, address, messages, n) == 400
    {
      var found := Run(env, st, Trace(w, address, messages, n - 1) + w.others(n));
      RefusedInAnyState(env, found, address, messages, w.clock(n));
    }
  }

  /** The others leave the message alone, apart from putting it too. */
  ghost predicate AllGentle(w: World, address: Address, digest: Bytes) {
    forall n, e :: e in w.others(n) ==> Gentle(e, address, digest)
  }

  lemma {:induction false} TraceIsGentle(w: World, address: Address, messages: seq<Message>, n: nat, digest: Bytes)
    requires |messages| == 1 && AllGentle(w, address, digest)
    ensures forall e :: e in Trace(w, address, messages, n) ==> Gentle(e, address, digest)
  {
    if n != 0 {
      TraceIsGentle(w, address, messages, n - 1, digest);
    }
  }

  /** However often a set is sent, the relay sees it at most once per attempt. */
  lemma {:induction false} OnePutPerAttempt(w: World, address: Address, messages: seq<Message>, n: nat)
    requires forall k, e :: e in w.others(k) ==> !(e.PutEvent? && e.messages == messages)
    ensures PutCount(Trace(w, address, messages, n), messages) <= n
  {
    if n != 0 {
      OnePutPerAttempt(w, address, messages, n - 1);
      var trace, others, put := Trace(w, address, messages, n - 1), w.others(n), Attempted(w, address, messages, n);
      PutCountConcat(trace + others, put, messages);
      PutCountConcat(trace, others, messages);
      PutCountNone(others, messages);
      if put != [] {
        assert put[..0] == [];
      }
    }
  }

  /** How often a run puts this set. */
  function PutCount(es: seq<Event>, messages: seq<Message>): nat {
    if es == [] then 0
    else
      var last := es[|es| - 1];
      PutCount(es[..|es| - 1], messages) + (if last.PutEvent? && last.messages == messages then 1 else 0)
  }

  lemma {:induction false} PutCountConcat(es: seq<Event>, fs: seq<Event>, messages: seq<Message>)
    ensures PutCount(es + fs, messages) == PutCount(es, messages) + PutCount(fs, messages)
  {
    if fs == [] {
      assert es + fs == es;
    } else {
      assert (es + fs)[..|es + fs| - 1] == es + fs[..|fs| - 1];
      PutCountConcat(es, fs[..|fs| - 1], messages);
    }
  }

  lemma {:induction false} PutCountNone(es: seq<Event>, messages: seq<Message>)
    requires forall e :: e in es ==> !(e.PutEvent? && e.messages == messages)
    ensures PutCount(es, messages) == 0
  {
    if es != [] {
      PutCountNone(es[..|es| - 1], messages);
    }
  }

  lemma RunNothing(env: Environment, st: State)
    ensures Run(env, st, []) == st
  {
  }
}
