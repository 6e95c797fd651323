/** The part of the server's state that the client handlers change, taken as
    a value, and the effect of each handler step on it: a removal, a send, a
    broadcast, a whole receive session and the final sweep of `Stop`. The
    methods of `Server.TCPServer` are proved to perform exactly these steps;
    the lemmas here say what the steps amount to. */
module Bookkeeping {
  import opened Text
  import opened Sequences
  import opened Relay

  /** The registry, the socket states, the messages written to peers and the
      real removals: the sockets `RemoveClient` found registered
      (`removed == true`), in order. */
  datatype Ledger = Ledger(clients: seq<ConnId>, sockets: map<ConnId, SocketState>,
                           wire: seq<Delivery>, removedLog: seq<ConnId>)

  /** A failed operation on `c` leaves it reported as not connected. */
  function Break(sockets: map<ConnId, SocketState>, c: ConnId): map<ConnId, SocketState> {
    if c in sockets then sockets[c := Broken(sockets[c])] else sockets
  }

  /** `RemoveClient(c)`: the first occurrence leaves the registry, the socket
      is torn down, and the removal is reported only when there was one. */
  function Removal(b: Ledger, c: ConnId): Ledger {
    b.(clients := RemoveFirst(b.clients, c),
       sockets := if c in b.sockets then b.sockets[c := Torn(b.sockets[c])] else b.sockets,
       removedLog := b.removedLog + (if c in b.clients then [c] else []))
  }

  /** `SendMessageAsync` to `c` with the given outcome. */
  function SendStep(b: Ledger, c: ConnId, text: string, result: SendResult): Ledger {
    match result
    case Sent => b.(wire := b.wire + [Delivery(c, text)])
    case SendSocketError => Removal(b.(sockets := Break(b.sockets, c)), c)
    case SendOtherError => b
  }

  /** The sends of a broadcast to `rs`, one after the other. */
  function FanOut(b: Ledger, rs: seq<ConnId>, text: string, outcomes: map<ConnId, SendResult>): (r: Ledger)
    ensures r.sockets.Keys == b.sockets.Keys
  {
    if rs == [] then b
    else
      var n := |rs| - 1;
      SendStep(FanOut(b, rs[..n], text, outcomes), rs[n], text, SendOutcome(outcomes, rs[n]))
  }

  /** A fan-out to one more peer is one more send after the fan-out so far. */
  lemma FanOutExtend(b: Ledger, rs: seq<ConnId>, i: nat, text: string, outcomes: map<ConnId, SendResult>)
    requires i < |rs|
    ensures FanOut(b, rs[..i + 1], text, outcomes)
            == SendStep(FanOut(b, rs[..i], text, outcomes), rs[i], text, SendOutcome(outcomes, rs[i]))
  {
    assert rs[..i + 1][..i] == rs[..i];
  }

  /** `BroadcastMessageAsync(message, sender)`: nothing for a blank message,
      otherwise a fan-out to the recipients chosen from the registry. */
  function Broadcasting(b: Ledger, message: string, sender: ConnId, outcomes: map<ConnId, SendResult>): (r: Ledger)
    ensures r.sockets.Keys == b.sockets.Keys
  {
    if IsNullOrWhiteSpace(message) then b
    else FanOut(b, Recipients(b.clients, sender, b.sockets), message, outcomes)
  }

  /** One read of `ReceiveMessageAsync` on the connected socket `c`: the
      ledger after it, the message it relays, and whether the loop goes on.
      A zero-byte read, a cancellation or an exception ends the loop; a
      socket error (including the reset and the abort that count as zero
      bytes) also leaves `c` not connected; a blank chunk is skipped. */
  function ReceiveStep(b: Ledger, c: ConnId, read: ReadResult, outcomes: map<ConnId, SendResult>)
    : (r: (Ledger, seq<string>, bool))
    ensures r.2 <==> !EndsLoop(read)
    ensures r.1 == if read.Received? && !IsNullOrWhiteSpace(read.text) then [read.text] else []
    ensures read.Received? && IsNullOrWhiteSpace(read.text) ==> r.0 == b
    ensures !read.Received? ==> r.0.clients == b.clients && r.0.wire == b.wire && r.0.removedLog == b.removedLog
    ensures !read.Received? ==>
      r.0.sockets == if read.Canceled? || read.OtherError? then b.sockets else Break(b.sockets, c)
  {
    match read
    case Received(text) =>
      if |text| == 0 then (b, [], false)
      else if IsNullOrWhiteSpace(text) then (b, [], true)
      else (Broadcasting(b, text, c, outcomes), [text], true)
    case Canceled => (b, [], false)
    case OtherError => (b, [], false)
    case _ => (b.(sockets := Break(b.sockets, c)), [], false)
  }

  /** `ReceiveMessageAsync` on `c` without cancellation: the final ledger and
      the messages broadcast, read by read while `c` is connected. The
      broadcast of the chunk `stream[i]` meets the send outcomes `outcomes[i]`. */
  function Receiving(b: Ledger, c: ConnId, stream: seq<ReadResult>, outcomes: seq<map<ConnId, SendResult>>)
    : (Ledger, seq<string>)
    requires |outcomes| == |stream|
    decreases |stream|
  {
    if stream == [] || !IsConnected(c, b.sockets) then (b, [])
    else
      var step := ReceiveStep(b, c, stream[0], outcomes[0]);
      if step.2 then
        var after := Receiving(step.0, c, stream[1..], outcomes[1..]);
        (after.0, step.1 + after.1)
      else (step.0, step.1)
  }

  /** The removals of `Stop`, one per member of the snapshot, in order. */
  function Removals(b: Ledger, cs: seq<ConnId>): (r: Ledger)
    ensures r.sockets.Keys == b.sockets.Keys
  {
    if cs == [] then b
    else
      var n := |cs| - 1;
      Removal(Removals(b, cs[..n]), cs[n])
  }

  // ------------------------------------------------------------------
  // Removal

  /** Removing a socket twice is removing it once: the second call finds
      nothing to remove, reports nothing and leaves the socket closed. */
  lemma RemovalTwice(b: Ledger, c: ConnId)
    requires NoDup(b.clients)
    ensures Removal(Removal(b, c), c) == Removal(b, c)
  {
    RemoveFirstTwice(b.clients, c);
  }

  /** After `RemoveClient(c)` on a registry without duplicates, `c` is no
      longer registered and its socket is closed and not connected. */
  lemma RemovalIsFinal(b: Ledger, c: ConnId)
    requires NoDup(b.clients) && c in b.sockets
    ensures c !in Removal(b, c).clients
    ensures Removal(b, c).sockets[c].closed && !Removal(b, c).sockets[c].connected
    ensures NoDup(Removal(b, c).clients)
  {
    RemoveFirstTwice(b.clients, c);
    RemoveFirstNoDup(b.clients, c);
    WithoutNoDup(b.clients, {c});
  }

  // ------------------------------------------------------------------
  // Broadcast

  /** The writes of a fan-out are the successful sends, in order. */
  lemma {:induction false} FanOutWire(b: Ledger, rs: seq<ConnId>, text: string, outcomes: map<ConnId, SendResult>)
    ensures FanOut(b, rs, text, outcomes).wire == b.wire + Deliveries(rs, text, outcomes)
  {
    if rs != [] {
      var n := |rs| - 1;
      FanOutWire(b, rs[..n], text, outcomes);
      if SendOutcome(outcomes, rs[n]) == Sent {
        ConcatAssoc(b.wire, Deliveries(rs[..n], text, outcomes), [Delivery(rs[n], text)]);
      }
    }
  }

  /** In a fan-out to distinct known peers, exactly the peers whose send
      raised a socket error are torn down. */
  lemma {:induction false} FanOutSockets(b: Ledger, rs: seq<ConnId>, text: string, outcomes: map<ConnId, SendResult>)
    requires NoDup(rs) && forall c :: c in rs ==> c in b.sockets
    ensures FanOut(b, rs, text, outcomes).sockets == TearDownBroken(b.sockets, Elements(Failures(rs, outcomes)))
  {
    if rs == [] {
      assert Elements<ConnId>([]) == {};
      assert TearDownBroken(b.sockets, {}) == b.sockets;
    } else {
      var n := |rs| - 1;
      var c, front := rs[n], rs[..n];
      NoDupSplitLast(rs);
      FanOutSockets(b, front, text, outcomes);
      FailuresExactly(front, outcomes);
      var m := FanOut(b, front, text, outcomes);
      var failed := Failures(front, outcomes);
      var r := FanOut(b, rs, text, outcomes);
      assert r == SendStep(m, c, text, SendOutcome(outcomes, c));
      if SendOutcome(outcomes, c) == SendSocketError {
        assert Failures(rs, outcomes) == failed + [c];
        ElementsAppendOne(failed, c);
        assert c !in Elements(failed);
        assert m.sockets[c] == b.sockets[c];
        assert r.sockets == m.sockets[c := Torn(Broken(b.sockets[c]))];
        TearDownBrokenStep(b.sockets, Elements(failed), c);
      } else {
        assert Failures(rs, outcomes) == failed;
        assert r.sockets == m.sockets;
      }
    }
  }

  /** In a fan-out to distinct registered peers, exactly the peers whose
      send raised a socket error leave the registry, which keeps its order,
      and each is reported removed once, in order. */
  lemma {:induction false} FanOutRegistry(b: Ledger, rs: seq<ConnId>, text: string, outcomes: map<ConnId, SendResult>)
    requires NoDup(b.clients) && NoDup(rs)
    requires forall c :: c in rs ==> c in b.clients
    ensures FanOut(b, rs, text, outcomes).clients == Without(b.clients, Elements(Failures(rs, outcomes)))
    ensures FanOut(b, rs, text, outcomes).removedLog == b.removedLog + Failures(rs, outcomes)
  {
    if rs == [] {
      WithoutNothing(b.clients);
      assert Elements<ConnId>([]) == {};
    } else {
      var n := |rs| - 1;
      var c, front := rs[n], rs[..n];
      NoDupSplitLast(rs);
      FanOutRegistry(b, front, text, outcomes);
      FailuresExactly(front, outcomes);
      var m := FanOut(b, front, text, outcomes);
      var failed := Failures(front, outcomes);
      var gone := Elements(failed);
      var r := FanOut(b, rs, text, outcomes);
      assert r == SendStep(m, c, text, SendOutcome(outcomes, c));
      if SendOutcome(outcomes, c) == SendSocketError {
        assert Failures(rs, outcomes) == failed + [c];
        assert c !in gone;
        assert c in m.clients;
        ElementsAppendOne(failed, c);
        WithoutNoDup(b.clients, gone);
        RemoveFirstNoDup(m.clients, c);
        WithoutWithout(b.clients, gone, {c});
        ConcatAssoc(b.removedLog, failed, [c]);
      } else {
        assert Failures(rs, outcomes) == failed;
        assert r.clients == m.clients && r.removedLog == m.removedLog;
      }
    }
  }

  /** The sends of a fan-out to distinct registered peers, taken together:
      the successful ones put the message on the wire in order, and the peers
      whose send raised a socket error leave the registry, are torn down and
      are reported removed, in order. */
  lemma FanOutClosedForm(b: Ledger, rs: seq<ConnId>, text: string, outcomes: map<ConnId, SendResult>)
    requires NoDup(b.clients) && NoDup(rs)
    requires forall c :: c in rs ==> c in b.clients && c in b.sockets
    ensures FanOut(b, rs, text, outcomes).wire == b.wire + Deliveries(rs, text, outcomes)
    ensures FanOut(b, rs, text, outcomes).clients == Without(b.clients, Elements(Failures(rs, outcomes)))
    ensures FanOut(b, rs, text, outcomes).sockets == TearDownBroken(b.sockets, Elements(Failures(rs, outcomes)))
    ensures FanOut(b, rs, text, outcomes).removedLog == b.removedLog + Failures(rs, outcomes)
  {
    FanOutWire(b, rs, text, outcomes);
    FanOutSockets(b, rs, text, outcomes);
    FanOutRegistry(b, rs, text, outcomes);
  }

  /** A broadcast of a non-blank message writes it to exactly the registered,
      connected peers other than the sender whose send succeeds; a blank
      message writes nothing. */
  lemma BroadcastReaches(b: Ledger, message: string, sender: ConnId, outcomes: map<ConnId, SendResult>)
    requires NoDup(b.clients) && forall c :: c in b.clients ==> c in b.sockets
    ensures var r := Broadcasting(b, message, sender, outcomes);
      b.wire <= r.wire
      && (IsNullOrWhiteSpace(message) ==> r == b)
      && (forall d :: d in r.wire[|b.wire|..] ==> d.text == message && d.to != sender)
      && (!IsNullOrWhiteSpace(message) ==>
            forall c :: Delivery(c, message) in r.wire[|b.wire|..]
              <==> c in b.clients && c != sender && IsConnected(c, b.sockets) && SendOutcome(outcomes, c) == Sent)
  {
    if !IsNullOrWhiteSpace(message) {
      var rs := Recipients(b.clients, sender, b.sockets);
      RecipientsExactly(b.clients, sender, b.sockets);
      RecipientsDistinct(b.clients, sender, b.sockets);
      FanOutClosedForm(b, rs, message, outcomes);
      DeliveriesExactly(rs, message, outcomes);
      var r := FanOut(b, rs, message, outcomes);
      assert r.wire[|b.wire|..] == Deliveries(rs, message, outcomes);
    }
  }

  /** A broadcast removes exactly the peers whose send raised a socket error,
      reports each of them once, and keeps the rest of the registry in order. */
  lemma BroadcastRemoves(b: Ledger, message: string, sender: ConnId, outcomes: map<ConnId, SendResult>)
    requires NoDup(b.clients) && forall c :: c in b.clients ==> c in b.sockets
    ensures var r := Broadcasting(b, message, sender, outcomes);
      var failed := if IsNullOrWhiteSpace(message) then [] else Failures(Recipients(b.clients, sender, b.sockets), outcomes);
      r.clients == Without(b.clients, Elements(failed))
      && r.removedLog == b.removedLog + failed
      && r.sockets == TearDownBroken(b.sockets, Elements(failed))
      && IsSubsequence(r.clients, b.clients)
      && NoDup(r.clients)
  {
    var r := Broadcasting(b, message, sender, outcomes);
    if IsNullOrWhiteSpace(message) {
      WithoutNothing(b.clients);
      assert Elements<ConnId>([]) == {};
      assert TearDownBroken(b.sockets, {}) == b.sockets;
      WithoutIsSubsequence(b.clients, {});
    } else {
      var rs := Recipients(b.clients, sender, b.sockets);
      RecipientsExactly(b.clients, sender, b.sockets);
      RecipientsDistinct(b.clients, sender, b.sockets);
      FanOutClosedForm(b, rs, message, outcomes);
      WithoutIsSubsequence(b.clients, Elements(Failures(rs, outcomes)));
      WithoutNoDup(b.clients, Elements(Failures(rs, outcomes)));
    }
  }

  /** Going from `b` to `r` leaves `c` alone: only messages in `texts` are
      written, none of them to `c`; `c` is not reported removed; the registry
      only shrinks, keeps or lacks `c` as before, and stays free of duplicates. */
  predicate Untouched(b: Ledger, r: Ledger, c: ConnId, texts: set<string>) {
    b.wire <= r.wire && (forall d :: d in r.wire[|b.wire|..] ==> d.to != c && d.text in texts)
    && b.removedLog <= r.removedLog && c !in r.removedLog[|b.removedLog|..]
    && (forall x :: x in r.clients ==> x in b.clients)
    && (c in r.clients <==> c in b.clients)
    && (NoDup(b.clients) ==> NoDup(r.clients))
  }

  /** Leaving `c` alone twice in a row leaves it alone. */
  lemma UntouchedTrans(a: Ledger, m: Ledger, r: Ledger, c: ConnId, t1: set<string>, t2: set<string>)
    requires Untouched(a, m, c, t1) && Untouched(m, r, c, t2)
    ensures Untouched(a, r, c, t1 + t2)
  {
    assert r.wire[|a.wire|..] == m.wire[|a.wire|..] + r.wire[|m.wire|..];
    assert r.removedLog[|a.removedLog|..] == m.removedLog[|a.removedLog|..] + r.removedLog[|m.removedLog|..];
  }

  /** A send to another peer leaves `c` alone, socket included. */
  lemma SendAvoids(b: Ledger, x: ConnId, text: string, result: SendResult, c: ConnId)
    requires x != c
    ensures var r := SendStep(b, x, text, result);
      Untouched(b, r, c, {text}) && (c in b.sockets ==> c in r.sockets && r.sockets[c] == b.sockets[c])
  {
    var r := SendStep(b, x, text, result);
    if result == Sent {
      assert r.wire[|b.wire|..] == [Delivery(x, text)];
    } else if result == SendSocketError {
      assert r.removedLog[|b.removedLog|..] == if x in b.clients then [x] else [];
      RemoveFirstKeepsOthers(b.clients, x, c);
      if NoDup(b.clients) {
        RemoveFirstNoDup(b.clients, x);
        WithoutNoDup(b.clients, {x});
      }
    }
  }

  /** A fan-out that does not include `c` leaves `c` alone, socket included. */
  lemma {:induction false} FanOutAvoids(b: Ledger, rs: seq<ConnId>, text: string, outcomes: map<ConnId, SendResult>, c: ConnId)
    requires c !in rs
    ensures var r := FanOut(b, rs, text, outcomes);
      Untouched(b, r, c, {text}) && (c in b.sockets ==> c in r.sockets && r.sockets[c] == b.sockets[c])
  {
    if rs != [] {
      var n := |rs| - 1;
      var x := rs[n];
      assert c !in rs[..n] && x != c;
      FanOutAvoids(b, rs[..n], text, outcomes, c);
      var m := FanOut(b, rs[..n], text, outcomes);
      SendAvoids(m, x, text, SendOutcome(outcomes, x), c);
      UntouchedTrans(b, m, FanOut(b, rs, text, outcomes), c, {text}, {text});
      assert {text} + {text} == {text};
    } else {
      assert b.wire[|b.wire|..] == [] && b.removedLog[|b.removedLog|..] == [];
    }
  }

  /** A broadcast from `c` leaves `c` alone, socket included. */
  lemma BroadcastAvoidsSender(b: Ledger, message: string, c: ConnId, outcomes: map<ConnId, SendResult>)
    ensures var r := Broadcasting(b, message, c, outcomes);
      Untouched(b, r, c, {message}) && (c in b.sockets ==> c in r.sockets && r.sockets[c] == b.sockets[c])
  {
    if !IsNullOrWhiteSpace(message) {
      RecipientsExactly(b.clients, c, b.sockets);
      FanOutAvoids(b, Recipients(b.clients, c, b.sockets), message, outcomes, c);
    } else {
      assert b.wire[|b.wire|..] == [] && b.removedLog[|b.removedLog|..] == [];
    }
  }

  // ------------------------------------------------------------------
  // Receive loop

  /** The receive session from `b` on is its first read followed by the
      session from there, told as the progress of a session that started
      earlier and has relayed `messages` so far. */
  lemma ReceivingAdvance(start: (Ledger, seq<string>), b: Ledger, c: ConnId, stream: seq<ReadResult>,
                         i: nat, messages: seq<string>, outcomes: seq<map<ConnId, SendResult>>)
    requires |outcomes| == |stream| && i < |stream| && IsConnected(c, b.sockets)
    requires start == (Receiving(b, c, stream[i..], outcomes[i..]).0, messages + Receiving(b, c, stream[i..], outcomes[i..]).1)
    ensures var step := ReceiveStep(b, c, stream[i], outcomes[i]);
      var rest := Receiving(step.0, c, stream[i + 1..], outcomes[i + 1..]);
      start == if step.2 then (rest.0, messages + step.1 + rest.1) else (step.0, messages + step.1)
  {
    assert stream[i..][0] == stream[i] && stream[i..][1..] == stream[i + 1..];
    assert outcomes[i..][0] == outcomes[i] && outcomes[i..][1..] == outcomes[i + 1..];
    var step := ReceiveStep(b, c, stream[i], outcomes[i]);
    var rest := Receiving(step.0, c, stream[i + 1..], outcomes[i + 1..]);
    assert messages + (step.1 + rest.1) == messages + step.1 + rest.1;
  }

  /** One read on a connected socket leaves the socket alone except that a
      socket error leaves it not connected, and leaves it alone in every other
      respect, writing only the message it relays. */
  lemma ReceiveStepAvoids(b: Ledger, c: ConnId, read: ReadResult, outcomes: map<ConnId, SendResult>)
    requires IsConnected(c, b.sockets)
    ensures var (r, out, _) := ReceiveStep(b, c, read, outcomes);
      c in r.sockets
      && r.sockets[c] == (if read.Reset? || read.Aborted? || read.SocketError? then Broken(b.sockets[c]) else b.sockets[c])
      && Untouched(b, r, c, Elements(out))
  {
    if read.Received? && |read.text| > 0 && !IsNullOrWhiteSpace(read.text) {
      BroadcastAvoidsSender(b, read.text, c, outcomes);
      assert Elements([read.text]) == {read.text};
    } else {
      assert b.wire[|b.wire|..] == [] && b.removedLog[|b.removedLog|..] == [];
    }
  }

  /** A receive session on a connected socket broadcasts exactly the
      non-blank chunks before the first read that ends the loop, and leaves
      the socket not connected exactly when it ended on a socket error. */
  lemma {:induction false} ReceivingSocket(b: Ledger, c: ConnId, stream: seq<ReadResult>, outcomes: seq<map<ConnId, SendResult>>)
    requires |outcomes| == |stream| && IsConnected(c, b.sockets)
    ensures var (r, ms) := Receiving(b, c, stream, outcomes);
      ms == Relayed(stream) && c in r.sockets
      && r.sockets[c] == (if EndsInSocketFault(stream) then Broken(b.sockets[c]) else b.sockets[c])
    decreases |stream|
  {
    if stream != [] {
      var step := ReceiveStep(b, c, stream[0], outcomes[0]);
      ReceiveStepAvoids(b, c, stream[0], outcomes[0]);
      if step.2 {
        ReceivingSocket(step.0, c, stream[1..], outcomes[1..]);
      }
    }
  }

  /** A receive session leaves its own socket alone in every respect but its
      connection: it writes only the messages it relays, never to its own
      socket, never removes it, and only removes other peers. */
  lemma {:induction false} ReceivingUntouched(b: Ledger, c: ConnId, stream: seq<ReadResult>, outcomes: seq<map<ConnId, SendResult>>)
    requires |outcomes| == |stream| && IsConnected(c, b.sockets)
    ensures var (r, ms) := Receiving(b, c, stream, outcomes);
      Untouched(b, r, c, Elements(ms))
    decreases |stream|
  {
    if stream != [] && IsConnected(c, b.sockets) {
      var step := ReceiveStep(b, c, stream[0], outcomes[0]);
      ReceiveStepAvoids(b, c, stream[0], outcomes[0]);
      if step.2 {
        ReceivingUntouched(step.0, c, stream[1..], outcomes[1..]);
        var rest := Receiving(step.0, c, stream[1..], outcomes[1..]);
        UntouchedTrans(b, step.0, rest.0, c, Elements(step.1), Elements(rest.1));
        ElementsAppend(step.1, rest.1);
      }
    } else {
      assert b.wire[|b.wire|..] == [] && b.removedLog[|b.removedLog|..] == [];
    }
  }

  /** Everything a receive session on a connected socket does, together
      (`ReceivingSocket` and `ReceivingUntouched`). */
  lemma ReceivingRelays(b: Ledger, c: ConnId, stream: seq<ReadResult>, outcomes: seq<map<ConnId, SendResult>>)
    requires |outcomes| == |stream| && IsConnected(c, b.sockets)
    ensures var (r, ms) := Receiving(b, c, stream, outcomes);
      ms == Relayed(stream)
      && c in r.sockets
      && r.sockets[c] == (if EndsInSocketFault(stream) then Broken(b.sockets[c]) else b.sockets[c])
      && b.wire <= r.wire && (forall d :: d in r.wire[|b.wire|..] ==> d.to != c && d.text in ms)
      && b.removedLog <= r.removedLog && c !in r.removedLog[|b.removedLog|..]
      && (forall x :: x in r.clients ==> x in b.clients)
      && (c in r.clients <==> c in b.clients)
      && (NoDup(b.clients) ==> NoDup(r.clients))
  {
    ReceivingSocket(b, c, stream, outcomes);
    ReceivingUntouched(b, c, stream, outcomes);
  }

  /** Whatever its session did, a handler that ends with `RemoveClient`
      leaves its socket unregistered and closed, and reports it removed in
      that session exactly when it was registered at the start. */
  lemma HandlerLeavesNoTrace(b: Ledger, c: ConnId, stream: seq<ReadResult>, outcomes: seq<map<ConnId, SendResult>>)
    requires |outcomes| == |stream| && NoDup(b.clients) && c in b.sockets
    ensures var r := Removal(Receiving(b, c, stream, outcomes).0, c);
      c !in r.clients && c in r.sockets && r.sockets[c].closed && !r.sockets[c].connected
      && b.removedLog <= r.removedLog
      && (c in r.removedLog[|b.removedLog|..] <==> c in b.clients)
  {
    var s := Receiving(b, c, stream, outcomes).0;
    if IsConnected(c, b.sockets) {
      ReceivingRelays(b, c, stream, outcomes);
      var r := Removal(s, c);
      assert r.removedLog[|b.removedLog|..] == s.removedLog[|b.removedLog|..] + (if c in s.clients then [c] else []);
    } else {
      assert s == b;
      assert Removal(s, c).removedLog[|b.removedLog|..] == if c in b.clients then [c] else [];
    }
    RemovalIsFinal(s, c);
  }

  // ------------------------------------------------------------------
  // Shutdown

  /** Removing the first `n` members of a registry without duplicates, in
      order, leaves the rest registered, tears the first `n` down and reports
      them in order. */
  lemma {:induction false} RemovalsOfPrefix(b: Ledger, n: nat)
    requires NoDup(b.clients) && n <= |b.clients|
    requires forall c :: c in b.clients ==> c in b.sockets
    ensures Removals(b, b.clients[..n])
            == b.(clients := b.clients[n..],
                  sockets := TearDown(b.sockets, Elements(b.clients[..n])),
                  removedLog := b.removedLog + b.clients[..n])
  {
    if n == 0 {
      assert Elements(b.clients[..0]) == {};
      assert TearDown(b.sockets, {}) == b.sockets;
    } else {
      var c := b.clients[n - 1];
      assert b.clients[..n][..n - 1] == b.clients[..n - 1];
      RemovalsOfPrefix(b, n - 1);
      var rest := b.clients[n - 1..];
      assert rest[0] == c && rest[1..] == b.clients[n..];
      assert c !in b.clients[..n - 1] by {
        forall k | 0 <= k < n - 1 ensures b.clients[k] != c {
        }
      }
      TearDownStep(b.sockets, Elements(b.clients[..n - 1]), c);
      assert b.clients[..n] == b.clients[..n - 1] + [c];
      ElementsAppendOne(b.clients[..n - 1], c);
      ConcatAssoc(b.removedLog, b.clients[..n - 1], [c]);
      var prev := Removals(b, b.clients[..n - 1]);
      assert Removals(b, b.clients[..n]) == Removal(prev, c);
      assert RemoveFirst(rest, c) == rest[1..];
      assert c in prev.clients && c in prev.sockets;
    }
  }

  /** `Stop`'s sweep over a snapshot of the registry empties it, tears down
      every member and reports each member removed once, in registry order,
      and writes nothing. */
  lemma SweepEmpties(b: Ledger)
    requires NoDup(b.clients)
    requires forall c :: c in b.clients ==> c in b.sockets
    ensures Removals(b, b.clients).clients == []
    ensures Removals(b, b.clients).sockets == TearDown(b.sockets, Elements(b.clients))
    ensures Removals(b, b.clients).removedLog == b.removedLog + b.clients
    ensures Removals(b, b.clients).wire == b.wire
  {
    RemovalsOfPrefix(b, |b.clients|);
    assert b.clients[..|b.clients|] == b.clients;
  }
}
