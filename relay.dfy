/** The decisions the relay server makes, stated as functions: which registry
    members get a broadcast, which received chunks are relayed, and which
    incoming connections the accept loop admits. The server class in module
    Server is proved against these. */
module Relay {
  import opened Text
  import opened Sequences

  /** A socket, by identity. */
  type ConnId = nat

  /** `maxConnections` of the server. */
  const MaxConnections: nat := 100

  /** What the server can observe of a socket: `Connected`, whether
      `Shutdown(SocketShutdown.Both)` has been called on it (even when the
      call failed and the error was ignored), and whether it has been closed. */
  datatype SocketState = SocketState(connected: bool, shutDown: bool, closed: bool)

  /** A freshly accepted socket. */
  const Accepted := SocketState(true, false, false)

  /** A socket whose last operation failed with a socket error: .NET reports
      it as no longer connected. */
  function Broken(st: SocketState): SocketState {
    st.(connected := false)
  }

  /** The effect of `RemoveClient` on the socket: shut down only if still
      connected, then closed. */
  function Torn(st: SocketState): SocketState {
    SocketState(false, st.shutDown || st.connected, true)
  }

  /** `c` is a known socket whose `Connected` is true. */
  predicate IsConnected(c: ConnId, sockets: map<ConnId, SocketState>) {
    c in sockets && sockets[c].connected
  }

  /** The socket states after `RemoveClient` has run on every member of `gone`. */
  function TearDown(sockets: map<ConnId, SocketState>, gone: set<ConnId>): map<ConnId, SocketState>
  {
    map c | c in sockets :: if c in gone then Torn(sockets[c]) else sockets[c]
  }

  /** The socket states after every send to a member of `gone` has failed with
      a socket error and `RemoveClient` has run on it. */
  function TearDownBroken(sockets: map<ConnId, SocketState>, gone: set<ConnId>): map<ConnId, SocketState>
  {
    map c | c in sockets :: if c in gone then Torn(Broken(sockets[c])) else sockets[c]
  }

  // ------------------------------------------------------------------
  // Broadcast

  /** What one `Send` on a peer does. */
  datatype SendResult = Sent | SendSocketError | SendOtherError

  /** The result of sending to `c`, when `outcomes` lists the peers whose
      sends fail: every other send succeeds. */
  function SendOutcome(outcomes: map<ConnId, SendResult>, c: ConnId): SendResult {
    if c in outcomes then outcomes[c] else Sent
  }

  /** One message written to one peer. */
  datatype Delivery = Delivery(to: ConnId, text: string)

  /** The peers of a snapshot that a broadcast from `sender` writes to: every
      member other than the sender that is still connected, in snapshot order. */
  function Recipients(snapshot: seq<ConnId>, sender: ConnId, sockets: map<ConnId, SocketState>): seq<ConnId>
  {
    if snapshot == [] then []
    else
      var c := snapshot[|snapshot| - 1];
      Recipients(snapshot[..|snapshot| - 1], sender, sockets) + (if c != sender && IsConnected(c, sockets) then [c] else [])
  }

  /** A peer is a recipient exactly when it is in the snapshot, is not the
      sender and is connected; so the sender never receives its own message. */
  lemma {:induction false} RecipientsExactly(snapshot: seq<ConnId>, sender: ConnId, sockets: map<ConnId, SocketState>)
    ensures forall c :: c in Recipients(snapshot, sender, sockets) <==> c in snapshot && c != sender && IsConnected(c, sockets)
    ensures sender !in Recipients(snapshot, sender, sockets)
  {
    if snapshot != [] {
      var n := |snapshot| - 1;
      RecipientsExactly(snapshot[..n], sender, sockets);
      assert snapshot == snapshot[..n] + [snapshot[n]];
    }
  }

  /** Recipients appear in snapshot order. */
  lemma {:induction false} RecipientsInOrder(snapshot: seq<ConnId>, sender: ConnId, sockets: map<ConnId, SocketState>)
    ensures IsSubsequence(Recipients(snapshot, sender, sockets), snapshot)
  {
    if snapshot != [] {
      var n := |snapshot| - 1;
      var c := snapshot[n];
      RecipientsInOrder(snapshot[..n], sender, sockets);
      assert snapshot == snapshot[..n] + [c];
      var tail := if c != sender && IsConnected(c, sockets) then [c] else [];
      SubsequenceAppend(Recipients(snapshot[..n], sender, sockets), snapshot[..n], tail, [c]);
    }
  }

  /** A snapshot without duplicates yields each recipient once. */
  lemma {:induction false} RecipientsDistinct(snapshot: seq<ConnId>, sender: ConnId, sockets: map<ConnId, SocketState>)
    requires NoDup(snapshot)
    ensures NoDup(Recipients(snapshot, sender, sockets))
  {
    if snapshot != [] {
      var n := |snapshot| - 1;
      var c := snapshot[n];
      NoDupSplitLast(snapshot);
      var front := Recipients(snapshot[..n], sender, sockets);
      RecipientsDistinct(snapshot[..n], sender, sockets);
      RecipientsExactly(snapshot[..n], sender, sockets);
      var r := front + (if c != sender && IsConnected(c, sockets) then [c] else []);
      forall i, j | 0 <= i < j < |r| ensures r[i] != r[j] {
        if j < |front| {
          assert r[i] == front[i] && r[j] == front[j];
        } else {
          assert r[i] == front[i] && r[j] == c;
        }
      }
    }
  }

  /** Subsequences concatenate. */
  lemma {:induction false} SubsequenceAppend<T>(r: seq<T>, s: seq<T>, r': seq<T>, s': seq<T>)
    requires IsSubsequence(r, s) && IsSubsequence(r', s')
    ensures IsSubsequence(r + r', s + s')
    decreases |s|
  {
    if s == [] {
      assert r == [];
      assert r + r' == r' && s + s' == s';
    } else if r == [] {
      SubsequenceAppend(r, s[1..], r', s');
      assert (s + s')[1..] == s[1..] + s';
      SubsequenceOfTail(r + r', s + s');
    } else if r[0] == s[0] {
      SubsequenceAppend(r[1..], s[1..], r', s');
      assert (r + r')[1..] == r[1..] + r' && (s + s')[1..] == s[1..] + s';
    } else {
      SubsequenceAppend(r, s[1..], r', s');
      assert (s + s')[1..] == s[1..] + s';
    }
  }

  /** The selection loop of `BroadcastMessageAsync`: walks the snapshot and
      keeps every member that is not the sender and is connected. */
  method SelectRecipients(snapshot: seq<ConnId>, sender: ConnId, sockets: map<ConnId, SocketState>)
    returns (recipients: seq<ConnId>)
    ensures recipients == Recipients(snapshot, sender, sockets)
    ensures forall c :: c in recipients <==> c in snapshot && c != sender && IsConnected(c, sockets)
  {
    recipients := [];
    var i := 0;
    while i < |snapshot|
      invariant 0 <= i <= |snapshot|
      invariant recipients == Recipients(snapshot[..i], sender, sockets)
    {
      var client := snapshot[i];
      if client != sender && IsConnected(client, sockets) {
        recipients := recipients + [client];
      }
      assert snapshot[..i + 1][..i] == snapshot[..i];
      i := i + 1;
    }
    assert snapshot[..i] == snapshot;
    RecipientsExactly(snapshot, sender, sockets);
  }

  /** The writes a fan-out to `rs` puts on the wire: one per peer whose send succeeds. */
  function Deliveries(rs: seq<ConnId>, text: string, outcomes: map<ConnId, SendResult>): seq<Delivery>
  {
    if rs == [] then []
    else
      var c := rs[|rs| - 1];
      Deliveries(rs[..|rs| - 1], text, outcomes) + (if SendOutcome(outcomes, c) == Sent then [Delivery(c, text)] else [])
  }

  /** The peers of a fan-out whose send fails with a socket error, in order. */
  function Failures(rs: seq<ConnId>, outcomes: map<ConnId, SendResult>): seq<ConnId>
  {
    if rs == [] then []
    else
      var c := rs[|rs| - 1];
      Failures(rs[..|rs| - 1], outcomes) + (if SendOutcome(outcomes, c) == SendSocketError then [c] else [])
  }

  /** Tearing down one more broken peer updates just that peer's state.
      (This and the next lemma keep a map equality out of the inductions
      over fan-outs and sweeps, where proving it inline is costly.) */
  lemma TearDownBrokenStep(sockets: map<ConnId, SocketState>, gone: set<ConnId>, c: ConnId)
    requires c in sockets && c !in gone
    ensures TearDownBroken(sockets, gone + {c}) == TearDownBroken(sockets, gone)[c := Torn(Broken(sockets[c]))]
  {
  }

  /** Tearing down one more peer updates just that peer's state. */
  lemma TearDownStep(sockets: map<ConnId, SocketState>, gone: set<ConnId>, c: ConnId)
    requires c in sockets && c !in gone
    ensures TearDown(sockets, gone + {c}) == TearDown(sockets, gone)[c := Torn(sockets[c])]
  {
  }

  /** Every write of a fan-out carries the message to one of the chosen peers,
      and every peer with a successful send gets it. */
  lemma {:induction false} DeliveriesExactly(rs: seq<ConnId>, text: string, outcomes: map<ConnId, SendResult>)
    ensures forall d :: d in Deliveries(rs, text, outcomes) ==> d.to in rs && d.text == text && SendOutcome(outcomes, d.to) == Sent
    ensures forall c :: c in rs && SendOutcome(outcomes, c) == Sent ==> Delivery(c, text) in Deliveries(rs, text, outcomes)
  {
    if rs != [] {
      var n := |rs| - 1;
      DeliveriesExactly(rs[..n], text, outcomes);
      assert rs == rs[..n] + [rs[n]];
    }
  }

  /** The failed peers are exactly the chosen peers whose send raised a socket error. */
  lemma {:induction false} FailuresExactly(rs: seq<ConnId>, outcomes: map<ConnId, SendResult>)
    ensures forall c :: c in Failures(rs, outcomes) <==> c in rs && SendOutcome(outcomes, c) == SendSocketError
  {
    if rs != [] {
      var n := |rs| - 1;
      FailuresExactly(rs[..n], outcomes);
      assert rs == rs[..n] + [rs[n]];
    }
  }

  // ------------------------------------------------------------------
  // Receive loop

  /** What one `Receive` on a client socket yields. `Received("")` is a read
      of zero bytes; `Reset` and `Aborted` are the two socket errors that
      `ReceiveAsync` turns into zero bytes; `SocketError` is any other socket
      error, `Canceled` the shutdown signal, `OtherError` any other exception. */
  datatype ReadResult = Received(text: string) | Reset | Aborted | SocketError | Canceled | OtherError

  /** The read ends the receive loop: a zero-byte read or an exception. */
  predicate EndsLoop(r: ReadResult) {
    !(r.Received? && |r.text| > 0)
  }

  /** The messages the receive loop broadcasts for a sequence of reads, when
      it starts on a connected socket and no cancellation arrives: each
      non-blank chunk, in order, up to the first read that ends the loop.
      Running out of reads ends the loop too. */
  function Relayed(stream: seq<ReadResult>): seq<string>
  {
    if stream == [] || EndsLoop(stream[0]) then []
    else if IsNullOrWhiteSpace(stream[0].text) then Relayed(stream[1..])
    else [stream[0].text] + Relayed(stream[1..])
  }

  /** The loop ended on a socket error, after which .NET reports the socket as
      not connected. */
  predicate EndsInSocketFault(stream: seq<ReadResult>) {
    if stream == [] then false
    else if !EndsLoop(stream[0]) then EndsInSocketFault(stream[1..])
    else stream[0].Reset? || stream[0].Aborted? || stream[0].SocketError?
  }

  /** A relayed message is never blank: the loop skips blank chunks, so the
      test at the head of `BroadcastMessageAsync` never fires for them. */
  lemma {:induction false} RelayedNotBlank(stream: seq<ReadResult>)
    ensures forall m :: m in Relayed(stream) ==> !IsNullOrWhiteSpace(m)
    ensures |Relayed(stream)| <= |stream|
  {
    if stream != [] && !EndsLoop(stream[0]) {
      RelayedNotBlank(stream[1..]);
    }
  }

  /** Nothing after the read that ends the loop is relayed: a zero-byte read,
      a reset, an abort or an exception stops the loop for good. */
  lemma {:induction false} RelayedStopsAt(pre: seq<ReadResult>, stop: ReadResult, post: seq<ReadResult>)
    requires EndsLoop(stop)
    ensures Relayed(pre + [stop] + post) == Relayed(pre)
    ensures EndsInSocketFault(pre + [stop] + post) == (EndsInSocketFault(pre) || (!(exists r :: r in pre && EndsLoop(r)) && (stop.Reset? || stop.Aborted? || stop.SocketError?)))
  {
    var all := pre + [stop] + post;
    if pre == [] {
      assert all[0] == stop;
    } else {
      assert all[0] == pre[0] && all[1..] == pre[1..] + [stop] + post;
      RelayedStopsAt(pre[1..], stop, post);
      assert forall r :: r in pre <==> r == pre[0] || r in pre[1..];
    }
  }

  /** Relaying a stream that has no read ending the loop and then more reads
      is relaying the two parts one after the other. */
  lemma {:induction false} RelayedAppend(pre: seq<ReadResult>, rest: seq<ReadResult>)
    requires forall r :: r in pre ==> !EndsLoop(r)
    ensures Relayed(pre + rest) == Relayed(pre) + Relayed(rest)
  {
    if pre == [] {
      assert pre + rest == rest;
    } else {
      assert (pre + rest)[0] == pre[0] && (pre + rest)[1..] == pre[1..] + rest;
      RelayedAppend(pre[1..], rest);
    }
  }

  // ------------------------------------------------------------------
  // Accept loop

  /** What one `Accept` on the listening socket yields: a new socket, the
      listener disposed (closed by `Stop`), the wait cancelled, or another error. */
  datatype AcceptResult = Incoming(conn: ConnId) | ListenerDisposed | AcceptCanceled | AcceptError

  /** The connections the accept loop admits, in order, starting with `count`
      connections registered, the listener open and no cancellation: each
      incoming socket while fewer than `MaxConnections` are registered; other
      errors are retried; disposal or cancellation ends the loop. At capacity
      the source pauses until a connection leaves, which no step of a
      sequential run can bring about, so admission ends there. */
  function Admissions(count: nat, attempts: seq<AcceptResult>): seq<ConnId>
    decreases |attempts|
  {
    if attempts == [] || count >= MaxConnections then []
    else match attempts[0]
      case Incoming(c) => [c] + Admissions(count + 1, attempts[1..])
      case AcceptError => Admissions(count, attempts[1..])
      case _ => []
  }

  /** The sockets that arrive in a sequence of accept results, in order. */
  function IncomingConns(attempts: seq<AcceptResult>): seq<ConnId>
  {
    if attempts == [] then []
    else (if attempts[0].Incoming? then [attempts[0].conn] else []) + IncomingConns(attempts[1..])
  }

  /** Capacity: starting at or below the limit, admission never takes the
      registry past `MaxConnections`; and what is admitted is a prefix of
      the sockets that arrived, so no socket is admitted out of order. */
  lemma {:induction false} AdmissionsBounded(count: nat, attempts: seq<AcceptResult>)
    requires count <= MaxConnections
    ensures count + |Admissions(count, attempts)| <= MaxConnections
    ensures Admissions(count, attempts) <= IncomingConns(attempts)
    decreases |attempts|
  {
    if attempts != [] && count < MaxConnections {
      match attempts[0]
      case Incoming(c) => AdmissionsBounded(count + 1, attempts[1..]);
      case AcceptError => AdmissionsBounded(count, attempts[1..]);
      case _ =>
    }
  }

  /** With every incoming socket admitted there is room for, a registry that
      starts with `count` members and sees only arriving sockets admits
      exactly `MaxConnections - count` of them once enough arrive: the loop
      fills the registry and then pauses. */
  lemma {:induction false} AdmissionsFill(count: nat, attempts: seq<AcceptResult>)
    requires count <= MaxConnections
    requires forall k :: 0 <= k < |attempts| ==> attempts[k].Incoming?
    ensures |Admissions(count, attempts)| == if count + |attempts| <= MaxConnections then |attempts| else MaxConnections - count
    decreases |attempts|
  {
    if attempts != [] && count < MaxConnections {
      AdmissionsFill(count + 1, attempts[1..]);
    }
  }

  /** The sockets the operating system hands out are new: none is already
      known, and none arrives twice. */
  predicate FreshArrivals(attempts: seq<AcceptResult>, sockets: map<ConnId, SocketState>) {
    (forall k :: 0 <= k < |attempts| && attempts[k].Incoming? ==> attempts[k].conn !in sockets)
    && (forall j, k :: 0 <= j < k < |attempts| && attempts[j].Incoming? && attempts[k].Incoming? ==>
          attempts[j].conn != attempts[k].conn)
  }

  /** The socket states after `cs` has been accepted, in order. */
  function Admit(sockets: map<ConnId, SocketState>, cs: seq<ConnId>): (r: map<ConnId, SocketState>)
    ensures forall c :: c in r <==> c in sockets || c in cs
    ensures forall c :: c in cs ==> r[c] == Accepted
    ensures forall c :: c in sockets && c !in cs ==> r[c] == sockets[c]
    decreases |cs|
  {
    if cs == [] then sockets
    else Admit(sockets[cs[0] := Accepted], cs[1..])
  }
}
