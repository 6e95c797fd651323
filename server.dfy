/** The bookkeeping of `TCPServer`: the registry of connected clients, the
    list of handler tasks, and the teardown and shutdown rules, with socket
    I/O replaced by given outcomes and every step run to completion in turn. */
module Server {
  import opened Text
  import opened Sequences
  import opened Relay
  import opened Bookkeeping
  import opened Admission

  /** The registry holds distinct known sockets that are not closed, within capacity. */
  ghost predicate LiveRegistry(clients: seq<ConnId>, sockets: map<ConnId, SocketState>) {
    NoDup(clients) && |clients| <= MaxConnections
    && (forall c :: c in clients ==> c in sockets && !sockets[c].closed)
  }

  /** Every socket is reported connected at most once and removed at most
      once, only after it was reported connected, and a reported socket is closed. */
  ghost predicate ReportedOnce(sockets: map<ConnId, SocketState>, connectedLog: seq<ConnId>, removedLog: seq<ConnId>) {
    NoDup(connectedLog) && (forall c :: c in connectedLog ==> c in sockets)
    && NoDup(removedLog)
    && (forall c :: c in removedLog ==> c in connectedLog && c in sockets && sockets[c].closed)
  }

  /** Every socket reported connected is either still registered or has been
      reported removed. */
  ghost predicate Accounted(clients: seq<ConnId>, connectedLog: seq<ConnId>, removedLog: seq<ConnId>) {
    |connectedLog| == |clients| + |removedLog| && (forall c :: c in clients ==> c in connectedLog)
  }

  /** Every known socket that is not closed is registered: a socket leaves
      the registry only by being closed. */
  ghost predicate NoStray(clients: seq<ConnId>, sockets: map<ConnId, SocketState>) {
    forall c :: c in sockets && !sockets[c].closed ==> c in clients
  }

  /** The registry and the reports agree with the sockets: the registry
      is exactly the known sockets that are not closed. */
  ghost predicate Registered(clients: seq<ConnId>, sockets: map<ConnId, SocketState>,
                             connectedLog: seq<ConnId>, removedLog: seq<ConnId>)
  {
    LiveRegistry(clients, sockets) && NoStray(clients, sockets)
    && ReportedOnce(sockets, connectedLog, removedLog)
    && Accounted(clients, connectedLog, removedLog)
  }

  /** Closing the socket that leaves the registry leaves no other socket
      open outside it. */
  lemma RemovalKeepsNoStray(clients: seq<ConnId>, sockets: map<ConnId, SocketState>, c: ConnId, st: SocketState)
    requires NoStray(clients, sockets) && st.closed
    ensures NoStray(RemoveFirst(clients, c), sockets[c := st])
  {
    var ss := sockets[c := st];
    forall x | x in ss && !ss[x].closed ensures x in RemoveFirst(clients, c) {
      RemoveFirstKeepsOthers(clients, c, x);
    }
  }

  /** Removing a socket and closing it leaves the others registered and open. */
  lemma RemovalKeepsLive(clients: seq<ConnId>, sockets: map<ConnId, SocketState>, c: ConnId, st: SocketState)
    requires LiveRegistry(clients, sockets)
    ensures LiveRegistry(RemoveFirst(clients, c), sockets[c := st])
  {
    var cs := RemoveFirst(clients, c);
    RemoveFirstTwice(clients, c);
    RemoveFirstNoDup(clients, c);
    WithoutNoDup(clients, {c});
    forall x | x in cs ensures x in sockets[c := st] && !sockets[c := st][x].closed {
      assert x in clients && x != c;
    }
  }

  /** Reporting a registered socket removed once it is closed keeps every
      socket reported at most once. */
  lemma RemovalKeepsReported(clients: seq<ConnId>, sockets: map<ConnId, SocketState>,
                             connectedLog: seq<ConnId>, removedLog: seq<ConnId>, c: ConnId, st: SocketState)
    requires ReportedOnce(sockets, connectedLog, removedLog) && Accounted(clients, connectedLog, removedLog)
    requires c in sockets && st.closed && (c in clients ==> c !in removedLog)
    ensures ReportedOnce(sockets[c := st], connectedLog, removedLog + (if c in clients then [c] else []))
  {
    var ss := sockets[c := st];
    var log := removedLog + (if c in clients then [c] else []);
    if c in clients {
      forall i, j | 0 <= i < j < |log| ensures log[i] != log[j] {
        if j == |removedLog| { assert log[i] in removedLog; }
      }
    } else {
      assert log == removedLog;
    }
    forall x | x in log ensures x in connectedLog && x in ss && ss[x].closed {
      assert x in removedLog || x == c;
    }
  }

  /** Moving a registered socket from the registry to the removal reports
      keeps the account. */
  lemma RemovalKeepsAccount(clients: seq<ConnId>, connectedLog: seq<ConnId>, removedLog: seq<ConnId>, c: ConnId)
    requires Accounted(clients, connectedLog, removedLog)
    ensures Accounted(RemoveFirst(clients, c), connectedLog, removedLog + (if c in clients then [c] else []))
  {
  }

  /** Removing a socket from the registry and closing it keeps the registry
      consistent, and reporting it only when it was registered keeps every
      socket reported at most once. */
  lemma RemovalKeepsRegistered(clients: seq<ConnId>, sockets: map<ConnId, SocketState>,
                               connectedLog: seq<ConnId>, removedLog: seq<ConnId>, c: ConnId, st: SocketState)
    requires Registered(clients, sockets, connectedLog, removedLog) && c in sockets && st.closed
    ensures Registered(RemoveFirst(clients, c), sockets[c := st], connectedLog,
                       removedLog + (if c in clients then [c] else []))
  {
    RemovalKeepsLive(clients, sockets, c, st);
    RemovalKeepsNoStray(clients, sockets, c, st);
    if c in clients {
      assert !sockets[c].closed;
    }
    RemovalKeepsReported(clients, sockets, connectedLog, removedLog, c, st);
    RemovalKeepsAccount(clients, connectedLog, removedLog, c);
  }

  /** Marking a registered socket as no longer connected keeps the registry consistent. */
  lemma BreakKeepsRegistered(clients: seq<ConnId>, sockets: map<ConnId, SocketState>,
                             connectedLog: seq<ConnId>, removedLog: seq<ConnId>, c: ConnId)
    requires Registered(clients, sockets, connectedLog, removedLog) && c in sockets
    ensures Registered(clients, sockets[c := Broken(sockets[c])], connectedLog, removedLog)
  {
  }

  /** Registering a socket never seen before, while below capacity, keeps the
      registry consistent. */
  lemma AdmissionKeepsRegistered(clients: seq<ConnId>, sockets: map<ConnId, SocketState>,
                                 connectedLog: seq<ConnId>, removedLog: seq<ConnId>, c: ConnId)
    requires Registered(clients, sockets, connectedLog, removedLog) && c !in sockets
    requires |clients| < MaxConnections
    ensures Registered(clients + [c], sockets[c := Accepted], connectedLog + [c], removedLog)
  {
    var cs := clients + [c];
    forall i, j | 0 <= i < j < |cs| ensures cs[i] != cs[j] {
      if j == |clients| { assert cs[i] in clients; }
    }
    var log := connectedLog + [c];
    forall i, j | 0 <= i < j < |log| ensures log[i] != log[j] {
      if j == |connectedLog| { assert log[i] in connectedLog; }
    }
  }

  class TCPServer {
    /** `ChatServer.clients`, the registry, shared by the accept loop, the
        handlers and the broadcasts. */
    var clients: seq<ConnId>
    /** The observable state of every socket accepted so far. */
    var sockets: map<ConnId, SocketState>
    /** `clientTasks`: one handler task per accepted socket, named by that socket. */
    var clientTasks: seq<ConnId>
    /** The handler tasks that have completed (`Task.IsCompleted`). */
    var finished: set<ConnId>
    /** The cancellation token has been signalled. */
    var cancelled: bool
    /** The listening socket has not been closed. */
    var listenerOpen: bool
    /** `disposed`; the cancellation token source is disposed together with it. */
    var disposed: bool
    /** Every message written to a peer, in order. */
    var wire: seq<Delivery>
    /** The "Client connected" diagnostics, by socket. */
    var connectedLog: seq<ConnId>
    /** The real removals, by socket: each `RemoveClient` that found its
        socket registered (`removed == true`). */
    var removedLog: seq<ConnId>

    /** The registry and the reports agree with the sockets (see
        `Registered`), and every task belongs to a known socket. */
    ghost predicate Valid()
      reads this
    {
      Registered(clients, sockets, connectedLog, removedLog)
      && Elements(clientTasks) <= sockets.Keys && finished <= sockets.Keys
    }

    /** A server whose listening socket has been bound and is listening. */
    constructor ()
      ensures Valid()
      ensures clients == [] && sockets == map[] && clientTasks == [] && finished == {}
      ensures !cancelled && listenerOpen && !disposed
      ensures wire == [] && connectedLog == [] && removedLog == []
    {
      clients, sockets, clientTasks, finished := [], map[], [], {};
      cancelled, listenerOpen, disposed := false, true, false;
      wire, connectedLog, removedLog := [], [], [];
    }

    /** The part of the state the client handlers change. */
    function State(): Ledger
      reads this
    {
      Ledger(clients, sockets, wire, removedLog)
    }

    /** The part of the state the accept loop changes. */
    function AcceptState(): Intake
      reads this
    {
      Intake(clients, sockets, connectedLog, clientTasks)
    }

    /** `RemoveClient`: deletes the socket's first occurrence from the
        registry, reporting whether there was one; shuts the socket down if it
        is still connected and closes it in every case; reports the removal
        only when the registry changed. */
    method RemoveClient(c: ConnId) returns (removed: bool)
      requires Valid() && c in sockets
      modifies this`clients, this`sockets, this`removedLog
      ensures Valid()
      ensures removed == (c in old(clients))
      ensures State() == Removal(old(State()), c)
    {
      removed := c in clients;
      clients := RemoveFirst(clients, c);
      var st := sockets[c];
      if st.connected {
        st := st.(shutDown := true);
      }
      st := st.(connected := false, closed := true);
      sockets := sockets[c := st];
      if removed {
        removedLog := removedLog + [c];
      }
      RemovalKeepsRegistered(old(clients), old(sockets), connectedLog, old(removedLog), c, st);
    }

    /** `SendMessageAsync`: a successful send puts the message on the wire; a
        socket error leaves the peer not connected and tears it down through
        `RemoveClient`; any other error is only reported. */
    method SendMessage(client: ConnId, text: string, result: SendResult)
      requires Valid() && client in sockets
      modifies this`wire, this`clients, this`sockets, this`removedLog
      ensures Valid()
      ensures State() == SendStep(old(State()), client, text, result)
    {
      match result
      case Sent =>
        wire := wire + [Delivery(client, text)];
      case SendSocketError =>
        BreakKeepsRegistered(clients, sockets, connectedLog, removedLog, client);
        sockets := sockets[client := Broken(sockets[client])];
        var _ := RemoveClient(client);
      case SendOtherError =>
    }

    /** The next send of a fan-out to `recipients` that started from `start`. */
    method SendNext(ghost start: Ledger, recipients: seq<ConnId>, i: nat, message: string, outcomes: map<ConnId, SendResult>)
      requires Valid() && i < |recipients| && recipients[i] in sockets
      requires State() == FanOut(start, recipients[..i], message, outcomes)
      modifies this`wire, this`clients, this`sockets, this`removedLog
      ensures Valid() && sockets.Keys == old(sockets.Keys)
      ensures State() == FanOut(start, recipients[..i + 1], message, outcomes)
    {
      FanOutExtend(start, recipients, i, message, outcomes);
      SendMessage(recipients[i], message, SendOutcome(outcomes, recipients[i]));
    }

    /** `BroadcastMessageAsync`: a blank message is dropped; otherwise the
        message is sent, in turn, to every member of a registry snapshot other
        than the sender that is connected. */
    method Broadcast(message: string, sender: ConnId, outcomes: map<ConnId, SendResult>)
      returns (recipients: seq<ConnId>)
      requires Valid()
      modifies this`wire, this`clients, this`sockets, this`removedLog
      ensures Valid()
      ensures recipients == if IsNullOrWhiteSpace(message) then [] else Recipients(old(clients), sender, old(sockets))
      ensures State() == Broadcasting(old(State()), message, sender, outcomes)
    {
      if IsNullOrWhiteSpace(message) {
        return [];
      }
      var snapshot := clients;
      recipients := SelectRecipients(snapshot, sender, sockets);
      ghost var start := State();
      var i := 0;
      while i < |recipients|
        invariant 0 <= i <= |recipients|
        invariant Valid()
        invariant State() == FanOut(start, recipients[..i], message, outcomes)
        invariant forall r :: r in recipients ==> r in sockets
      {
        SendNext(start, recipients, i, message, outcomes);
        i := i + 1;
      }
      assert recipients[..i] == recipients;
    }

    /** One read of `ReceiveMessageAsync`: stop at a zero-byte read (a reset
        or abort counts as one) or an exception; skip a blank chunk;
        broadcast the rest. A socket error leaves the socket not connected. */
    method ReceiveOnce(c: ConnId, read: ReadResult, outcomes: map<ConnId, SendResult>)
      returns (goOn: bool, relayed: seq<string>)
      requires Valid() && c in sockets
      modifies this`wire, this`clients, this`sockets, this`removedLog
      ensures Valid() && c in sockets
      ensures (State(), relayed, goOn) == ReceiveStep(old(State()), c, read, outcomes)
    {
      match read
      case Received(text) =>
        if |text| == 0 {
          return false, [];
        }
        if IsNullOrWhiteSpace(text) {
          return true, [];
        }
        var _ := Broadcast(text, c, outcomes);
        return true, [text];
      case Canceled =>
        return false, [];
      case OtherError =>
        return false, [];
      case _ =>
        BreakKeepsRegistered(clients, sockets, connectedLog, removedLog, c);
        sockets := sockets[c := Broken(sockets[c])];
        return false, [];
    }

    /** `ReceiveMessageAsync`: reads while the token is not signalled and the
        socket is connected, until a read ends the loop. */
    method ReceiveMessages(c: ConnId, stream: seq<ReadResult>, outcomes: seq<map<ConnId, SendResult>>)
      returns (messages: seq<string>)
      requires |outcomes| == |stream| && Valid() && c in sockets
      modifies this`wire, this`clients, this`sockets, this`removedLog
      ensures Valid() && c in sockets
      ensures cancelled ==> messages == [] && State() == old(State())
      ensures !cancelled ==> (State(), messages) == Receiving(old(State()), c, stream, outcomes)
    {
      messages := [];
      ghost var start := State();
      var i := 0;
      var goOn := true;
      assert stream[i..] == stream && outcomes[i..] == outcomes;
      assert [] + Receiving(start, c, stream, outcomes).1 == Receiving(start, c, stream, outcomes).1;
      while goOn && !cancelled && sockets[c].connected && i < |stream|
        invariant 0 <= i <= |stream|
        invariant Valid() && c in sockets
        invariant cancelled ==> messages == [] && State() == start
        invariant !cancelled && goOn ==>
          Receiving(start, c, stream, outcomes)
          == (Receiving(State(), c, stream[i..], outcomes[i..]).0, messages + Receiving(State(), c, stream[i..], outcomes[i..]).1)
        invariant !cancelled && !goOn ==> Receiving(start, c, stream, outcomes) == (State(), messages)
        decreases |stream| - i
      {
        ghost var step := ReceiveStep(State(), c, stream[i], outcomes[i]);
        ReceivingAdvance(Receiving(start, c, stream, outcomes), State(), c, stream, i, messages, outcomes);
        var relayed;
        goOn, relayed := ReceiveOnce(c, stream[i], outcomes[i]);
        assert State() == step.0 && relayed == step.1 && goOn == step.2;
        messages := messages + relayed;
        i := i + 1;
      }
      assert messages + [] == messages;
    }

    /** `HandleClientAsync`: the receive loop, then `RemoveClient` in any
        case; the handler task is then complete. */
    method HandleClient(c: ConnId, stream: seq<ReadResult>, outcomes: seq<map<ConnId, SendResult>>)
      returns (messages: seq<string>)
      requires |outcomes| == |stream| && Valid() && c in sockets
      modifies this`wire, this`clients, this`sockets, this`removedLog, this`finished
      ensures Valid()
      ensures var session := if cancelled then (old(State()), []) else Receiving(old(State()), c, stream, outcomes);
        messages == session.1 && State() == Removal(session.0, c)
      ensures finished == old(finished) + {c}
      ensures c !in clients && sockets[c].closed
    {
      messages := ReceiveMessages(c, stream, outcomes);
      ghost var afterSession := State();
      var _ := RemoveClient(c);
      finished := finished + {c};
      RemovalIsFinal(afterSession, c);
    }

    /** `CleanupCompletedTasks`: drops the completed tasks from the list. */
    method CleanupCompletedTasks()
      requires Valid()
      modifies this`clientTasks
      ensures Valid()
      ensures clientTasks == Without(old(clientTasks), finished)
    {
      clientTasks := Without(clientTasks, finished);
    }

    /** One pass of the accept loop of `AcceptClientsAsync`: at capacity it
        waits and goes round again; otherwise it accepts, registers the new
        socket, starts and records its handler and cleans up completed
        tasks. A closed listener or a cancelled wait ends the loop; any other
        error is reported and the loop goes round again. */
    method AcceptOnce(attempt: AcceptResult) returns (step: LoopStep)
      requires Valid()
      requires attempt.Incoming? ==> attempt.conn !in sockets
      modifies this`clients, this`sockets, this`connectedLog, this`clientTasks
      ensures Valid()
      ensures (AcceptState(), step) == AcceptPass(old(AcceptState()), listenerOpen, finished, attempt)
    {
      if |clients| >= MaxConnections {
        return Paused;
      }
      if !listenerOpen {
        return Exit;
      }
      match attempt
      case Incoming(s) =>
        AdmissionKeepsRegistered(clients, sockets, connectedLog, removedLog, s);
        clients := clients + [s];
        sockets := sockets[s := Accepted];
        connectedLog := connectedLog + [s];
        clientTasks := clientTasks + [s];
        CleanupCompletedTasks();
        step := Continue;
      case AcceptError =>
        step := Continue;
      case _ =>
        step := Exit;
    }

    /** `AcceptClientsAsync` over a finite sequence of accept results: runs
        the accept loop until it is cancelled, the listener goes away or the
        results run out. At capacity the source waits for a handler to free a
        place; no handler runs during this loop, so the model stops there. */
    method AcceptClients(attempts: seq<AcceptResult>)
      requires Valid()
      requires FreshArrivals(attempts, sockets)
      modifies this`clients, this`sockets, this`connectedLog, this`clientTasks
      ensures Valid()
      ensures AcceptState() == if cancelled then old(AcceptState()) else AcceptLoop(old(AcceptState()), listenerOpen, finished, attempts)
    {
      ghost var start := AcceptState();
      var i := 0;
      var step := Continue;
      assert attempts[i..] == attempts;
      while step == Continue && !cancelled && i < |attempts|
        invariant 0 <= i <= |attempts|
        invariant Valid()
        invariant forall k :: i <= k < |attempts| && attempts[k].Incoming? ==> attempts[k].conn !in sockets
        invariant cancelled ==> AcceptState() == start
        invariant !cancelled ==>
          AcceptLoop(start, listenerOpen, finished, attempts)
          == (if step == Continue then AcceptLoop(AcceptState(), listenerOpen, finished, attempts[i..]) else AcceptState())
        decreases |attempts| - i, step == Continue
      {
        assert attempts[i..][0] == attempts[i] && attempts[i..][1..] == attempts[i + 1..];
        step := AcceptOnce(attempts[i]);
        i := i + 1;
      }
    }

    /** `Stop`: signals cancellation, closes the listener and removes every
        member of a snapshot of the registry. After `Dispose` the token source
        is disposed and signalling it fails with `ObjectDisposedException`
        before anything else happens. */
    method Stop() returns (error: bool)
      requires Valid()
      modifies this`cancelled, this`listenerOpen, this`clients, this`sockets, this`removedLog
      ensures Valid()
      ensures error == disposed
      ensures disposed ==>
        cancelled == old(cancelled) && listenerOpen == old(listenerOpen) && State() == old(State())
      ensures !disposed ==>
        cancelled && !listenerOpen && State() == Removals(old(State()), old(clients))
        && clients == [] && removedLog == old(removedLog) + old(clients)
        && sockets == TearDown(old(sockets), Elements(old(clients)))
      ensures !disposed ==> forall c :: c in sockets ==> sockets[c].closed
    {
      ghost var start := State();
      if disposed {
        return true;
      }
      error := false;
      cancelled := true;
      listenerOpen := false;
      var snapshot := clients;
      var i := 0;
      while i < |snapshot|
        invariant 0 <= i <= |snapshot|
        invariant Valid()
        invariant cancelled && !listenerOpen
        invariant State() == Removals(start, snapshot[..i])
      {
        assert snapshot[..i + 1][..i] == snapshot[..i];
        var _ := RemoveClient(snapshot[i]);
        i := i + 1;
      }
      assert snapshot[..i] == snapshot;
      SweepEmpties(start);
    }

    /** `Dispose`: the first call stops the server and disposes the token
        source; later calls do nothing. */
    method Dispose()
      requires Valid()
      modifies this`disposed, this`cancelled, this`listenerOpen, this`clients, this`sockets, this`removedLog
      ensures Valid() && disposed
      ensures old(disposed) ==>
        cancelled == old(cancelled) && listenerOpen == old(listenerOpen) && State() == old(State())
      ensures !old(disposed) ==>
        cancelled && !listenerOpen && State() == Removals(old(State()), old(clients)) && clients == []
      ensures !old(disposed) ==> forall c :: c in sockets ==> sockets[c].closed
    {
      if !disposed {
        var _ := Stop();
        disposed := true;
      }
    }
  }
}
