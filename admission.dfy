/** The part of the server's state that the accept loop changes, taken as a
    value, and the effect of one pass and of a whole run of the loop on it.
    `Server.TCPServer.AcceptOnce` and `AcceptClients` are proved to perform
    exactly these steps; `AcceptLoopAdmits` says what a run amounts to. */
module Admission {
  import opened Sequences
  import opened Relay

  /** How one pass of the accept loop ends: go round again, wait for room, or leave. */
  datatype LoopStep = Continue | Paused | Exit

  /** The registry, the socket states, the "Client connected" diagnostics and
      the list of handler tasks. */
  datatype Intake = Intake(clients: seq<ConnId>, sockets: map<ConnId, SocketState>,
                           connectedLog: seq<ConnId>, clientTasks: seq<ConnId>)

  /** One pass of the accept loop with the listener `listening` and the tasks
      `finished` completed: at capacity it waits; with the listener closed
      it leaves; an arriving socket is registered, reported, given a handler
      task, and the completed tasks are swept; other errors go round again;
      disposal or cancellation of the wait leaves. */
  function AcceptPass(s: Intake, listening: bool, finished: set<ConnId>, attempt: AcceptResult): (r: (Intake, LoopStep))
    ensures r.1 == Paused <==> |s.clients| >= MaxConnections
    ensures r.1 == Continue <==>
      |s.clients| < MaxConnections && listening && (attempt.Incoming? || attempt.AcceptError?)
    ensures r.0 != s ==> r.1 == Continue && attempt.Incoming?
    ensures forall c :: c in r.0.sockets ==> c in s.sockets || (attempt.Incoming? && c == attempt.conn)
  {
    if |s.clients| >= MaxConnections then (s, Paused)
    else if !listening then (s, Exit)
    else match attempt
      case Incoming(c) =>
        (Intake(s.clients + [c], s.sockets[c := Accepted], s.connectedLog + [c],
                Without(s.clientTasks + [c], finished)), Continue)
      case AcceptError => (s, Continue)
      case _ => (s, Exit)
  }

  /** The accept loop run over a sequence of accept results, pass by pass,
      until a pass does not go round again or the results run out. */
  function AcceptLoop(s: Intake, listening: bool, finished: set<ConnId>, attempts: seq<AcceptResult>): Intake
    decreases |attempts|
  {
    if attempts == [] then s
    else
      var pass := AcceptPass(s, listening, finished, attempts[0]);
      if pass.1 == Continue then AcceptLoop(pass.0, listening, finished, attempts[1..]) else pass.0
  }

  /** A run of the accept loop registers exactly the sockets `Admissions`
      picks (none once the listener is closed), in order, reports each as
      connected, marks each accepted, and leaves the task list with their
      handlers appended and the completed tasks swept out. */
  lemma {:induction false} AcceptLoopAdmits(s: Intake, listening: bool, finished: set<ConnId>, attempts: seq<AcceptResult>)
    ensures var t := AcceptLoop(s, listening, finished, attempts);
            var a := if listening then Admissions(|s.clients|, attempts) else [];
            t.clients == s.clients + a && t.connectedLog == s.connectedLog + a
            && t.sockets == Admit(s.sockets, a)
            && t.clientTasks == if a == [] then s.clientTasks else Without(s.clientTasks + a, finished)
    decreases |attempts|
  {
    if attempts != [] && |s.clients| < MaxConnections && listening {
      var t := AcceptPass(s, listening, finished, attempts[0]).0;
      match attempts[0]
      case Incoming(c) =>
        AcceptLoopAdmits(t, listening, finished, attempts[1..]);
        var rest := Admissions(|t.clients|, attempts[1..]);
        assert Admissions(|s.clients|, attempts) == [c] + rest;
        assert ([c] + rest)[0] == c && ([c] + rest)[1..] == rest;
        ConcatAssoc(s.clients, [c], rest);
        ConcatAssoc(s.connectedLog, [c], rest);
        ConcatAssoc(s.clientTasks, [c], rest);
        FilterAfterAppend(s.clientTasks + [c], rest, finished);
        if rest == [] {
          assert [c] + rest == [c];
        }
      case AcceptError =>
        AcceptLoopAdmits(s, listening, finished, attempts[1..]);
      case _ =>
    }
  }

  /** Capacity: a run of the accept loop that starts within the limit never
      takes the registry past `MaxConnections`, and the sockets it registers
      are the first of those that arrived, in arrival order. */
  lemma AcceptLoopWithinCapacity(s: Intake, listening: bool, finished: set<ConnId>, attempts: seq<AcceptResult>)
    requires |s.clients| <= MaxConnections
    ensures var t := AcceptLoop(s, listening, finished, attempts);
      |t.clients| <= MaxConnections && s.clients <= t.clients
      && t.clients[|s.clients|..] <= IncomingConns(attempts)
  {
    AcceptLoopAdmits(s, listening, finished, attempts);
    AdmissionsBounded(|s.clients|, attempts);
    var t := AcceptLoop(s, listening, finished, attempts);
    var a := if listening then Admissions(|s.clients|, attempts) else [];
    assert t.clients[|s.clients|..] == a;
  }
}
