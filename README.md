# TCPChatV2 relay server: a verified model of its bookkeeping

`TCPServer` (server/TCPChatV2/server.cs) is a TCP chat relay. It accepts up to
100 clients into a shared registry (`ChatServer.clients`,
server/TCPChatV2/Program.cs:13). It runs one handler per client that reads
chunks and broadcasts every non-blank chunk to all other connected members of
the registry. It drops a peer whose send fails with a socket error. On `Stop`
it cancels everything, closes the listener and removes every remaining client.

This project models that bookkeeping in Dafny and proves what it does:
- who is registered;
- which sockets are shut down and closed;
- what is written to whom;
- which sockets are reported connected (the "Client connected" line) and
  which removals `RemoveClient` marks as real ones (`removed == true`), in
  order;
- the list of handler tasks.

The model has these modules:

- `Text`: `string.IsNullOrWhiteSpace` with .NET's `char.IsWhiteSpace`.
- `Sequences`: `List<T>.Remove` (`RemoveFirst`) and `RemoveAll` by a set
  (`Without`), with their properties.
- `Relay`: the decisions as functions:
  - the recipients of a broadcast;
  - the writes and the failures of a fan-out;
  - the messages a receive loop relays;
  - the sockets the accept loop admits;
  - the socket states after teardown.
- `Bookkeeping`: the state the handlers change (registry, sockets, wire,
  removal log), taken as a value `Ledger`. Each handler step is a function on
  it: `Removal`, `SendStep`, `FanOut`, `Broadcasting`, `ReceiveStep`,
  `Receiving` and `Removals`. The lemmas say what those steps amount to.
- `Admission`: the state the accept loop changes, as a value `Intake`. One
  pass is `AcceptPass` and a run is `AcceptLoop`. `AcceptLoopAdmits` ties a
  run to `Relay.Admissions`.
- `Server`: the class `TCPServer`. Its fields are the registry, the socket
  states, the task list and the flags. Each of its methods is proved to
  perform exactly the matching value-level step (`ensures State() ==
  Removal(old(State()), c)` and so on) and to keep the invariant `Valid()`.

`Valid()` (`Registered`) says:
- the registry holds distinct known sockets that are not closed, at most 100
  of them;
- conversely, every known socket that is not closed is registered, so the
  registry is exactly the accepted sockets not yet torn down;
- every socket reported connected is either still registered or has had
  exactly one real removal (one `RemoveClient` with `removed == true`);
- every socket with a real removal is closed.

In the rest of this file and in the model, "reported removed" means a real
removal in that sense, recorded in `removedLog`. It is not a printed line
(see "## Left out").

Sockets are identities (`ConnId`), and each has an observable state: connected,
shut down, closed. .NET reports a socket as no longer connected after an
operation on it fails with a socket error. The model therefore marks a peer
`Broken` after:
- a failed send;
- a receive that ends in a reset, an abort or another socket error.

Because of that, `RemoveClient` skips `Shutdown` for such a peer and only
closes it.

The inputs are parameters, not I/O:
- a handler's reads are a finite `seq<ReadResult>`;
- the outcomes of the sends of one broadcast are a map from peers to
  `SendResult` (every other send succeeds);
- a receive session takes one such map per read, so the same peer can fail
  on one relayed message after succeeding on an earlier one;
- the results of `Accept` are a finite `seq<AcceptResult>`.

## Model

| member | source | states |
|---|---|---|
| Text.IsNullOrWhiteSpace | server/TCPChatV2/server.cs:145-146 | .NET's blank test: a chunk or message is blank exactly when every character is `char.IsWhiteSpace` (the Unicode separators, U+0009 to U+000D, U+0085, U+00A0); no contract of its own, it is the condition in `RelayedNotBlank`, `ReceiveStep` and `BroadcastReaches` |
| Sequences.RemoveFirst | server/TCPChatV2/server.cs:230 | `List.Remove`: a present element shortens the list by one; an absent one leaves it unchanged; nothing new appears |
| Sequences.RemoveFirstCount | server/TCPChatV2/server.cs:230 | `List.Remove` takes away exactly one occurrence of a present element, as a multiset |
| Sequences.RemoveFirstAt | server/TCPChatV2/server.cs:230 | `List.Remove` deletes the first occurrence and keeps everything before and after it in order |
| Sequences.RemoveFirstKeepsOthers | server/TCPChatV2/server.cs:230 | every other element stays in the list exactly when it was there |
| Sequences.RemoveFirstTwice | server/TCPChatV2/server.cs:230 | on a list without duplicates, a removed element is gone, and removing it again changes nothing |
| Sequences.Without | server/TCPChatV2/server.cs:264 | `RemoveAll`: an element stays exactly when it was there and is not excluded; the list does not grow |
| Sequences.WithoutIsSubsequence | server/TCPChatV2/server.cs:264 | `RemoveAll` keeps the surviving elements in their original order |
| Sequences.WithoutCounts | server/TCPChatV2/server.cs:264 | `RemoveAll` keeps every occurrence of a surviving element and none of an excluded one |
| Sequences.WithoutIdempotent | server/TCPChatV2/server.cs:264 | cleaning up the task list twice is cleaning it up once |
| Sequences.WithoutNoDup | server/TCPChatV2/server.cs:264 | `RemoveAll` keeps a list free of duplicates |
| Relay.Torn | server/TCPChatV2/server.cs:232-245 | the teardown of one socket in `RemoveClient`: `Shutdown` only if it is still connected, then `Close`; no contract of its own, its effect is stated by `RemovalIsFinal` and `SweepEmpties` |
| Relay.Recipients | server/TCPChatV2/server.cs:195-203 | the peers the foreach over the snapshot picks, in snapshot order; no contract of its own, what it picks is stated by `RecipientsExactly`, `RecipientsInOrder` and `RecipientsDistinct` |
| Relay.RecipientsExactly | server/TCPChatV2/server.cs:197-203 | a peer gets a broadcast exactly when it is in the snapshot, is not the sender and is connected; the sender never does |
| Relay.RecipientsInOrder | server/TCPChatV2/server.cs:188-203 | recipients are taken in registry-snapshot order |
| Relay.RecipientsDistinct | server/TCPChatV2/server.cs:188-203 | a registry without duplicates yields each recipient once |
| Relay.SelectRecipients | server/TCPChatV2/server.cs:195-203 | the loop over the snapshot selects exactly `Recipients`, and a peer is selected iff it is connected, in the snapshot and not the sender |
| Relay.DeliveriesExactly | server/TCPChatV2/server.cs:197-212 | every write of a fan-out goes to a chosen peer, and every chosen peer whose send succeeds gets one |
| Relay.FailuresExactly | server/TCPChatV2/server.cs:208-218 | the peers dropped by a fan-out are exactly the chosen peers whose send raised a socket error |
| Relay.Relayed | server/TCPChatV2/server.cs:133-150 | the chunks a receive loop broadcasts, read by read; no contract of its own, its meaning is stated by `RelayedNotBlank`, `RelayedStopsAt` and `RelayedAppend`, and `ReceivingSocket` ties it to the session |
| Relay.RelayedNotBlank | server/TCPChatV2/server.cs:133-150 | a relayed message is never blank, and there are no more of them than reads |
| Relay.RelayedStopsAt | server/TCPChatV2/server.cs:133-163 | nothing after a zero-byte read, a reset, an abort or an exception is relayed, and a socket fault is only reported for the read that ended the loop |
| Relay.RelayedAppend | server/TCPChatV2/server.cs:133-150 | reads that keep the loop going relay their messages ahead of whatever follows |
| Relay.Admissions | server/TCPChatV2/server.cs:49-60 | the sockets the accept loop registers, arrival by arrival, below `maxConnections`; no contract of its own, its meaning is stated by `AdmissionsBounded` and `AdmissionsFill`, and `AcceptLoopAdmits` ties it to the loop |
| Relay.AdmissionsBounded | server/TCPChatV2/server.cs:51-60 | admission never takes the registry past `maxConnections` (100), and admits a prefix of the arriving sockets, in order |
| Relay.AdmissionsFill | server/TCPChatV2/server.cs:51-60 | with sockets arriving, the accept loop admits all of them while there is room, and exactly fills the registry otherwise |
| Relay.Admit | server/TCPChatV2/server.cs:57-60 | after admissions, the admitted sockets are freshly accepted and every other socket keeps its state |
| Bookkeeping.Removal | server/TCPChatV2/server.cs:225-258 | one `RemoveClient`: the first occurrence leaves the registry, the socket is torn down, and the removal is reported only when there was one; no contract of its own, its meaning is stated by `RemovalTwice`, `RemovalIsFinal` and `RemovalKeepsRegistered` |
| Bookkeeping.SendStep | server/TCPChatV2/server.cs:208-223 | one `SendMessageAsync`: a write on success, break and `RemoveClient` on a socket error, nothing on another error; no contract of its own, `SendAvoids` and `FanOutClosedForm` state its effect |
| Bookkeeping.FanOut | server/TCPChatV2/server.cs:197-205 | the sends of a broadcast one after another, in snapshot order; keeps the set of known sockets; the rest of its meaning is stated by `FanOutClosedForm` and `FanOutAvoids` |
| Bookkeeping.Broadcasting | server/TCPChatV2/server.cs:182-206 | `BroadcastMessageAsync`: nothing for a blank message, otherwise a fan-out to `Recipients` of the registry; keeps the set of known sockets; the rest of its meaning is stated by `BroadcastReaches`, `BroadcastRemoves` and `BroadcastAvoidsSender` |
| Bookkeeping.ReceiveStep | server/TCPChatV2/server.cs:133-150 | one read goes on exactly when it returned bytes; it relays exactly a non-blank chunk; a blank chunk changes nothing; a read that does not return a chunk writes nothing, removes nothing and changes no socket but its own, which only a reset, an abort or another socket error leaves not connected |
| Bookkeeping.Receiving | server/TCPChatV2/server.cs:127-164 | `ReceiveMessageAsync` without cancellation, read by read while the socket is connected, with the send outcomes of each read's broadcast; no contract of its own, its meaning is stated by `ReceivingSocket`, `ReceivingUntouched` and `ReceivingRelays` |
| Bookkeeping.Removals | server/TCPChatV2/server.cs:276-282 | the removals of `Stop`'s sweep, one per member of the snapshot, in order; keeps the set of known sockets; the rest of its meaning is stated by `RemovalsOfPrefix` and `SweepEmpties` |
| Bookkeeping.RemovalTwice | server/TCPChatV2/server.cs:225-258 | removing a socket a second time (the handler's `finally` after `Stop`, or after a failed send) changes nothing and reports nothing |
| Bookkeeping.RemovalIsFinal | server/TCPChatV2/server.cs:225-258 | after `RemoveClient` the socket is unregistered, closed and not connected, and the registry stays free of duplicates |
| Bookkeeping.FanOutClosedForm | server/TCPChatV2/server.cs:197-223 | a fan-out writes exactly the successful sends, removes exactly the failed peers, tears down exactly those and reports each once |
| Bookkeeping.BroadcastReaches | server/TCPChatV2/server.cs:182-206 | a broadcast only appends to the wire; every message it writes is the broadcast text and goes to a peer other than the sender; a peer gets it iff it is registered, connected, not the sender and its send succeeds; a blank message writes nothing |
| Bookkeeping.BroadcastRemoves | server/TCPChatV2/server.cs:182-223 | a broadcast removes exactly the peers whose send failed with a socket error, reports each once, tears them down, and keeps the rest of the registry in order and without duplicates |
| Bookkeeping.SendAvoids | server/TCPChatV2/server.cs:208-223 | a send to one peer leaves every other peer alone: no write to it, no removal, its socket untouched |
| Bookkeeping.FanOutAvoids | server/TCPChatV2/server.cs:197-205 | a fan-out that does not include a peer leaves that peer alone |
| Bookkeeping.BroadcastAvoidsSender | server/TCPChatV2/server.cs:199 | a broadcast never writes to the sender, never removes it and does not touch its socket |
| Bookkeeping.UntouchedTrans | server/TCPChatV2/server.cs:197-205 | leaving a peer alone step after step leaves it alone overall |
| Bookkeeping.ReceiveStepAvoids | server/TCPChatV2/server.cs:135-180 | one read leaves its own socket connected unless it failed with a socket error, writes only what it relays, never to itself |
| Bookkeeping.ReceivingSocket | server/TCPChatV2/server.cs:127-180 | a receive session relays exactly `Relayed(stream)` and leaves its socket not connected exactly when it ended on a socket fault |
| Bookkeeping.ReceivingUntouched | server/TCPChatV2/server.cs:127-164 | a receive session writes only what it relays, never to its own socket, never removes its own socket, and only removes others |
| Bookkeeping.ReceivingRelays | server/TCPChatV2/server.cs:127-180 | everything a receive session does, together |
| Bookkeeping.HandlerLeavesNoTrace | server/TCPChatV2/server.cs:111-125 | whatever its session did, a handler ends with its socket unregistered and closed, reported removed in that session exactly when it was registered at the start |
| Bookkeeping.RemovalsOfPrefix | server/TCPChatV2/server.cs:278-281 | removing the first `n` members of the snapshot in order leaves the rest registered, tears those `n` down and reports them in order |
| Bookkeeping.SweepEmpties | server/TCPChatV2/server.cs:276-282 | `Stop`'s sweep empties the registry, tears every member down, reports each once in registry order and writes nothing |
| Admission.AcceptPass | server/TCPChatV2/server.cs:49-87 | one pass waits exactly at capacity; goes round again exactly below capacity, with the listener open, on a new socket or a non-fatal error; anything else leaves; only a registration changes state, and it adds only the new socket |
| Admission.AcceptLoop | server/TCPChatV2/server.cs:45-88 | the accept loop run pass by pass over the accept results until a pass does not go round again; no contract of its own, its meaning is stated by `AcceptLoopAdmits` and `AcceptLoopWithinCapacity` |
| Admission.AcceptLoopAdmits | server/TCPChatV2/server.cs:47-88 | a run of the accept loop registers and reports exactly `Admissions`, in order, marks them accepted, and appends their handler tasks with the completed tasks swept out |
| Admission.AcceptLoopWithinCapacity | server/TCPChatV2/server.cs:51-60 | a run never exceeds 100 registered clients, keeps the earlier ones first, and registers the earliest arrivals in order |
| Server.RemovalKeepsLive | server/TCPChatV2/server.cs:228-243 | after a removal the registry still holds only distinct known sockets that are not closed |
| Server.RemovalKeepsReported | server/TCPChatV2/server.cs:243-257 | reporting the removal only when the registry changed keeps every socket reported removed at most once, and only once closed |
| Server.RemovalKeepsAccount | server/TCPChatV2/server.cs:228-257 | a socket moves from the registry to the removal reports, never lost or counted twice |
| Server.RemovalKeepsNoStray | server/TCPChatV2/server.cs:228-243 | a socket leaves the registry only as it is closed, so no known socket outside the registry is left unclosed |
| Server.RemovalKeepsRegistered | server/TCPChatV2/server.cs:225-258 | `RemoveClient` keeps the registry invariant |
| Server.BreakKeepsRegistered | server/TCPChatV2/server.cs:214-217 | a peer that stops being connected keeps the registry invariant |
| Server.AdmissionKeepsRegistered | server/TCPChatV2/server.cs:57-62 | registering a new socket below capacity keeps the registry invariant |
| Server.TCPServer.constructor | server/TCPChatV2/server.cs:11-19 | a new server has an empty registry, no tasks, an open listener, and satisfies the invariant |
| Server.TCPServer.RemoveClient | server/TCPChatV2/server.cs:225-258 | reports whether the socket was registered; performs exactly `Removal`; keeps the invariant |
| Server.TCPServer.SendMessage | server/TCPChatV2/server.cs:208-223 | performs exactly `SendStep` for the given outcome; keeps the invariant |
| Server.TCPServer.SendNext | server/TCPChatV2/server.cs:197-202 | one more send of a broadcast performs `SendStep` on the next recipient, so the fan-out so far grows by that recipient; keeps the invariant and the set of known sockets |
| Server.TCPServer.Broadcast | server/TCPChatV2/server.cs:182-206 | chooses exactly `Recipients` of the starting registry (none for a blank message) and performs exactly `Broadcasting`; keeps the invariant |
| Server.TCPServer.ReceiveOnce | server/TCPChatV2/server.cs:135-150 | one read performs exactly `ReceiveStep`; keeps the invariant |
| Server.TCPServer.ReceiveMessages | server/TCPChatV2/server.cs:127-164 | without cancellation, performs exactly `Receiving` and returns the relayed messages; with cancellation, does nothing |
| Server.TCPServer.HandleClient | server/TCPChatV2/server.cs:111-125 | the receive session followed by `Removal`; the handler task is complete afterwards and its socket is unregistered and closed |
| Server.TCPServer.CleanupCompletedTasks | server/TCPChatV2/server.cs:260-266 | the task list loses exactly the completed tasks, in order |
| Server.TCPServer.AcceptOnce | server/TCPChatV2/server.cs:49-87 | one pass performs exactly `AcceptPass`; keeps the invariant |
| Server.TCPServer.AcceptClients | server/TCPChatV2/server.cs:45-88 | without cancellation, performs exactly `AcceptLoop`; with cancellation, does nothing; keeps the invariant |
| Server.TCPServer.Stop | server/TCPChatV2/server.cs:268-283 | cancels, closes the listener, removes every registered client in registry order (empty registry, all torn down, each reported once), after which every known socket is closed; after `Dispose` fails before changing anything |
| Server.TCPServer.Dispose | server/TCPChatV2/server.cs:285-293 | the first call stops the server, leaving every known socket closed, and marks it disposed; later calls change nothing |

## Left out

- Socket I/O, UTF-8 decoding and the 4096-byte receive buffer: a read is
  given as the text it decodes to, and a send only by its outcome.
- Console output: only the "Client connected" line is modelled, as a log of
  sockets (`connectedLog`). Other messages carry no state.
- The "Client removed" line (server/TCPChatV2/server.cs:254) is not
  modelled as output. `RemoveClient` builds it after `Close`
  (server/TCPChatV2/server.cs:243), and .NET's `Socket.RemoteEndPoint`
  throws `ObjectDisposedException` on a closed socket. The catch at
  server/TCPChatV2/server.cs:256 swallows that, so the line is never printed.
  `removedLog` records the `if (removed)` decision at
  server/TCPChatV2/server.cs:250 instead.
- `RunServerAsync`: socket creation, `Bind` and `Listen`, and the rest of
  Program.cs. The constructor stands for a bound, listening server.
- `AcceptAsync`'s `WouldBlock` retry loop happens inside one accept result.
- Concurrency: handlers, sends and the accept loop run one after another.
  The locks (`lockObject`, `ChatServer.clients`) are not modelled. Neither is
  the fact that `Add` and `Remove` on the registry hold different locks.
- Timing: the 100 ms and 1000 ms delays, and `Task.WaitAll` with its
  5-second timeout in `Stop`.
- Server.TCPServer.AcceptClients: at capacity the source waits and polls
  until a handler frees a place. No handler runs during a sequential run, so
  the model ends the run there (`Paused`).
- Server.TCPServer.AcceptClients: the results of `Accept` are a finite
  sequence, and the run also ends when they run out.
- Server.TCPServer.ReceiveMessages: reads are a finite sequence, and running
  out of them ends the loop like a zero-byte read.
- Server.TCPServer.Broadcast: the sends of one broadcast run in turn, in
  snapshot order, instead of concurrently under `Task.WhenAll`.
- Server.TCPServer.Stop: `Cancel` on a disposed token source throws
  `ObjectDisposedException`. The model returns `true` instead of throwing.
- Server.TCPServer.Dispose: disposing the token source is the flag `disposed`.
  Closing the listener is the flag `listenerOpen`.
- The registry is a field of the server, not a static shared by every
  instance: one server is modelled.
- Handler tasks are named by their socket. A task's completion is the set
  `finished`, which `HandleClient` extends.
