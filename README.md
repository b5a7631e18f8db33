# mesh-ai-node: the two node controllers

mesh-ai-node is a libp2p node that carries one text prompt from a client to a
server, possibly through a relay peer, and carries the server's text-generation
reply back. The secure channel, multiplexing, relay, identify and ping protocols
are all libp2p's. What the repository itself implements is two event-driven
controllers and some pure address handling. This project models them:

- **The relay-side node** (`src/main.rs`, module `RelayNode`). At startup it dials
  the configured relay, or listens directly on `/ip4/0.0.0.0/tcp/0` when no relay is
  configured. When a connection to the relay is established, it starts listening on
  the relay's circuit address. The relay's peer id is the *first* `/p2p` component of
  the relay address, and the circuit address is the relay address with
  `/p2p-circuit` appended. The `listening_on_relay` flag records a successful
  listen. Every inbound prompt is passed to the text-generation backend, and exactly
  one response is sent on the request's channel.
- **The client** (`src/examples/ping.rs`, module `PingClient`). The target peer id is
  the *last* `/p2p` component of the target address; an address without one is
  rejected before any dial. The client sends the fixed prompt `whats 1 + 1` once, on
  the first connection to the target peer. The `prompt_sent` flag enforces this. The
  client stops with success on the first response, and with failure on an outgoing
  connection error.

Supporting modules:

- `Multiaddr`: multiaddresses as sequences of typed components. It defines the
  `filter_map` of peer ids, `find_map` (first peer), `filter_map(..).last()` (last
  peer) and `.with(P2pCircuit)`.
- `Messages`: the `PromptRequest`/`PromptResponse` records carried by the
  `/mesh-ai/1.0.0` protocol, and the mapping of a backend result to response text.
- `Swarm`: the swarm events, the immediate answers of `dial`/`listen_on`, and the
  effects a controller requests.
- `Wrappers`: `Option` and `Result`.

Both loops are `loop { match swarm.select_next_some().await { … } }` over local
mutable flags, so they are modelled as methods (`RelayNode.RunNode`,
`PingClient.RunClient`). Each method holds its flag in a local variable and runs a
`while` loop over a finite prefix of the event stream. The loop invariant ties the
flag and the list of requested effects to a specification function (`Run`). `Run`
folds a one-turn function (`Step`) over the events. The lemmas prove, about `Run`,
what the source promises across many turns.

Two behaviours of the source are kept as written. The client accepts the first
response from any peer as success: the `Response` arm does not check the peer
(`src/examples/ping.rs:93-101`). The relay-side node ignores outgoing connection
errors, including a failed dial of the relay, and keeps waiting (`src/main.rs:139`).
The backend's error reaches the client behind the prefix `Error calling Ollama: `.
For an HTTP failure that error is itself `Ollama returned error: <status>`
(`src/main.rs:157`), so the text is not just the status. The model keeps the
backend's error text opaque.

What the environment decides is an input to the model:
- which events arrive;
- what `dial`/`listen_on` answer (`Answer`);
- what the backend replies (`Result<string, string>`, one per turn in `RelayNode.Tick`).

## Model

| member | source | states |
|---|---|---|
| Multiaddr.PeerIds | src/examples/ping.rs:59-67 | the `filter_map` of P2p components: no longer than the address, and empty exactly when the address names no peer |
| Multiaddr.PeerIdsMembers | src/examples/ping.rs:59-67 | an id is in the `filter_map` sequence exactly when the address has a P2p component naming it |
| Multiaddr.FirstPeer | src/main.rs:85-91 | the relay peer id is the peer of the first P2p component (no P2p component comes before it), or none exactly when the address has no P2p component |
| Multiaddr.LastPeer | src/examples/ping.rs:59-68 | the target id is the peer of the last P2p component (no P2p component comes after it), or none exactly when the address has no P2p component |
| Multiaddr.LastIdIsLastPeer | src/examples/ping.rs:59-68 | the last element of the `filter_map` sequence is the peer of the address's last P2p component |
| Multiaddr.FirstPeerIsFirstId | src/main.rs:85-91 | `find_map` over the components equals the head of the `filter_map` sequence |
| Multiaddr.PeerIdsAppend | src/examples/ping.rs:59-67 | the peer ids of a concatenated address are the peer ids of the first part followed by those of the second |
| Multiaddr.CircuitCountAppend | src/main.rs:95 | the P2pCircuit count of a concatenated address is the sum of the counts of its parts |
| Multiaddr.WithCircuit | src/main.rs:95 | the circuit listen address is the relay address unchanged as a prefix, followed by one P2pCircuit at the end |
| Multiaddr.WithCircuitKeepsPeers | src/main.rs:95 | appending P2pCircuit keeps the address's peer ids, first peer and last peer, and adds exactly one P2pCircuit component |
| Multiaddr.RelayedAddressPeers | src/examples/ping.rs:58-69 | in a relayed dial address `<relay>/p2p-circuit/p2p/<target>` the last peer id is the target, and the first is still the relay's |
| Messages.ResponseText | src/main.rs:121-124 | the response text is the backend's reply on success; on failure it is `Error calling Ollama: ` followed by the error text |
| Messages.ErrorDetail | src/main.rs:121-124 | a reference inverse of the error prefixing, not code of the source (nothing there reads the text back): a text it accepts is the error prefix followed by the detail it returns; used only by ErrorResponseRoundTrip |
| Messages.ErrorResponseRoundTrip | src/main.rs:121-124 | the backend error can be read back out of the error response text unchanged |
| RelayNode.Step | src/main.rs:78-139 | one turn of the loop. A relay listen on the circuit address is requested exactly on a connection from the first-P2p relay peer while the latch is down. The latch is set only when that listen is accepted, so a refused listen leaves it down, and it never reverts. An inbound request asks the backend for its prompt and sends exactly one response on its channel with ResponseText. Connections from other peers, connections from the relay once the latch is up, and every other event, change nothing and request nothing |
| RelayNode.StartupAction | src/main.rs:68-73 | the request before the loop is a dial of the relay address exactly when one is configured, and otherwise a direct listen on `/ip4/0.0.0.0/tcp/0`, which is not a circuit address |
| RelayNode.Run | src/main.rs:77-141 | the loop folded over a finite sequence of turns: a latch that starts up stays up, and each turn requests at most two effects; the lemmas below state what the run as a whole does |
| RelayNode.RunAppend | src/main.rs:77-141 | a run over two consecutive stretches of turns is the run over the first, continued from its latch over the second |
| RelayNode.NoListenAfterLatch | src/main.rs:83-99 | in the program's run from the initial flag, once a prefix has set `listening_on_relay` the flag stays set, and the rest of the run is a run from the set flag, which requests no relay listen |
| RelayNode.ResponsesAppend | src/main.rs:126-131 | the responses of concatenated effect lists are those of the first list followed by those of the second |
| RelayNode.OwedAnswersAppend | src/main.rs:108-131 | the answers owed to concatenated turns are those owed to the first turns followed by those owed to the second |
| RelayNode.LatchIsFinal | src/main.rs:83-99 | once `listening_on_relay` is true it stays true over any further events, and no relay listen is requested again |
| RelayNode.ListensAreOnCircuit | src/main.rs:93-96 | every listen the loop requests is on the circuit address of the configured relay |
| RelayNode.NoRelayPeerNoListen | src/main.rs:68-93 | with no relay configured, or a relay address without a P2p component, the loop never requests a listen and never changes the latch |
| RelayNode.ListeningIffAcceptedListen | src/main.rs:82-100 | the node ends up listening on the relay if and only if some connection from the relay peer met an accepted `listen_on` |
| RelayNode.OneResponsePerRequest | src/main.rs:108-131 | the responses sent over any run are exactly one per inbound request, in arrival order, on that request's channel, with the backend's reply or its error text; none is skipped |
| RelayNode.RunNode | src/main.rs:65-141 | the startup request is a dial of the relay, or a direct listen on `/ip4/0.0.0.0/tcp/0` when no relay is configured. A refused startup ends the process with that error. Otherwise the loop's latch and effects are exactly those of `Run` and the process does not end |
| PingClient.TargetPeer | src/examples/ping.rs:59-69 | the target is the peer of the last P2p component; an address with no P2p component fails with `No peer ID in target address` |
| PingClient.Step | src/examples/ping.rs:79-111 | one turn of the loop. The fixed prompt is sent exactly on a connection to the target while `prompt_sent` is false, and the flag is set exactly then and never reverts. A response ends the loop with success, an outgoing connection error ends it with that error, and nothing else ends it |
| PingClient.Run | src/examples/ping.rs:78-112 | the loop folded over a finite sequence of events, taking no event after it has returned: a set `prompt_sent` stays set, and at most one request per event; the lemmas below state what the run as a whole does |
| PingClient.FirstExitSnoc | src/examples/ping.rs:93-109 | appending an event changes the first terminal outcome only if none had occurred yet |
| PingClient.ExitIsFinal | src/examples/ping.rs:101-108 | once the loop has returned, later events change nothing |
| PingClient.ExitIsFirstTerminal | src/examples/ping.rs:93-109 | the run ends with the outcome of the first response or outgoing connection error: success for a response, that error for a connection error |
| PingClient.RunningIffQuiet | src/examples/ping.rs:78-112 | the loop is still running exactly when no response and no outgoing connection error has arrived |
| PingClient.AtMostOnePrompt | src/examples/ping.rs:76-91 | over a whole run, the only request sent is at most one `PromptRequest{prompt: "whats 1 + 1"}` to the target peer, and `prompt_sent` holds exactly when it was sent |
| PingClient.PromptSentIsFinal | src/examples/ping.rs:83-90 | after the first send the flag stays true and later connection events send nothing |
| PingClient.PromptSentIffTargetConnected | src/examples/ping.rs:80-91 | the prompt is sent if and only if a connection to the target is established before the loop ends; connections to other peers, such as the relay, send nothing |
| PingClient.RunClient | src/examples/ping.rs:59-112 | an address without a peer id is rejected before any dial is requested. A refused dial ends the process with that error. Otherwise the dial is followed by exactly the requests and the exit of `Run` on the target peer |

## Left out

- Swarm construction and libp2p's protocols (`src/main.rs:40-61`, `src/examples/ping.rs:28-49`) are not modelled. These are the noise handshake, yamux, TCP, the relay client, identify, ping and request-response framing, all of them library code. The model sees only the events they yield and the immediate answers of `dial` and `listen_on`.
- `call_ollama` (`src/main.rs:144-165`) is not modelled: it is an HTTP POST to the backend plus JSON parsing. Its result enters each turn as a `Result<string, string>`, whose error is the text `format!` prints for the error. The prompt passed to it is recorded as a `Generate` effect.
- The CBOR encoding of the two records, which comes from serde derives in `src/lib.rs:1-11`, is not modelled. Only the record shapes are.
- Multiaddress parsing and display are not modelled (`.parse()` at `src/main.rs:72`, `src/examples/ping.rs:56`). Addresses are component sequences, so the parse of the literal `/ip4/0.0.0.0/tcp/0` is the constant `RelayNode.DirectListenAddr`.
- Command-line and argument handling is not modelled: clap in `src/main.rs:15-22,38`, and `std::env::args` with its "Expected multiaddr as argument" error in `src/examples/ping.rs:53-56`. The relay address and the target address are parameters.
- tokio scheduling is not modelled. The awaited backend call inside the loop is one atomic turn, as in the source, where the loop awaits it before taking the next event.
- Logging (`println!`, `eprintln!`, tracing setup) and the idle-connection timeout setting are not modelled.
- The loops never end on their own (`RelayNode.RunNode` has no exit from its loop). The model runs them over a finite prefix of the event stream. `exit == None` means "still running".
- The result of `send_response` is discarded by the source (`let _ =`, `src/main.rs:126`), so in the model sending a response is an effect with no answer.
- Details of events the controllers ignore are not modelled. Ping, relay and identify events carry only what the model needs, and everything else falls into `OtherEvent`. The client also ignores `OutboundFailure`, as the source's `_` arm does, so a failed request leaves it waiting.
