/**
 * The relay-side node controller: it dials the configured relay (or listens
 * directly when none is configured), starts listening on the relay circuit
 * address once connected to the relay, and answers every inbound prompt
 * with the backend's reply.
 */
module RelayNode {
  import opened Wrappers
  import opened Multiaddr
  import opened Messages
  import opened Swarm

  /**
   * One turn of the event loop: the event the swarm yields, the answer
   * `listen_on` gives if the controller calls it in this turn, and the
   * backend's reply if the controller calls the backend in this turn.
   */
  datatype Tick = Tick(event: SwarmEvent, listen: Answer, reply: Result<string, string>)

  /** The controller's flag after some turns, and the effects requested in them. */
  datatype Turn = Turn(listeningOnRelay: bool, actions: seq<Action>)

  /** `/ip4/0.0.0.0/tcp/0`: where the node listens when no relay is configured. */
  const DirectListenAddr: Multiaddr := [Ip4(0, 0, 0, 0), Tcp(0)]

  /** The effect requested before the loop starts. */
  function StartupAction(relayAddr: Option<Multiaddr>): (a: Action)
    ensures a.Dial? <==> relayAddr.Some?
    ensures a.Dial? ==> a.addr == relayAddr.value
    ensures a.ListenOn? <==> relayAddr.None?
    ensures a.ListenOn? ==> a.addr == DirectListenAddr && CircuitCount(a.addr) == 0
  {
    if relayAddr.Some? then Dial(relayAddr.value) else ListenOn(DirectListenAddr)
  }

  /** e is a connection to the relay named by the configured relay address. */
  predicate FromRelay(relayAddr: Option<Multiaddr>, e: SwarmEvent)
  {
    relayAddr.Some? && e.ConnectionEstablished? && FirstPeer(relayAddr.value) == Some(e.peer)
  }

  predicate NoListen(actions: seq<Action>)
  {
    forall i :: 0 <= i < |actions| ==> !actions[i].ListenOn?
  }

  /** The answer sent on an inbound request's channel. */
  function OwedAnswer(t: Tick): Action
    requires t.event.InboundRequest?
  {
    SendResponse(t.event.channel, PromptResponse(ResponseText(t.reply)))
  }

  /** One iteration of the dispatch loop. */
  function Step(relayAddr: Option<Multiaddr>, listening: bool, t: Tick): (r: Turn)
    // the latch never reverts, and is set only by an accepted listen on a relay connection
    ensures listening ==> r.listeningOnRelay
    ensures r.listeningOnRelay && !listening ==> FromRelay(relayAddr, t.event) && t.listen.Accepted?
    // a relay listen is requested exactly on a relay connection while not yet listening,
    // on the circuit address; a refused listen leaves the latch down so a later connection retries
    ensures !listening && FromRelay(relayAddr, t.event) ==>
      r.actions == [ListenOn(WithCircuit(relayAddr.value))] && r.listeningOnRelay == t.listen.Accepted?
    ensures listening || !FromRelay(relayAddr, t.event) ==> NoListen(r.actions)
    ensures t.event.ConnectionEstablished? && (listening || !FromRelay(relayAddr, t.event)) ==> r == Turn(listening, [])
    // every inbound request asks the backend for the prompt and sends exactly one response
    ensures t.event.InboundRequest? ==> r == Turn(listening, [Generate(t.event.request.prompt), OwedAnswer(t)])
    // all other events change nothing and request nothing
    ensures !t.event.ConnectionEstablished? && !t.event.InboundRequest? ==> r == Turn(listening, [])
  {
    match t.event
    case ConnectionEstablished(peer) =>
      if relayAddr.Some? && !listening && FirstPeer(relayAddr.value) == Some(peer) then
        Turn(t.listen.Accepted?, [ListenOn(WithCircuit(relayAddr.value))])
      else
        Turn(listening, [])
    case InboundRequest(_, request, channel) =>
      Turn(listening, [Generate(request.prompt), SendResponse(channel, PromptResponse(ResponseText(t.reply)))])
    case _ =>
      Turn(listening, [])
  }

  /** The loop run over a finite sequence of turns, from the flag value `listening`. */
  function Run(relayAddr: Option<Multiaddr>, listening: bool, ticks: seq<Tick>): (r: Turn)
    ensures listening ==> r.listeningOnRelay
    ensures |r.actions| <= 2 * |ticks|
    decreases |ticks|
  {
    if ticks == [] then Turn(listening, [])
    else
      var prev := Run(relayAddr, listening, ticks[..|ticks| - 1]);
      var last := Step(relayAddr, prev.listeningOnRelay, ticks[|ticks| - 1]);
      Turn(last.listeningOnRelay, prev.actions + last.actions)
  }

  /** The SendResponse actions among actions, in order. */
  function Responses(actions: seq<Action>): seq<Action>
  {
    if actions == [] then []
    else (if actions[0].SendResponse? then [actions[0]] else []) + Responses(actions[1..])
  }

  /** For each inbound request among ticks, in order, the answer it is owed. */
  function OwedAnswers(ticks: seq<Tick>): seq<Action>
  {
    if ticks == [] then []
    else (if ticks[0].event.InboundRequest? then [OwedAnswer(ticks[0])] else []) + OwedAnswers(ticks[1..])
  }

  lemma {:induction false} ResponsesAppend(a: seq<Action>, b: seq<Action>)
    ensures Responses(a + b) == Responses(a) + Responses(b)
  {
    if a == [] {
      assert a + b == b;
    } else {
      var head := if a[0].SendResponse? then [a[0]] else [];
      assert (a + b)[0] == a[0];
      assert (a + b)[1..] == a[1..] + b;
      assert Responses(a + b) == head + Responses(a[1..] + b);
      ResponsesAppend(a[1..], b);
      assert Responses(a) == head + Responses(a[1..]);
    }
  }

  lemma {:induction false} OwedAnswersAppend(a: seq<Tick>, b: seq<Tick>)
    ensures OwedAnswers(a + b) == OwedAnswers(a) + OwedAnswers(b)
  {
    if a == [] {
      assert a + b == b;
    } else {
      var head := if a[0].event.InboundRequest? then [OwedAnswer(a[0])] else [];
      assert (a + b)[0] == a[0];
      assert (a + b)[1..] == a[1..] + b;
      assert OwedAnswers(a + b) == head + OwedAnswers(a[1..] + b);
      OwedAnswersAppend(a[1..], b);
      assert OwedAnswers(a) == head + OwedAnswers(a[1..]);
    }
  }

  lemma NoListenAppend(a: seq<Action>, b: seq<Action>)
    requires NoListen(a) && NoListen(b)
    ensures NoListen(a + b)
  {
  }

  /** Once `listening_on_relay` is true it stays true, and no relay listen is ever requested again. */
  lemma {:induction false} LatchIsFinal(relayAddr: Option<Multiaddr>, ticks: seq<Tick>)
    ensures Run(relayAddr, true, ticks).listeningOnRelay
    ensures NoListen(Run(relayAddr, true, ticks).actions)
    decreases |ticks|
  {
    if ticks != [] {
      LatchIsFinal(relayAddr, ticks[..|ticks| - 1]);
      var prev := Run(relayAddr, true, ticks[..|ticks| - 1]);
      NoListenAppend(prev.actions, Step(relayAddr, prev.listeningOnRelay, ticks[|ticks| - 1]).actions);
    }
  }

  /** A run over a + b is the run over a, continued from its flag over b. */
  lemma {:induction false} RunAppend(relayAddr: Option<Multiaddr>, listening: bool, a: seq<Tick>, b: seq<Tick>)
    ensures Run(relayAddr, listening, a + b) ==
      var mid := Run(relayAddr, listening, a);
      var tail := Run(relayAddr, mid.listeningOnRelay, b);
      Turn(tail.listeningOnRelay, mid.actions + tail.actions)
    decreases |b|
  {
    if b == [] {
      assert a + b == a;
    } else {
      var init := b[..|b| - 1];
      assert (a + b)[..|a + b| - 1] == a + init;
      assert (a + b)[|a + b| - 1] == b[|b| - 1];
      RunAppend(relayAddr, listening, a, init);
    }
  }

  /**
   * In the program's own run, which starts with the flag down: once some prefix has set
   * `listening_on_relay`, everything after it is a run from the set flag, so the flag stays
   * set and no further relay listen is requested.
   */
  lemma NoListenAfterLatch(relayAddr: Option<Multiaddr>, a: seq<Tick>, b: seq<Tick>)
    requires Run(relayAddr, false, a).listeningOnRelay
    ensures Run(relayAddr, false, a + b).listeningOnRelay
    ensures Run(relayAddr, false, a + b).actions == Run(relayAddr, false, a).actions + Run(relayAddr, true, b).actions
    ensures NoListen(Run(relayAddr, true, b).actions)
  {
    RunAppend(relayAddr, false, a, b);
    LatchIsFinal(relayAddr, b);
  }

  /** Every listen the controller requests is on the circuit address of the configured relay. */
  lemma {:induction false} ListensAreOnCircuit(relayAddr: Option<Multiaddr>, listening: bool, ticks: seq<Tick>)
    ensures forall a :: a in Run(relayAddr, listening, ticks).actions && a.ListenOn? ==>
      relayAddr.Some? && a.addr == WithCircuit(relayAddr.value)
    decreases |ticks|
  {
    if ticks != [] {
      ListensAreOnCircuit(relayAddr, listening, ticks[..|ticks| - 1]);
    }
  }

  /**
   * With no relay configured, or a relay address that names no peer, the flag never
   * changes and no listen is requested in the loop.
   */
  lemma {:induction false} NoRelayPeerNoListen(relayAddr: Option<Multiaddr>, listening: bool, ticks: seq<Tick>)
    requires relayAddr.None? || NoPeer(relayAddr.value)
    ensures Run(relayAddr, listening, ticks).listeningOnRelay == listening
    ensures NoListen(Run(relayAddr, listening, ticks).actions)
    decreases |ticks|
  {
    if ticks != [] {
      NoRelayPeerNoListen(relayAddr, listening, ticks[..|ticks| - 1]);
      var prev := Run(relayAddr, listening, ticks[..|ticks| - 1]);
      NoListenAppend(prev.actions, Step(relayAddr, prev.listeningOnRelay, ticks[|ticks| - 1]).actions);
    }
  }

  /**
   * Starting from the initial flag, the node ends up listening on the relay exactly
   * when some connection to the relay met an accepted `listen_on`.
   */
  lemma {:induction false} ListeningIffAcceptedListen(relayAddr: Option<Multiaddr>, ticks: seq<Tick>)
    ensures Run(relayAddr, false, ticks).listeningOnRelay <==>
      exists i :: 0 <= i < |ticks| && FromRelay(relayAddr, ticks[i].event) && ticks[i].listen.Accepted?
    decreases |ticks|
  {
    if ticks != [] {
      var n := |ticks|;
      var pre := ticks[..n - 1];
      ListeningIffAcceptedListen(relayAddr, pre);
      if Run(relayAddr, false, ticks).listeningOnRelay {
        if Run(relayAddr, false, pre).listeningOnRelay {
          var i :| 0 <= i < |pre| && FromRelay(relayAddr, pre[i].event) && pre[i].listen.Accepted?;
          assert ticks[i] == pre[i];
        } else {
          assert FromRelay(relayAddr, ticks[n - 1].event) && ticks[n - 1].listen.Accepted?;
        }
      } else {
        assert !Run(relayAddr, false, pre).listeningOnRelay;
        forall i | 0 <= i < n ensures !(FromRelay(relayAddr, ticks[i].event) && ticks[i].listen.Accepted?) {
          if i < n - 1 { assert ticks[i] == pre[i]; }
        }
      }
    }
  }

  /**
   * Every inbound request gets exactly one response, on its own channel, in arrival
   * order, carrying the backend's reply or its error text; no response is skipped.
   */
  lemma {:induction false} OneResponsePerRequest(relayAddr: Option<Multiaddr>, listening: bool, ticks: seq<Tick>)
    ensures Responses(Run(relayAddr, listening, ticks).actions) == OwedAnswers(ticks)
    decreases |ticks|
  {
    if ticks != [] {
      var n := |ticks|;
      var pre, t := ticks[..n - 1], ticks[n - 1];
      OneResponsePerRequest(relayAddr, listening, pre);
      var prev := Run(relayAddr, listening, pre);
      var last := Step(relayAddr, prev.listeningOnRelay, t);
      ResponsesAppend(prev.actions, last.actions);
      assert ticks == pre + [t];
      OwedAnswersAppend(pre, [t]);
      assert [t][1..] == [];
      if t.event.InboundRequest? {
        assert last.actions == [Generate(t.event.request.prompt)] + [OwedAnswer(t)];
        ResponsesAppend([Generate(t.event.request.prompt)], [OwedAnswer(t)]);
        assert [Generate(t.event.request.prompt)][1..] == [];
        assert [OwedAnswer(t)][1..] == [];
      } else if t.event.ConnectionEstablished? {
        if last.actions != [] {
          assert last.actions[1..] == [];
        }
      }
    }
  }

  /**
   * The whole program: the startup request, then the loop over ticks. `started` is
   * the answer of the startup `dial`/`listen_on`; a refusal ends the process with
   * that error before the loop. The loop itself never ends, so after it `exit` is None.
   */
  method RunNode(relayAddr: Option<Multiaddr>, started: Answer, ticks: seq<Tick>)
    returns (exit: Option<string>, listeningOnRelay: bool, actions: seq<Action>)
    ensures |actions| >= 1 && actions[0] == StartupAction(relayAddr)
    ensures started.Refused? ==> exit == Some(started.reason) && !listeningOnRelay && |actions| == 1
    ensures started.Accepted? ==> exit == None && Run(relayAddr, false, ticks) == Turn(listeningOnRelay, actions[1..])
  {
    listeningOnRelay := false;
    var startup: Action;
    if relayAddr.Some? {
      startup := Dial(relayAddr.value);
    } else {
      startup := ListenOn(DirectListenAddr);
    }
    if started.Refused? {
      return Some(started.reason), listeningOnRelay, [startup];
    }
    exit := None;
    var requested: seq<Action> := [];
    var i := 0;
    while i < |ticks|
      invariant 0 <= i <= |ticks|
      invariant Run(relayAddr, false, ticks[..i]) == Turn(listeningOnRelay, requested)
    {
      var t := ticks[i];
      ghost var before := Turn(listeningOnRelay, requested);
      match t.event {
        case ConnectionEstablished(peer) =>
          if relayAddr.Some? {
            if !listeningOnRelay {
              var relayPeer := FirstPeer(relayAddr.value);
              if relayPeer == Some(peer) {
                var listenAddr := WithCircuit(relayAddr.value);
                requested := requested + [ListenOn(listenAddr)];
                if t.listen.Accepted? {
                  listeningOnRelay := true;
                }
              }
            }
          }
        case InboundRequest(_, request, channel) =>
          requested := requested + [Generate(request.prompt)];
          var text := ResponseText(t.reply);
          requested := requested + [SendResponse(channel, PromptResponse(text))];
        case _ =>
      }
      assert Turn(listeningOnRelay, requested) ==
        var last := Step(relayAddr, before.listeningOnRelay, t); Turn(last.listeningOnRelay, before.actions + last.actions);
      assert ticks[..i + 1][..i] == ticks[..i];
      i := i + 1;
    }
    assert ticks[..i] == ticks;
    actions := [startup] + requested;
    assert actions[1..] == requested;
  }
}
