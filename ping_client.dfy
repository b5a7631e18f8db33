/**
 * The client controller: it takes the target peer id from the target
 * address, dials that address, sends one fixed prompt once connected to the
 * target, and ends on the first response or on an outgoing connection error.
 */
module PingClient {
  import opened Wrappers
  import opened Multiaddr
  import opened Messages
  import opened Swarm

  const FixedPrompt: string := "whats 1 + 1"

  const NoPeerIdError: string := "No peer ID in target address"

  /** The target peer: the last P2p component of the target address, or an error when it has none. */
  function TargetPeer(target: Multiaddr): (r: Result<PeerId, string>)
    ensures r.Failure? <==> NoPeer(target)
    ensures r.Failure? ==> r.error == NoPeerIdError
    ensures r.Success? ==> exists i :: LastPeerAt(target, i) && target[i].peer == r.value
  {
    match LastPeer(target)
    case Some(id) => Success(id)
    case None => Failure(NoPeerIdError)
  }

  /** The controller's flag after some events, the effects requested, and how the loop ended, if it did. */
  datatype Turn = Turn(promptSent: bool, actions: seq<Action>, exit: Option<Result<(), string>>)

  /** The events that end the loop. */
  predicate Terminal(e: SwarmEvent)
  {
    e.InboundResponse? || e.OutgoingConnectionError?
  }

  function ExitOf(e: SwarmEvent): Result<(), string>
    requires Terminal(e)
  {
    if e.InboundResponse? then Success(()) else Failure(e.error)
  }

  /** The one request the client ever sends. */
  function Prompt(target: PeerId): Action
  {
    SendRequest(target, PromptRequest(FixedPrompt))
  }

  /** One iteration of the dispatch loop. */
  function Step(target: PeerId, promptSent: bool, e: SwarmEvent): (r: Turn)
    // the prompt is sent exactly on a connection to the target while not yet sent
    ensures r.actions != [] <==> e == ConnectionEstablished(target) && !promptSent
    ensures r.actions != [] ==> r.actions == [Prompt(target)]
    // the latch is set exactly when the prompt is sent, and never reverts
    ensures r.promptSent == (promptSent || r.actions != [])
    // the loop ends exactly on a response (success) or an outgoing connection error (failure)
    ensures r.exit.Some? <==> Terminal(e)
    ensures Terminal(e) ==> r.exit == Some(ExitOf(e))
  {
    match e
    case ConnectionEstablished(peer) =>
      if peer == target && !promptSent then Turn(true, [SendRequest(peer, PromptRequest(FixedPrompt))], None)
      else Turn(promptSent, [], None)
    case InboundResponse(_, _) => Turn(promptSent, [], Some(Success(())))
    case OutgoingConnectionError(error) => Turn(promptSent, [], Some(Failure(error)))
    case _ => Turn(promptSent, [], None)
  }

  /** The loop run over a finite sequence of events; events after the loop has ended are not consumed. */
  function Run(target: PeerId, promptSent: bool, events: seq<SwarmEvent>): (r: Turn)
    ensures promptSent ==> r.promptSent
    ensures |r.actions| <= |events|
    decreases |events|
  {
    if events == [] then Turn(promptSent, [], None)
    else
      var prev := Run(target, promptSent, events[..|events| - 1]);
      if prev.exit.Some? then prev
      else
        var last := Step(target, prev.promptSent, events[|events| - 1]);
        Turn(last.promptSent, prev.actions + last.actions, last.exit)
  }

  /** No terminal event occurs before index i. */
  predicate QuietBefore(events: seq<SwarmEvent>, i: int)
    requires 0 <= i <= |events|
  {
    forall j :: 0 <= j < i ==> !Terminal(events[j])
  }

  /** The exit of the first terminal event, scanning from the front: a reference definition for Run's exit. */
  function FirstExit(events: seq<SwarmEvent>): Option<Result<(), string>>
  {
    if events == [] then None
    else if Terminal(events[0]) then Some(ExitOf(events[0]))
    else FirstExit(events[1..])
  }

  lemma {:induction false} FirstExitSnoc(events: seq<SwarmEvent>, e: SwarmEvent)
    ensures FirstExit(events + [e]) ==
      if FirstExit(events).Some? then FirstExit(events) else if Terminal(e) then Some(ExitOf(e)) else None
  {
    if events == [] {
      assert events + [e] == [e];
      assert [e][1..] == [];
    } else {
      assert (events + [e])[1..] == events[1..] + [e];
      FirstExitSnoc(events[1..], e);
    }
  }

  /** Once the loop has ended, later events change nothing. */
  lemma {:induction false} ExitIsFinal(target: PeerId, promptSent: bool, events: seq<SwarmEvent>, k: nat)
    requires k <= |events|
    requires Run(target, promptSent, events[..k]).exit.Some?
    ensures Run(target, promptSent, events) == Run(target, promptSent, events[..k])
    decreases |events| - k
  {
    if k == |events| {
      assert events[..k] == events;
    } else {
      var pre := events[..|events| - 1];
      assert pre[..k] == events[..k];
      ExitIsFinal(target, promptSent, pre, k);
    }
  }

  /** The loop ends with the outcome of the first response or outgoing connection error, and only then. */
  lemma {:induction false} ExitIsFirstTerminal(target: PeerId, promptSent: bool, events: seq<SwarmEvent>)
    ensures Run(target, promptSent, events).exit == FirstExit(events)
    decreases |events|
  {
    if events != [] {
      var pre, e := events[..|events| - 1], events[|events| - 1];
      assert events == pre + [e];
      ExitIsFirstTerminal(target, promptSent, pre);
      FirstExitSnoc(pre, e);
    }
  }

  /** The loop is still running exactly when no terminal event has arrived. */
  lemma {:induction false} RunningIffQuiet(target: PeerId, promptSent: bool, events: seq<SwarmEvent>)
    ensures Run(target, promptSent, events).exit.None? <==> QuietBefore(events, |events|)
    decreases |events|
  {
    if events != [] {
      var n := |events|;
      var pre := events[..n - 1];
      RunningIffQuiet(target, promptSent, pre);
      if QuietBefore(events, n) {
        assert QuietBefore(pre, n - 1) by {
          forall j | 0 <= j < n - 1 ensures !Terminal(pre[j]) { assert pre[j] == events[j]; }
        }
      }
      if !QuietBefore(pre, n - 1) {
        var j :| 0 <= j < n - 1 && Terminal(pre[j]);
        assert events[j] == pre[j];
      }
    }
  }

  /**
   * At most one prompt is sent per run: the requests made are either none or the
   * single fixed prompt to the target, and `prompt_sent` records which.
   */
  lemma {:induction false} AtMostOnePrompt(target: PeerId, events: seq<SwarmEvent>)
    ensures Run(target, false, events).actions == [] || Run(target, false, events).actions == [Prompt(target)]
    ensures Run(target, false, events).promptSent <==> Run(target, false, events).actions == [Prompt(target)]
    decreases |events|
  {
    if events != [] {
      AtMostOnePrompt(target, events[..|events| - 1]);
      var prev := Run(target, false, events[..|events| - 1]);
      if prev.exit.None? {
        var last := Step(target, prev.promptSent, events[|events| - 1]);
        assert prev.actions == [] ==> prev.actions + last.actions == last.actions;
        assert prev.actions == [Prompt(target)] ==> last.actions == [];
      }
    }
  }

  /** Once the prompt is sent, the flag stays set and no further request is made. */
  lemma {:induction false} PromptSentIsFinal(target: PeerId, events: seq<SwarmEvent>)
    ensures Run(target, true, events).promptSent
    ensures Run(target, true, events).actions == []
    decreases |events|
  {
    if events != [] {
      PromptSentIsFinal(target, events[..|events| - 1]);
    }
  }

  /**
   * The prompt is sent exactly when a connection to the target is established before
   * the loop ends; connections to any other peer, such as the relay, send nothing.
   */
  lemma {:induction false} PromptSentIffTargetConnected(target: PeerId, events: seq<SwarmEvent>)
    ensures Run(target, false, events).promptSent <==>
      exists i :: 0 <= i < |events| && events[i] == ConnectionEstablished(target) && QuietBefore(events, i)
    decreases |events|
  {
    if events != [] {
      var n := |events|;
      var pre := events[..n - 1];
      PromptSentIffTargetConnected(target, pre);
      RunningIffQuiet(target, false, pre);
      var prev := Run(target, false, pre);
      forall i | 0 <= i < n - 1
        ensures (events[i] == ConnectionEstablished(target) && QuietBefore(events, i)) <==>
                (pre[i] == ConnectionEstablished(target) && QuietBefore(pre, i))
      {
        assert events[i] == pre[i];
        assert QuietBefore(events, i) <==> QuietBefore(pre, i) by {
          forall j | 0 <= j < i ensures events[j] == pre[j] { }
        }
      }
      if prev.exit.Some? {
        assert !QuietBefore(events, n - 1) by {
          var j :| 0 <= j < n - 1 && Terminal(pre[j]);
          assert events[j] == pre[j];
        }
      } else {
        assert QuietBefore(events, n - 1) by {
          forall j | 0 <= j < n - 1 ensures !Terminal(events[j]) { assert events[j] == pre[j]; }
        }
      }
    }
  }

  /**
   * The whole program. An address without a peer id is rejected before any dial;
   * `dialed` is the answer of `dial`, whose refusal also ends the process. Then the loop
   * runs over events until it ends; `exit` is None when the events ran out first.
   */
  method RunClient(target: Multiaddr, dialed: Answer, events: seq<SwarmEvent>)
    returns (exit: Option<Result<(), string>>, actions: seq<Action>)
    ensures NoPeer(target) ==> exit == Some(Failure(NoPeerIdError)) && actions == []
    ensures !NoPeer(target) && dialed.Refused? ==> exit == Some(Failure(dialed.reason)) && actions == [Dial(target)]
    ensures !NoPeer(target) && dialed.Accepted? ==>
      var r := Run(TargetPeer(target).value, false, events);
      |actions| >= 1 && actions[0] == Dial(target) && actions[1..] == r.actions && exit == r.exit
  {
    var targetPeer := TargetPeer(target);
    if targetPeer.Failure? {
      return Some(Failure(targetPeer.error)), [];
    }
    var peer := targetPeer.value;
    actions := [Dial(target)];
    if dialed.Refused? {
      return Some(Failure(dialed.reason)), actions;
    }
    var promptSent := false;
    var requests: seq<Action> := [];
    exit := None;
    var i := 0;
    while i < |events| && exit.None?
      invariant 0 <= i <= |events|
      invariant Run(peer, false, events[..i]) == Turn(promptSent, requests, exit)
      decreases |events| - i
    {
      ghost var before := Turn(promptSent, requests, exit);
      match events[i] {
        case ConnectionEstablished(p) =>
          if p == peer && !promptSent {
            requests := requests + [SendRequest(p, PromptRequest(FixedPrompt))];
            promptSent := true;
          }
        case InboundResponse(_, _) =>
          exit := Some(Success(()));
        case OutgoingConnectionError(error) =>
          exit := Some(Failure(error));
        case _ =>
      }
      assert Turn(promptSent, requests, exit) ==
        var last := Step(peer, before.promptSent, events[i]); Turn(last.promptSent, before.actions + last.actions, last.exit);
      assert events[..i + 1][..i] == events[..i];
      i := i + 1;
    }
    if i < |events| {
      ExitIsFinal(peer, false, events, i);
    } else {
      assert events[..i] == events;
    }
    actions := actions + requests;
  }
}
