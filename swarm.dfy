/**
 * What the node controllers see of the libp2p swarm: the events it yields,
 * the answers of the calls they make on it, and the effects they request.
 */
module Swarm {
  import opened Multiaddr
  import opened Messages

  /** Identifies the one-shot response channel of an inbound request. */
  type ChannelId = nat

  datatype SwarmEvent =
    | ConnectionEstablished(peer: PeerId)
    | NewListenAddr(address: Multiaddr)
    | InboundRequest(peer: PeerId, request: PromptRequest, channel: ChannelId)
    | InboundResponse(peer: PeerId, response: PromptResponse)
    | OutboundFailure(peer: PeerId, error: string)
    | Ping(peer: PeerId)
    | Relay
    | Identify(peer: PeerId)
    | OutgoingConnectionError(error: string)
    | OtherEvent

  /** The immediate answer of `dial` or `listen_on`. */
  datatype Answer = Accepted | Refused(reason: string)

  /** An effect a controller requests: of the swarm, or of the text-generation backend. */
  datatype Action =
    | Dial(addr: Multiaddr)
    | ListenOn(addr: Multiaddr)
    | Generate(prompt: string)
    | SendResponse(channel: ChannelId, response: PromptResponse)
    | SendRequest(peer: PeerId, request: PromptRequest)
}
