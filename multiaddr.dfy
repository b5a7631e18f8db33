/**
 * Multiaddresses as sequences of typed components, and the three pure
 * address operations the two controllers use: the first peer id of the
 * relay address, the last peer id of the target address, and the circuit
 * address obtained by appending the relay marker.
 */
module Multiaddr {
  import opened Wrappers

  newtype byte = x: int | 0 <= x < 0x100
  newtype u16 = x: int | 0 <= x < 0x1_0000

  /** A peer identifier: an opaque multihash of the peer's public key, compared by value. */
  datatype PeerId = PeerId(multihash: seq<byte>)

  datatype Component =
    | Ip4(a: byte, b: byte, c: byte, d: byte)
    | Tcp(port: u16)
    | P2p(peer: PeerId)
    | P2pCircuit
    | OtherProtocol(name: string)

  type Multiaddr = seq<Component>

  /** No component of addr names a peer. */
  predicate NoPeer(addr: Multiaddr)
  {
    forall i :: 0 <= i < |addr| ==> !addr[i].P2p?
  }

  /** Component i of addr is its first P2p component. */
  predicate FirstPeerAt(addr: Multiaddr, i: int)
  {
    0 <= i < |addr| && addr[i].P2p? && forall j :: 0 <= j < i ==> !addr[j].P2p?
  }

  /** Component i of addr is its last P2p component. */
  predicate LastPeerAt(addr: Multiaddr, i: int)
  {
    0 <= i < |addr| && addr[i].P2p? && forall j :: i < j < |addr| ==> !addr[j].P2p?
  }

  /** The peer ids of the P2p components of addr, in address order (`filter_map` over the components). */
  function PeerIds(addr: Multiaddr): (ids: seq<PeerId>)
    ensures |ids| <= |addr|
    ensures ids == [] <==> NoPeer(addr)
  {
    if addr == [] then []
    else (if addr[0].P2p? then [addr[0].peer] else []) + PeerIds(addr[1..])
  }

  /** The peer id of the first P2p component (`find_map` over the components). */
  function FirstPeer(addr: Multiaddr): (r: Option<PeerId>)
    ensures r.None? <==> NoPeer(addr)
    ensures r.Some? ==> exists i :: FirstPeerAt(addr, i) && addr[i].peer == r.value
  {
    if addr == [] then None
    else if addr[0].P2p? then Some(addr[0].peer)
    else
      var r := FirstPeer(addr[1..]);
      assert forall i :: FirstPeerAt(addr[1..], i) ==> FirstPeerAt(addr, i + 1);
      r
  }

  /** The peer id of the last P2p component (`filter_map(..).last()` over the components). */
  function LastPeer(addr: Multiaddr): (r: Option<PeerId>)
    ensures r.None? <==> NoPeer(addr)
    ensures r.Some? ==> exists i :: LastPeerAt(addr, i) && addr[i].peer == r.value
  {
    var ids := PeerIds(addr);
    if ids == [] then None
    else
      LastIdIsLastPeer(addr);
      Some(ids[|ids| - 1])
  }

  /** The relay circuit address: addr with one P2pCircuit component appended (`.with(Protocol::P2pCircuit)`). */
  function WithCircuit(addr: Multiaddr): (r: Multiaddr)
    ensures |r| == |addr| + 1 && r[..|addr|] == addr && r[|addr|] == P2pCircuit
  {
    addr + [P2pCircuit]
  }

  /** The number of P2pCircuit components of addr. */
  function CircuitCount(addr: Multiaddr): nat
  {
    if addr == [] then 0 else (if addr[0] == P2pCircuit then 1 else 0) + CircuitCount(addr[1..])
  }

  lemma {:induction false} PeerIdsAppend(a: Multiaddr, b: Multiaddr)
    ensures PeerIds(a + b) == PeerIds(a) + PeerIds(b)
  {
    if a != [] {
      assert (a + b)[1..] == a[1..] + b;
      PeerIdsAppend(a[1..], b);
    } else {
      assert a + b == b;
    }
  }

  lemma {:induction false} CircuitCountAppend(a: Multiaddr, b: Multiaddr)
    ensures CircuitCount(a + b) == CircuitCount(a) + CircuitCount(b)
  {
    if a != [] {
      assert (a + b)[1..] == a[1..] + b;
      CircuitCountAppend(a[1..], b);
    } else {
      assert a + b == b;
    }
  }

  /** The last element of PeerIds(addr) is the peer of addr's last P2p component. */
  lemma {:induction false} LastIdIsLastPeer(addr: Multiaddr)
    requires PeerIds(addr) != []
    ensures exists i :: LastPeerAt(addr, i) && addr[i].peer == PeerIds(addr)[|PeerIds(addr)| - 1]
  {
    var n := |addr|;
    var pre, c := addr[..n - 1], addr[n - 1];
    assert addr == pre + [c];
    PeerIdsAppend(pre, [c]);
    assert PeerIds([c]) == (if c.P2p? then [c.peer] else []) by {
      assert [c][1..] == [];
    }
    if c.P2p? {
      assert PeerIds(addr) == PeerIds(pre) + [c.peer];
      assert LastPeerAt(addr, n - 1);
    } else {
      assert PeerIds(addr) == PeerIds(pre);
      LastIdIsLastPeer(pre);
      var i :| LastPeerAt(pre, i) && pre[i].peer == PeerIds(pre)[|PeerIds(pre)| - 1];
      assert LastPeerAt(addr, i) by {
        forall j | i < j < n ensures !addr[j].P2p? {
          if j < n - 1 { assert addr[j] == pre[j]; }
        }
      }
    }
  }

  /** The peer ids are exactly those of the address's P2p components. */
  lemma {:induction false} PeerIdsMembers(addr: Multiaddr, id: PeerId)
    ensures id in PeerIds(addr) <==> P2p(id) in addr
  {
    if addr != [] {
      PeerIdsMembers(addr[1..], id);
      assert addr == [addr[0]] + addr[1..];
    }
  }

  /** `find_map` agrees with the head of the `filter_map` sequence. */
  lemma {:induction false} FirstPeerIsFirstId(addr: Multiaddr)
    ensures FirstPeer(addr) == if PeerIds(addr) == [] then None else Some(PeerIds(addr)[0])
  {
    if addr != [] && !addr[0].P2p? {
      FirstPeerIsFirstId(addr[1..]);
    }
  }

  /** The circuit address names the same peers as the relay address, and has exactly one more P2pCircuit. */
  lemma WithCircuitKeepsPeers(addr: Multiaddr)
    ensures PeerIds(WithCircuit(addr)) == PeerIds(addr)
    ensures FirstPeer(WithCircuit(addr)) == FirstPeer(addr)
    ensures LastPeer(WithCircuit(addr)) == LastPeer(addr)
    ensures CircuitCount(WithCircuit(addr)) == CircuitCount(addr) + 1
  {
    PeerIdsAppend(addr, [P2pCircuit]);
    CircuitCountAppend(addr, [P2pCircuit]);
    assert [P2pCircuit][1..] == [];
    FirstPeerIsFirstId(addr);
    FirstPeerIsFirstId(WithCircuit(addr));
  }

  /**
   * For a relayed dial address `<relay>/p2p-circuit/p2p/<target>`, the last peer id is the
   * target and the first is still the relay's: the client dials through the relay but
   * addresses its prompt to the target.
   */
  lemma RelayedAddressPeers(relay: Multiaddr, target: PeerId)
    ensures LastPeer(WithCircuit(relay) + [P2p(target)]) == Some(target)
    ensures !NoPeer(relay) ==> FirstPeer(WithCircuit(relay) + [P2p(target)]) == FirstPeer(relay)
  {
    var addr := WithCircuit(relay) + [P2p(target)];
    PeerIdsAppend(WithCircuit(relay), [P2p(target)]);
    assert [P2p(target)][1..] == [];
    WithCircuitKeepsPeers(relay);
    FirstPeerIsFirstId(relay);
    FirstPeerIsFirstId(addr);
  }
}
