/** Port replacement in a libp2p multiaddress
    (workers/network-manager/src/manager.rs, `replace_port`). A multiaddress
    is its protocol stack, outermost first. */
module Multiaddr {
  import opened Wrappers

  const TwoTo16: nat := 0x1_0000
  type U16 = x: nat | x < TwoTo16
  type Octet = x: nat | x < 256

  datatype Protocol =
    | Ip4(a: Octet, b: Octet, c: Octet, d: Octet)
    | Tcp(tcpPort: U16)
    | Udp(udpPort: U16)
    | QuicV1
    | P2p(peer: string)
    | Dns(host: string)

  type MultiaddrStack = seq<Protocol>

  /** `TRANSPORT_PROTOCOL_NAME`. */
  const TransportProtocolName := "udp"

  /** The protocol's tag as it appears in `protocol_stack`. */
  function Name(p: Protocol): (r: string)
    ensures r == TransportProtocolName <==> p.Udp?
  {
    match p
    case Ip4(_, _, _, _) => "ip4"
    case Tcp(_) => "tcp"
    case Udp(_) => "udp"
    case QuicV1 => "quic-v1"
    case P2p(_) => "p2p"
    case Dns(_) => "dns"
  }

  /** The position of the first transport component, if any. */
  function FirstTransport(m: MultiaddrStack): (r: Option<nat>)
    ensures r.Some? ==> r.value < |m| && Name(m[r.value]) == TransportProtocolName
    ensures r.Some? ==> forall j | 0 <= j < r.value :: Name(m[j]) != TransportProtocolName
    ensures r.None? ==> forall j | 0 <= j < |m| :: Name(m[j]) != TransportProtocolName
  {
    if m == [] then None
    else if Name(m[0]) == TransportProtocolName then Some(0)
    else match FirstTransport(m[1..])
      case Some(i) => Some(i + 1)
      case None => None
  }

  /** The address `replace_port` leaves behind. */
  function WithPort(m: MultiaddrStack, port: U16): MultiaddrStack
  {
    match FirstTransport(m)
    case Some(i) => m[i := Udp(port)]
    case None => m + [Udp(port)]
  }

  /** `replace_port`: the first `udp` component gets the new port, or a `udp`
      component is appended when there is none. */
  method ReplacePort(multiaddr: MultiaddrStack, port: U16) returns (r: MultiaddrStack)
    ensures r == WithPort(multiaddr, port)
    ensures FirstTransport(multiaddr).Some? ==>
      var i := FirstTransport(multiaddr).value;
      |r| == |multiaddr| && r[i] == Udp(port) && forall j | 0 <= j < |r| && j != i :: r[j] == multiaddr[j]
    ensures FirstTransport(multiaddr).None? ==> r == multiaddr + [Udp(port)]
  {
    var index: Option<nat> := None;
    var i := 0;
    while i < |multiaddr|
      invariant 0 <= i <= |multiaddr|
      invariant index.None? ==> forall j | 0 <= j < i :: Name(multiaddr[j]) != TransportProtocolName
      invariant index.Some? ==> index == FirstTransport(multiaddr)
    {
      if Name(multiaddr[i]) == TransportProtocolName {
        index := Some(i);
        break;
      }
      i := i + 1;
    }
    match index {
      case Some(transportIndex) =>
        r := multiaddr[transportIndex := Udp(port)];
      case None =>
        r := multiaddr + [Udp(port)];
    }
  }

  /** After the replacement there is a transport component carrying the
      port, and replacing the same port again changes nothing. */
  lemma ReplacePortIdempotent(m: MultiaddrStack, port: U16)
    ensures FirstTransport(WithPort(m, port)).Some?
    ensures WithPort(m, port)[FirstTransport(WithPort(m, port)).value] == Udp(port)
    ensures WithPort(WithPort(m, port), port) == WithPort(m, port)
  {
    var once := WithPort(m, port);
    match FirstTransport(m)
    case Some(i) =>
      assert once[i] == Udp(port);
      assert FirstTransport(once) == Some(i) by {
        FirstTransportIs(once, i);
      }
    case None =>
      assert once[|m|] == Udp(port);
      assert FirstTransport(once) == Some(|m|) by {
        FirstTransportIs(once, |m|);
      }
      assert once[|m| := Udp(port)] == once;
  }

  /** A transport at `i` with none before it is the first transport. */
  lemma {:induction false} FirstTransportIs(m: MultiaddrStack, i: nat)
    requires i < |m| && Name(m[i]) == TransportProtocolName
    requires forall j | 0 <= j < i :: Name(m[j]) != TransportProtocolName
    ensures FirstTransport(m) == Some(i)
  {
    if i > 0 {
      FirstTransportIs(m[1..], i - 1);
    }
  }

  /** `/ip4/127.0.0.1/udp/8000/quic-v1/p2p/<id>` with port 9000 becomes the
      same address with `udp/9000`. */
  lemma ReplacePortExample(peer: string)
    ensures WithPort([Ip4(127, 0, 0, 1), Udp(8000), QuicV1, P2p(peer)], 9000)
         == [Ip4(127, 0, 0, 1), Udp(9000), QuicV1, P2p(peer)]
  {
    FirstTransportIs([Ip4(127, 0, 0, 1), Udp(8000), QuicV1, P2p(peer)], 1);
  }
}
