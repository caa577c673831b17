/**
  Ethernet, VLAN, IPv4, IPv6, TCP and UDP decoding, and the test that decides
  whether a frame may be forwarded without the kernel.
*/
module Packet {
  import opened Wire
  import opened Checksum

  const FAMILY_IPV4: byte := 4
  const FAMILY_IPV6: byte := 6
  const PROTOCOL_TCP: byte := 6
  const PROTOCOL_UDP: byte := 17
  const MAX_VLAN_HEADERS: nat := 2
  const MAX_IPV6_EXTENSION_HEADERS: nat := 8

  /** An IPv4 address fills the first four octets; the other twelve are zero. */
  datatype Tuple = Tuple(family: byte, protocol: byte, reserved: word, source: Address, destination: Address,
                         sourcePort: word, destinationPort: word)

  datatype Direction = Direction(originId: nat, egressDataId: nat, original: Tuple, translated: Tuple,
                                 originalSourceMac: Mac, originalDestinationMac: Mac,
                                 outputSourceMac: Mac, outputDestinationMac: Mac, outputMtu: word, reserved: word)

  datatype Guard = Guard(flowLabel: nat, trafficClass: byte, reserved: Bytes)

  datatype View = View(tuple: Tuple, networkOffset: nat, ipHeaderLength: nat, transportOffset: nat,
                       transportLength: nat, networkLength: nat, ttl: byte, flags: byte, trafficClass: byte,
                       flowLabel: nat, fragment: bool, noninitialFragment: bool, extended: bool, ports: bool,
                       malformed: bool, etherType: word, sourceMac: Mac, destinationMac: Mac,
                       ipv4Checksum: word, frameLength: nat, ethernetValid: bool)

  predicate IsZero(octets: Bytes) {
    forall i :: 0 <= i < |octets| ==> octets[i] == 0
  }

  function Ipv4Address(octets: Bytes): Address
    requires |octets| == 4
  {
    octets + seq(12, _ => 0)
  }

  function Min(a: nat, b: nat): nat {
    if a <= b then a else b
  }

  predicate IsVlan(etherType: word) {
    etherType == 0x8100 || etherType == 0x88a8
  }

  /** Skips VLAN tags; the result is the network offset and the inner EtherType. */
  function SkipVlans(frame: Bytes, offset: nat, etherType: word, count: nat): (r: Result<(nat, word)>)
    requires count <= MAX_VLAN_HEADERS && offset <= |frame|
    ensures r.Err? ==> r.code == EBADMSG
    ensures r.Ok? ==> offset <= r.value.0 <= |frame|
    decreases MAX_VLAN_HEADERS - count
  {
    if !IsVlan(etherType) then Ok((offset, etherType))
    else if count == MAX_VLAN_HEADERS || offset + 4 > |frame| then Err(EBADMSG)
    else SkipVlans(frame, offset + 4, Word(frame[offset + 2], frame[offset + 3]), count + 1)
  }

  /** What the network header contributes to the view, before the transport is read. */
  datatype Network = Network(family: byte, protocol: byte, source: Address, destination: Address,
                             headerLength: nat, length: nat, ttl: byte, trafficClass: byte, flowLabel: nat,
                             fragment: bool, noninitialFragment: bool, extended: bool, malformed: bool,
                             checksum: word)

  function DecodeIpv4(network: Bytes): (r: Result<Network>)
    ensures r.Err? ==> r.code == EBADMSG
    ensures r.Ok? ==> r.value.family == FAMILY_IPV4
    ensures r.Ok? ==> 20 <= r.value.headerLength <= Min(r.value.length, |network|)
  {
    if |network| < 20 || network[0] / 16 != 4 then Err(EBADMSG) else
      var headerLength := network[0] % 16 * 4;
      var length := Word(network[2], network[3]);
      if headerLength < 20 || length < headerLength || headerLength > |network| then Err(EBADMSG) else
        var fragment := Word(network[6], network[7]);
        Ok(Network(FAMILY_IPV4, network[9], Ipv4Address(network[12..16]), Ipv4Address(network[16..20]),
                   headerLength, length, network[8], network[1], 0,
                   fragment % 0x4000 != 0, fragment % 0x2000 != 0, headerLength != 20, length > |network|,
                   Word(network[10], network[11])))
  }

  predicate IsExtension(protocol: byte) {
    protocol == 0 || protocol == 43 || protocol == 60 || protocol == 44 || protocol == 51
  }

  /** Where a walk over IPv6 extension headers stands, with the headers it may still take. */
  datatype Chain = Chain(protocol: byte, headerLength: nat, fragment: bool, noninitialFragment: bool,
                         extended: bool, budget: nat)

  function ExtensionSize(protocol: byte, encodedLength: byte): nat {
    if protocol == 44 then 8
    else if protocol == 51 then (encodedLength + 2) * 4
    else (encodedLength + 1) * 8
  }

  /** One extension header, inside the first `limit` octets. */
  function Extend(network: Bytes, limit: nat, chain: Chain): (r: Result<Chain>)
    requires limit <= |network| && chain.headerLength <= limit && chain.budget > 0
    ensures r.Err? ==> r.code == EBADMSG
    ensures r.Ok? ==> chain.headerLength + 4 <= r.value.headerLength <= limit && r.value.budget == chain.budget - 1
    ensures r.Ok? ==> r.value.extended
  {
    var at := chain.headerLength;
    if limit - at < 8 then Err(EBADMSG) else
      var size := ExtensionSize(chain.protocol, network[at + 1]);
      var isFragment := chain.protocol == 44;
      var noninitial := if isFragment then Word(network[at + 2], network[at + 3]) / 8 != 0
                        else chain.noninitialFragment;
      if size > limit - at then Err(EBADMSG)
      else Ok(Chain(network[at], at + size, chain.fragment || isFragment, noninitial, true, chain.budget - 1))
  }

  /** Walks the extension headers, stopping after a later fragment or when the budget is spent. */
  function WalkExtensions(network: Bytes, limit: nat, chain: Chain): (r: Result<Chain>)
    requires limit <= |network| && chain.headerLength <= limit
    ensures r.Err? ==> r.code == EBADMSG
    ensures r.Ok? ==> chain.headerLength <= r.value.headerLength <= limit
    ensures r.Ok? && chain.extended ==> r.value.extended
    ensures r.Ok? && !r.value.extended ==> r.value == chain
    decreases chain.budget
  {
    if chain.budget == 0 || !IsExtension(chain.protocol) then Ok(chain) else
      var next :- Extend(network, limit, chain);
      if next.noninitialFragment then Ok(next) else WalkExtensions(network, limit, next)
  }

  function FirstHeader(network: Bytes): Chain
    requires |network| >= 40
  {
    Chain(network[6], 40, false, false, false, MAX_IPV6_EXTENSION_HEADERS)
  }

  function Ipv6Network(network: Bytes, chain: Chain): Network
    requires |network| >= 40
  {
    var length := 40 + Word(network[4], network[5]);
    Network(FAMILY_IPV6, chain.protocol, network[8..24], network[24..40],
            chain.headerLength, length, network[7], network[0] % 16 * 16 + network[1] / 16,
            network[1] % 16 * 0x1_0000 + Word(network[2], network[3]),
            chain.fragment, chain.noninitialFragment, chain.extended, length > |network|, 0)
  }

  function DecodeIpv6(network: Bytes): (r: Result<Network>)
    ensures r.Err? ==> r.code == EBADMSG
    ensures r.Ok? ==> r.value.family == FAMILY_IPV6
    ensures r.Ok? ==> 40 <= r.value.headerLength <= Min(r.value.length, |network|)
    ensures r.Ok? && !r.value.extended ==> r.value.headerLength == 40
  {
    if |network| < 40 || network[0] / 16 != 6 then Err(EBADMSG) else
      var limit := Min(40 + Word(network[4], network[5]), |network|);
      var chain :- WalkExtensions(network, limit, FirstHeader(network));
      Ok(Ipv6Network(network, chain))
  }

  ghost predicate NetworkDecoded(net: Network, available: nat) {
    && (net.family == FAMILY_IPV4 || net.family == FAMILY_IPV6)
    && (if net.family == FAMILY_IPV4 then 20 else 40) <= net.headerLength <= Min(net.length, available)
    && (!net.extended ==> net.headerLength == if net.family == FAMILY_IPV4 then 20 else 40)
    && net.malformed == (net.length > available)
  }

  function DecodeNetwork(network: Bytes, etherType: word): (r: Result<Network>)
    ensures r.Ok? ==> NetworkDecoded(r.value, |network|)
  {
    if etherType == 0x0800 then DecodeIpv4(network)
    else if etherType == 0x86dd then DecodeIpv6(network)
    else Err(EPROTONOSUPPORT)
  }

  function MinimumTransport(protocol: byte): nat {
    if protocol == PROTOCOL_TCP then 20 else 8
  }

  /** The ranges a successful decoding establishes: every header and the transport lie in the frame. */
  ghost predicate Located(frame: Bytes, v: View) {
    && v.ethernetValid && v.frameLength == |frame|
    && 14 <= v.networkOffset
    && (v.tuple.family == FAMILY_IPV4 || v.tuple.family == FAMILY_IPV6)
    && (v.tuple.protocol == PROTOCOL_TCP || v.tuple.protocol == PROTOCOL_UDP)
    && (v.tuple.family == FAMILY_IPV4 ==> 20 <= v.ipHeaderLength)
    && (v.tuple.family == FAMILY_IPV6 ==> 40 <= v.ipHeaderLength)
    && v.transportOffset == v.networkOffset + v.ipHeaderLength
    && v.transportOffset + v.transportLength <= |frame|
    && v.ipHeaderLength + v.transportLength == Min(v.networkLength, |frame| - v.networkOffset)
    && v.malformed == (v.networkLength > |frame| - v.networkOffset)
    && v.ports == (!v.noninitialFragment && v.transportLength >= 4)
    && v.tuple.reserved == 0
    && (!v.extended ==> v.ipHeaderLength == if v.tuple.family == FAMILY_IPV4 then 20 else 40)
  }

  /** Reads ports and TCP flags behind a decoded network header. */
  function DecodeTransport(frame: Bytes, outer: word, offset: nat, net: Network): (r: Result<View>)
    requires 14 <= offset <= |frame| && NetworkDecoded(net, |frame| - offset)
    ensures r.Ok? ==> Located(frame, r.value)
  {
    var at := offset + net.headerLength;
    var length := Min(net.length, |frame| - offset) - net.headerLength;
    if net.protocol != PROTOCOL_TCP && net.protocol != PROTOCOL_UDP then Err(EPROTONOSUPPORT)
    else if net.malformed && !net.noninitialFragment && length < MinimumTransport(net.protocol) then Err(EBADMSG)
    else
      var ports := !net.noninitialFragment && length >= 4;
      Ok(View(
           Tuple(net.family, net.protocol, 0, net.source, net.destination,
                 if ports then Word(frame[at], frame[at + 1]) else 0,
                 if ports then Word(frame[at + 2], frame[at + 3]) else 0),
           offset, net.headerLength, at, length, net.length, net.ttl,
           if !net.noninitialFragment && net.protocol == PROTOCOL_TCP && length >= 20 then frame[at + 13] else 0,
           net.trafficClass, net.flowLabel, net.fragment, net.noninitialFragment,
           net.extended || offset > 14, ports, net.malformed, outer, frame[6..12], frame[0..6],
           net.checksum, |frame|, true))
  }

  /** Decoding is total: every octet sequence yields a view or an error code. */
  function Decode(frame: Bytes): (r: Result<View>)
    ensures r.Ok? ==> Located(frame, r.value)
  {
    if |frame| < 14 then Err(EBADMSG) else
      var outer := Word(frame[12], frame[13]);
      var (offset, inner) :- SkipVlans(frame, 14, outer, 0);
      var net :- DecodeNetwork(frame[offset..], inner);
      DecodeTransport(frame, outer, offset, net)
  }

  /** ECN is congestion state: the guard compares DSCP and the flow label only. */
  predicate GuardMatches(view: View, guard: Guard) {
    view.trafficClass / 4 == guard.trafficClass / 4 && view.flowLabel == guard.flowLabel
  }

  /** The view's ranges lie in the frame; true of every decoded frame. */
  predicate InFrame(frame: Bytes, view: View) {
    && view.networkOffset + view.networkLength <= |frame|
    && view.transportOffset + view.transportLength <= |frame|
    && view.ipHeaderLength <= view.networkLength
    && (view.tuple.family == FAMILY_IPV4 ==> 20 <= view.networkLength)
    && (view.tuple.family == FAMILY_IPV6 ==> 40 <= view.networkLength)
  }

  /** TCP needs ACK, no FIN, SYN, RST or URG, and a whole header; UDP an exact length. */
  predicate TransportEligible(transport: Bytes, view: View) {
    if view.tuple.protocol == PROTOCOL_TCP then
      && |transport| >= 20
      && transport[12] % 16 == 0
      && 20 <= transport[12] / 16 * 4 <= |transport|
      && view.flags / 16 % 2 == 1
      && view.flags % 8 == 0 && view.flags / 32 % 2 == 0
    else
      view.tuple.protocol == PROTOCOL_UDP && |transport| >= 8 && Word(transport[4], transport[5]) == |transport|
  }

  /** What the transport checksum covers besides the transport itself. */
  function PseudoHeaderSum(frame: Bytes, view: View): nat
    requires InFrame(frame, view)
  {
    if view.tuple.family == FAMILY_IPV4 then
      WordSum(frame[view.networkOffset + 12..view.networkOffset + 20]) + view.tuple.protocol + view.transportLength
    else if view.tuple.family == FAMILY_IPV6 then
      WordSum(frame[view.networkOffset + 8..view.networkOffset + 40])
      + view.transportLength / 0x1_0000 + view.transportLength % 0x1_0000 + view.tuple.protocol
    else 0
  }

  function Transport(frame: Bytes, view: View): Bytes
    requires InFrame(frame, view)
  {
    frame[view.transportOffset..view.transportOffset + view.transportLength]
  }

  function Ipv4Header(frame: Bytes, view: View): Bytes
    requires InFrame(frame, view)
  {
    frame[view.networkOffset..view.networkOffset + view.ipHeaderLength]
  }

  predicate UdpWithoutChecksum(frame: Bytes, view: View)
    requires InFrame(frame, view) && TransportEligible(Transport(frame, view), view)
  {
    view.tuple.protocol == PROTOCOL_UDP && Word(Transport(frame, view)[6], Transport(frame, view)[7]) == 0
  }

  predicate ChecksumsValid(frame: Bytes, view: View)
    requires InFrame(frame, view) && TransportEligible(Transport(frame, view), view)
  {
    var whole := Fold(PseudoHeaderSum(frame, view) + WordSum(Transport(frame, view))) == 0xffff;
    if view.tuple.family == FAMILY_IPV4 then
      Fold(WordSum(Ipv4Header(frame, view))) == 0xffff && (UdpWithoutChecksum(frame, view) || whole)
    else
      view.tuple.family == FAMILY_IPV6 && !UdpWithoutChecksum(frame, view) && whole
  }

  predicate EligibleHeaders(frame: Bytes, view: View) {
    InFrame(frame, view) && TransportEligible(Transport(frame, view), view) && ChecksumsValid(frame, view)
  }

  /** A frame the worker may forward itself, with a direction's output MTU. */
  predicate Eligible(frame: Bytes, view: View, outputMtu: word) {
    && !view.malformed && !view.extended && !view.fragment
    && view.ttl > 1 && view.networkLength <= outputMtu && view.ports
    && EligibleHeaders(frame, view)
  }
}
