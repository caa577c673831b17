/**
  The three in-place frame edits: `forward` lowers the hop limit and sets the
  output MACs, `restore` undoes the hardware NAT, and `restore_forwarded` undoes
  `forward` and then the NAT. Each is a function on octets, and a method on the
  frame's array that refines it.
*/
module PacketEdit {
  import opened Wire
  import opened Checksum
  import opened Packet

  function Checked<T>(o: Option<T>): (r: Result<T>) {
    if o.Some? then Ok(o.value) else Err(EBADMSG)
  }

  /** The bounds and family checks that precede every edit. */
  predicate EditValid(frame: Bytes, view: View, d: Direction) {
    && |frame| == view.frameLength
    && view.ethernetValid
    && 14 <= |frame|
    && view.networkOffset + view.ipHeaderLength <= |frame|
    && view.transportOffset + view.transportLength <= |frame|
    && d.original.family == view.tuple.family
    && d.translated.family == view.tuple.family
  }

  function PortOctets(tuple: Tuple): (b: Bytes)
    ensures |b| == 4
  {
    Octets(tuple.sourcePort) + Octets(tuple.destinationPort)
  }

  /** A checksum over both addresses, moved from the translated to the original ones. */
  function ReplaceAddresses(checksum: word, d: Direction): word {
    var first := Replaced(checksum, d.translated.source[..4], d.original.source[..4]).value;
    Replaced(first, d.translated.destination[..4], d.original.destination[..4]).value
  }

  /** Where the transport checksum sits, when the transport is long enough to hold one. */
  function ChecksumField(view: View): Option<nat> {
    if view.tuple.protocol == PROTOCOL_TCP && view.transportLength >= 18 then Some(16)
    else if view.tuple.protocol == PROTOCOL_UDP && view.transportLength >= 8 then Some(6)
    else None
  }

  /** A transport checksum after inverse NAT; UDP sends a computed zero as all ones. */
  function InverseChecksum(udp: bool, checksum: word, previousPorts: Bytes, d: Direction): word
    requires |previousPorts| == 4
  {
    var computed := Replaced(ReplaceAddresses(checksum, d), previousPorts, PortOctets(d.original)).value;
    if udp && computed == 0 then 0xffff else computed
  }

  /** The transport checksum to write, if any; a UDP checksum of zero means none and survives. */
  function InverseTransportChecksum(frame: Bytes, view: View, d: Direction): (r: Result<Option<(nat, word)>>) {
    var field := ChecksumField(view);
    if !view.ports || field.None? then Ok(None) else
      var udp := view.tuple.protocol == PROTOCOL_UDP;
      var offset := view.transportOffset + field.value;
      var checksum :- Checked(ReadWord(frame, offset));
      if udp && checksum == 0 then Ok(None) else
        var previous :- Checked(ReadRange(frame, view.transportOffset, 4));
        Ok(Some((offset, InverseChecksum(udp, checksum, previous, d))))
  }

  function WriteChecksums(frame: Bytes, n: nat, checksum: word, transport: Option<(nat, word)>): (r: Result<Bytes>) {
    var f1 :- Write(frame, n + 10, Octets(checksum));
    if transport.Some? then Write(f1, transport.value.0, Octets(transport.value.1)) else Ok(f1)
  }

  function WriteEndpoints(frame: Bytes, n: nat, ports: Option<nat>, original: Tuple): (r: Result<Bytes>) {
    var f1 :- Write(frame, n + 12, original.source[..4]);
    var f2 :- Write(f1, n + 16, original.destination[..4]);
    if ports.Some? then Write(f2, ports.value, PortOctets(original)) else Ok(f2)
  }

  function PortsAt(view: View): Option<nat> {
    if view.ports then Some(view.transportOffset) else None
  }

  function RestoreIpv4(frame: Bytes, view: View, d: Direction): (r: Result<Bytes>) {
    var previous :- Checked(ReadWord(frame, view.networkOffset + 10));
    var transport :- InverseTransportChecksum(frame, view, d);
    var f1 :- WriteChecksums(frame, view.networkOffset, ReplaceAddresses(previous, d), transport);
    WriteEndpoints(f1, view.networkOffset, PortsAt(view), d.original)
  }

  function RestoreIpv6(frame: Bytes, view: View, d: Direction): (r: Result<Bytes>) {
    var f1 :- Write(frame, view.networkOffset + 8, d.original.source);
    Write(f1, view.networkOffset + 24, d.original.destination)
  }

  function SetMacs(frame: Bytes, destination: Mac, source: Mac): (r: Result<Bytes>) {
    var f1 :- Write(frame, 0, destination);
    Write(f1, 6, source)
  }

  function Restore(frame: Bytes, view: View, d: Direction): (r: Result<Bytes>) {
    if !EditValid(frame, view, d) then Err(EBADMSG) else
      var restored :- if view.tuple.family == FAMILY_IPV4 then RestoreIpv4(frame, view, d)
                      else if view.tuple.family == FAMILY_IPV6 then RestoreIpv6(frame, view, d)
                      else Err(EPROTONOSUPPORT);
      SetMacs(restored, d.originalDestinationMac, d.originalSourceMac)
  }

  function SetHopLimit(frame: Bytes, view: View, ttl: byte): (r: Result<Bytes>) {
    var n := view.networkOffset;
    if view.tuple.family == FAMILY_IPV4 then
      var before :- Checked(ReadRange(frame, n + 8, 2));
      var previous :- Checked(ReadWord(frame, n + 10));
      var checksum :- Checked(Replaced(previous, before, [ttl, view.tuple.protocol]));
      var f1 :- Write(frame, n + 10, Octets(checksum));
      Write(f1, n + 8, [ttl])
    else if view.tuple.family == FAMILY_IPV6 then Write(frame, n + 7, [ttl])
    else Err(EPROTONOSUPPORT)
  }

  function Forward(frame: Bytes, view: View, d: Direction): (r: Result<Bytes>) {
    if !EditValid(frame, view, d) || view.ttl == 0 then Err(EBADMSG) else
      var f1 :- SetHopLimit(frame, view, view.ttl - 1);
      SetMacs(f1, d.outputDestinationMac, d.outputSourceMac)
  }

  /** Undoes the hop limit edit from the values the view kept, but leaves the MACs. */
  function UndoHopLimit(frame: Bytes, view: View): (r: Result<Bytes>) {
    var n := view.networkOffset;
    if view.tuple.family == FAMILY_IPV4 then
      var f1 :- Write(frame, n + 8, [view.ttl]);
      Write(f1, n + 10, Octets(view.ipv4Checksum))
    else Write(frame, n + 7, [view.ttl])
  }

  predicate CarriesForwardMarks(frame: Bytes, view: View, d: Direction)
    requires view.ttl > 0
  {
    var at := view.networkOffset + if view.tuple.family == FAMILY_IPV4 then 8 else 7;
    && at < |frame| && frame[at] == view.ttl - 1
    && 12 <= |frame| && frame[..6] == d.outputDestinationMac && frame[6..12] == d.outputSourceMac
  }

  function RestoreForwarded(frame: Bytes, view: View, d: Direction): (r: Result<Bytes>) {
    if !EditValid(frame, view, d) || view.ttl == 0 then Err(EBADMSG)
    else if view.tuple.family != FAMILY_IPV4 && view.tuple.family != FAMILY_IPV6 then Err(EPROTONOSUPPORT)
    else if !CarriesForwardMarks(frame, view, d) then Err(EBADMSG)
    else
      var received :- UndoHopLimit(frame, view);
      Restore(received, view, d)
  }
}
