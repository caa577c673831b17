/**
  The packet editor as it runs: decoding loops over the frame, and edits that
  write the frame's array in place. Each refines the function it is named after;
  a failed edit of a decoded frame writes nothing.
*/
module PacketInPlace {
  import opened Wire
  import opened Checksum
  import opened Packet
  import opened PacketEdit
  import opened RestoreValues
  import opened ForwardTheorems

  method SkipVlanTags(frame: Bytes, outer: word) returns (r: Result<(nat, word)>)
    requires 14 <= |frame|
    ensures r == SkipVlans(frame, 14, outer, 0)
  {
    var offset, etherType, count := 14, outer, 0;
    while IsVlan(etherType)
      invariant offset <= |frame| && count <= MAX_VLAN_HEADERS
      invariant SkipVlans(frame, offset, etherType, count) == SkipVlans(frame, 14, outer, 0)
      decreases MAX_VLAN_HEADERS - count
    {
      if count == MAX_VLAN_HEADERS {
        return Err(EBADMSG);
      }
      var tag := ReadRange(frame, offset, 4);
      if tag.None? {
        return Err(EBADMSG);
      }
      etherType := Word(tag.value[2], tag.value[3]);
      offset, count := offset + 4, count + 1;
    }
    return Ok((offset, etherType));
  }

  method WalkExtensionHeaders(network: Bytes, limit: nat) returns (r: Result<Chain>)
    requires 40 <= limit <= |network|
    ensures r == WalkExtensions(network, limit, FirstHeader(network))
  {
    var chain := FirstHeader(network);
    while chain.budget > 0
      invariant chain.headerLength <= limit
      invariant WalkExtensions(network, limit, chain) == WalkExtensions(network, limit, FirstHeader(network))
      decreases chain.budget
    {
      if !IsExtension(chain.protocol) {
        break;
      }
      var next := Extend(network, limit, chain);
      if next.Err? {
        return Err(next.code);
      }
      if next.value.noninitialFragment {
        return next;
      }
      chain := next.value;
    }
    return Ok(chain);
  }

  /** Decoding with the source's two loops. */
  method DecodeFrame(frame: Bytes) returns (r: Result<View>)
    ensures r == Decode(frame)
    ensures r.Ok? ==> Located(frame, r.value)
  {
    if |frame| < 14 {
      return Err(EBADMSG);
    }
    var outer := Word(frame[12], frame[13]);
    var skipped := SkipVlanTags(frame, outer);
    if skipped.Err? {
      return Err(skipped.code);
    }
    var (offset, inner) := skipped.value;
    var network := frame[offset..];
    var net: Result<Network>;
    if inner == 0x86dd && |network| >= 40 && network[0] / 16 == 6 {
      var limit := Min(40 + Word(network[4], network[5]), |network|);
      var chain := WalkExtensionHeaders(network, limit);
      net := if chain.Err? then Err(chain.code) else Ok(Ipv6Network(network, chain.value));
    } else {
      net := DecodeNetwork(network, inner);
    }
    if net.Err? {
      return Err(net.code);
    }
    return DecodeTransport(frame, outer, offset, net.value);
  }

  method WriteMacs(frame: array<byte>, destination: Mac, source: Mac) returns (r: Result<()>)
    modifies frame
    ensures r.Ok? <==> 12 <= frame.Length
    ensures r.Ok? ==> SetMacs(old(frame[..]), destination, source) == Ok(frame[..])
    ensures r.Err? ==> r.code == EBADMSG
  {
    r := WriteInPlace(frame, 0, destination);
    if r.Ok? {
      r := WriteInPlace(frame, 6, source);
    }
  }

  method WriteChecksumsInPlace(frame: array<byte>, n: nat, checksum: word, transport: Option<(nat, word)>)
    returns (r: Result<()>)
    modifies frame
    ensures r.Ok? ==> WriteChecksums(old(frame[..]), n, checksum, transport) == Ok(frame[..])
    ensures r.Err? ==> WriteChecksums(old(frame[..]), n, checksum, transport) == Err(r.code)
  {
    r := WriteInPlace(frame, n + 10, Octets(checksum));
    if r.Ok? && transport.Some? {
      r := WriteInPlace(frame, transport.value.0, Octets(transport.value.1));
    }
  }

  method WriteEndpointsInPlace(frame: array<byte>, n: nat, ports: Option<nat>, original: Tuple)
    returns (r: Result<()>)
    modifies frame
    ensures r.Ok? ==> WriteEndpoints(old(frame[..]), n, ports, original) == Ok(frame[..])
    ensures r.Err? ==> WriteEndpoints(old(frame[..]), n, ports, original) == Err(r.code)
  {
    r := WriteInPlace(frame, n + 12, original.source[..4]);
    if r.Ok? {
      r := WriteInPlace(frame, n + 16, original.destination[..4]);
    }
    if r.Ok? && ports.Some? {
      r := WriteInPlace(frame, ports.value, PortOctets(original));
    }
  }

  method RestoreIpv4InPlace(frame: array<byte>, view: View, d: Direction) returns (r: Result<()>)
    modifies frame
    ensures r.Ok? ==> RestoreIpv4(old(frame[..]), view, d) == Ok(frame[..])
    ensures r.Err? ==> RestoreIpv4(old(frame[..]), view, d) == Err(r.code)
  {
    hide ReadWord, InverseTransportChecksum, ReplaceAddresses, WriteChecksums, WriteEndpoints;
    var n := view.networkOffset;
    var previous := ReadWord(frame[..], n + 10);
    if previous.None? {
      return Err(EBADMSG);
    }
    var transport := InverseTransportChecksum(frame[..], view, d);
    if transport.Err? {
      return Err(transport.code);
    }
    r := WriteChecksumsInPlace(frame, n, ReplaceAddresses(previous.value, d), transport.value);
    if r.Ok? {
      r := WriteEndpointsInPlace(frame, n, PortsAt(view), d.original);
    }
  }

  method RestoreInPlace(frame: array<byte>, view: View, d: Direction) returns (r: Result<()>)
    modifies frame
    ensures r.Ok? ==> Restore(old(frame[..]), view, d) == Ok(frame[..])
    ensures r.Err? ==> Restore(old(frame[..]), view, d) == Err(r.code)
    ensures Located(old(frame[..]), view) ==> (r.Ok? <==> SameFamily(view, d))
    ensures Located(old(frame[..]), view) && r.Err? ==> frame[..] == old(frame[..])
  {
    hide RestoreIpv4, Write, SetMacs, IsRestored;
    if Located(frame[..], view) && SameFamily(view, d) {
      RestoreRegions(frame[..], view, d);
    }
    if !EditValid(frame[..], view, d) {
      return Err(EBADMSG);
    }
    if view.tuple.family == FAMILY_IPV4 {
      r := RestoreIpv4InPlace(frame, view, d);
    } else if view.tuple.family == FAMILY_IPV6 {
      r := WriteInPlace(frame, view.networkOffset + 8, d.original.source);
      if r.Ok? {
        r := WriteInPlace(frame, view.networkOffset + 24, d.original.destination);
      }
    } else {
      return Err(EPROTONOSUPPORT);
    }
    if r.Ok? {
      r := WriteMacs(frame, d.originalDestinationMac, d.originalSourceMac);
    }
  }

  method SetHopLimitInPlace(frame: array<byte>, view: View, ttl: byte) returns (r: Result<()>)
    modifies frame
    ensures r.Ok? ==> SetHopLimit(old(frame[..]), view, ttl) == Ok(frame[..])
    ensures r.Err? ==> SetHopLimit(old(frame[..]), view, ttl) == Err(r.code)
  {
    hide Octets, Replaced, ReadRange, ReadWord, Write;
    var n := view.networkOffset;
    if view.tuple.family == FAMILY_IPV4 {
      var before := ReadRange(frame[..], n + 8, 2);
      var previous := ReadWord(frame[..], n + 10);
      if before.None? || previous.None? {
        return Err(EBADMSG);
      }
      var checksum := ChecksumReplace(previous.value, before.value, [ttl, view.tuple.protocol]);
      r := WriteInPlace(frame, n + 10, Octets(checksum.value));
      if r.Ok? {
        r := WriteInPlace(frame, n + 8, [ttl]);
      }
    } else if view.tuple.family == FAMILY_IPV6 {
      r := WriteInPlace(frame, n + 7, [ttl]);
    } else {
      return Err(EPROTONOSUPPORT);
    }
  }

  method ForwardInPlace(frame: array<byte>, view: View, d: Direction) returns (r: Result<()>)
    modifies frame
    ensures r.Ok? ==> Forward(old(frame[..]), view, d) == Ok(frame[..])
    ensures r.Err? ==> Forward(old(frame[..]), view, d) == Err(r.code)
    ensures Located(old(frame[..]), view) ==> (r.Ok? <==> SameFamily(view, d) && view.ttl > 0)
    ensures Located(old(frame[..]), view) && r.Err? ==> frame[..] == old(frame[..])
  {
    hide SetHopLimit, SetMacs, IsForwarded;
    if Located(frame[..], view) && SameFamily(view, d) && view.ttl > 0 {
      ForwardValue(frame[..], view, d);
    }
    if !EditValid(frame[..], view, d) || view.ttl == 0 {
      return Err(EBADMSG);
    }
    r := SetHopLimitInPlace(frame, view, view.ttl - 1);
    if r.Ok? {
      r := WriteMacs(frame, d.outputDestinationMac, d.outputSourceMac);
    }
  }

  method RestoreForwardedInPlace(frame: array<byte>, view: View, d: Direction) returns (r: Result<()>)
    modifies frame
    ensures r.Ok? ==> RestoreForwarded(old(frame[..]), view, d) == Ok(frame[..])
    ensures r.Err? ==> RestoreForwarded(old(frame[..]), view, d) == Err(r.code)
    ensures Located(old(frame[..]), view) && r.Err? ==> frame[..] == old(frame[..])
  {
    hide Write, Octets, Restore, CarriesForwardMarks;
    var n := view.networkOffset;
    if !EditValid(frame[..], view, d) || view.ttl == 0 {
      return Err(EBADMSG);
    }
    if view.tuple.family != FAMILY_IPV4 && view.tuple.family != FAMILY_IPV6 {
      return Err(EPROTONOSUPPORT);
    }
    if !CarriesForwardMarks(frame[..], view, d) {
      return Err(EBADMSG);
    }
    r := WriteInPlace(frame, n + if view.tuple.family == FAMILY_IPV4 then 8 else 7, [view.ttl]);
    if r.Ok? && view.tuple.family == FAMILY_IPV4 {
      r := WriteInPlace(frame, n + 10, Octets(view.ipv4Checksum));
    }
    if r.Ok? {
      r := RestoreInPlace(frame, view, d);
    }
  }
}
