/** The frame `restore` produces, region by region, for every decoded frame. */
module RestoreValues {
  import opened Wire
  import opened Checksum
  import opened Packet
  import opened PacketShape
  import opened PacketEdit

  ghost predicate SameFamily(v: View, d: Direction) {
    d.original.family == v.tuple.family && d.translated.family == v.tuple.family
  }

  ghost function WordIn(f: Bytes, at: nat): word
    requires at + 2 <= |f|
  {
    Word(f[at], f[at + 1])
  }

  ghost function HeaderChecksum(f: Bytes, v: View, d: Direction): word
    requires Located(f, v) && v.tuple.family == FAMILY_IPV4
  {
    ReplaceAddresses(WordIn(f, v.networkOffset + 10), d)
  }

  /**
    Where a transport of this length carries its checksum: octets 16 and 17 of a
    TCP segment (section 3.1 of RFC 9293), octets 6 and 7 of a UDP datagram (RFC 768).
  */
  ghost function ChecksumPlace(v: View): Option<nat> {
    if v.tuple.protocol == PROTOCOL_TCP then if v.transportLength < 18 then None else Some(16)
    else if v.transportLength < 8 then None else Some(6)
  }

  /** The edit looks for the checksum where the transport carries it. */
  lemma FieldIsPlace(f: Bytes, v: View)
    requires Located(f, v)
    ensures ChecksumField(v) == ChecksumPlace(v)
  {
  }

  lemma TransportChecksumTotal(f: Bytes, v: View, d: Direction)
    requires Located(f, v)
    ensures InverseTransportChecksum(f, v, d).Ok?
    ensures var r := InverseTransportChecksum(f, v, d).value;
            r.Some? ==> && v.ports && ChecksumPlace(v).Some?
                        && r.value.0 == v.transportOffset + ChecksumPlace(v).value
                        && r.value.0 + 2 <= v.transportOffset + v.transportLength
  {
  }

  /** The transport checksum a restored frame carries. */
  ghost function TransportChecksumAfter(f: Bytes, v: View, d: Direction): word
    requires Located(f, v) && v.ports && ChecksumPlace(v).Some?
  {
    TransportChecksumTotal(f, v, d);
    var r := InverseTransportChecksum(f, v, d).value;
    if r.Some? then r.value.1 else WordIn(f, v.transportOffset + ChecksumPlace(v).value)
  }

  // Each write by regions.

  lemma SetMacsValue(f: Bytes, destination: Mac, source: Mac)
    requires 12 <= |f|
    ensures SetMacs(f, destination, source).Ok?
    ensures var g := SetMacs(f, destination, source).value;
            g[..6] == destination && g[6..12] == source && Agree(f, g, 12, |f|)
  {
    var f1 := Write(f, 0, destination).value;
    var g := SetMacs(f, destination, source).value;
    assert f1[..6] == destination;
    assert g[..6] == f1[..6] && g[6..12] == source;
  }

  ghost predicate ChecksumsWritten(f: Bytes, g: Bytes, n: nat, checksum: word, transport: Option<(nat, word)>)
    requires n + 12 <= |f| && (transport.Some? ==> n + 12 <= transport.value.0 && transport.value.0 + 2 <= |f|)
  {
    var end := if transport.Some? then transport.value.0 else |f|;
    && |g| == |f| && Agree(f, g, 0, n + 10) && WordIn(g, n + 10) == checksum && Agree(f, g, n + 12, end)
    && (transport.Some? ==> WordIn(g, end) == transport.value.1 && Agree(f, g, end + 2, |f|))
  }

  lemma WriteChecksumsValue(f: Bytes, n: nat, checksum: word, transport: Option<(nat, word)>)
    requires n + 12 <= |f| && (transport.Some? ==> n + 12 <= transport.value.0 && transport.value.0 + 2 <= |f|)
    ensures WriteChecksums(f, n, checksum, transport).Ok?
    ensures ChecksumsWritten(f, WriteChecksums(f, n, checksum, transport).value, n, checksum, transport)
  {
  }

  ghost predicate EndpointsWritten(f: Bytes, g: Bytes, n: nat, ports: Option<nat>, original: Tuple)
    requires n + 20 <= |f| && (ports.Some? ==> n + 20 <= ports.value && ports.value + 4 <= |f|)
  {
    var end := if ports.Some? then ports.value else |f|;
    && |g| == |f| && Agree(f, g, 0, n + 12) && Agree(f, g, n + 20, end)
    && g[n + 12..n + 16] == original.source[..4] && g[n + 16..n + 20] == original.destination[..4]
    && (ports.Some? ==> g[end..end + 4] == PortOctets(original) && Agree(f, g, end + 4, |f|))
  }

  lemma WriteEndpointsValue(f: Bytes, n: nat, ports: Option<nat>, original: Tuple)
    requires n + 20 <= |f| && (ports.Some? ==> n + 20 <= ports.value && ports.value + 4 <= |f|)
    ensures WriteEndpoints(f, n, ports, original).Ok?
    ensures EndpointsWritten(f, WriteEndpoints(f, n, ports, original).value, n, ports, original)
  {
    var f1 := Write(f, n + 12, original.source[..4]).value;
    var f2 := Write(f1, n + 16, original.destination[..4]).value;
    assert f1[n + 12..n + 16] == original.source[..4];
    assert f2[n + 12..n + 16] == f1[n + 12..n + 16] && f2[n + 16..n + 20] == original.destination[..4];
    if ports.Some? {
      var g := Write(f2, ports.value, PortOctets(original)).value;
      assert g[n + 12..n + 16] == f2[n + 12..n + 16] && g[n + 16..n + 20] == f2[n + 16..n + 20];
    }
  }

  lemma WriteIpv6Value(f: Bytes, v: View, d: Direction)
    requires v.networkOffset + 40 <= |f|
    ensures RestoreIpv6(f, v, d).Ok?
    ensures var n, g := v.networkOffset, RestoreIpv6(f, v, d).value;
            && |g| == |f| && Agree(f, g, 0, n + 8) && Agree(f, g, n + 40, |f|)
            && g[n + 8..n + 24] == d.original.source && g[n + 24..n + 40] == d.original.destination
  {
    var n := v.networkOffset;
    var f1 := Write(f, n + 8, d.original.source).value;
    var g := RestoreIpv6(f, v, d).value;
    assert f1[n + 8..n + 24] == d.original.source;
    assert g[n + 8..n + 24] == f1[n + 8..n + 24];
  }

  // The whole restoration.

  ghost predicate RestoredIpv4Header(f: Bytes, g: Bytes, v: View, d: Direction)
    requires Located(f, v) && v.tuple.family == FAMILY_IPV4 && |g| == |f|
  {
    var n := v.networkOffset;
    && Agree(f, g, 12, n + 10) && WordIn(g, n + 10) == HeaderChecksum(f, v, d)
    && g[n + 12..n + 16] == d.original.source[..4] && g[n + 16..n + 20] == d.original.destination[..4]
    && Agree(f, g, n + 20, v.transportOffset)
  }

  /** The restored transport: ports and checksum are new, the payload is kept. */
  ghost predicate RestoredTransport(f: Bytes, g: Bytes, v: View, d: Direction)
    requires Located(f, v) && |g| == |f|
  {
    var t := v.transportOffset;
    if !v.ports then Agree(f, g, t, |f|)
    else
      && g[t..t + 4] == PortOctets(d.original)
      && if ChecksumPlace(v).None? then Agree(f, g, t + 4, |f|)
         else
           var c := t + ChecksumPlace(v).value;
           && Agree(f, g, t + 4, c) && Agree(f, g, c + 2, |f|)
           && WordIn(g, c) == TransportChecksumAfter(f, v, d)
  }

  ghost predicate RestoredIpv6(f: Bytes, g: Bytes, v: View, d: Direction)
    requires Located(f, v) && v.tuple.family == FAMILY_IPV6 && |g| == |f|
  {
    var n := v.networkOffset;
    && Agree(f, g, 12, n + 8) && Agree(f, g, n + 40, |f|)
    && g[n + 8..n + 24] == d.original.source && g[n + 24..n + 40] == d.original.destination
  }

  ghost predicate RestoredNetwork(f: Bytes, g: Bytes, v: View, d: Direction)
    requires Located(f, v)
  {
    && |g| == |f|
    && if v.tuple.family == FAMILY_IPV4 then RestoredIpv4Header(f, g, v, d) && RestoredTransport(f, g, v, d)
       else RestoredIpv6(f, g, v, d)
  }

  ghost predicate IsRestored(f: Bytes, g: Bytes, v: View, d: Direction)
    requires Located(f, v)
  {
    && RestoredNetwork(f, g, v, d)
    && g[..6] == d.originalDestinationMac && g[6..12] == d.originalSourceMac
  }

  lemma RestoredHeaderSteps(f: Bytes, h: Bytes, g: Bytes, v: View, d: Direction, transport: Option<(nat, word)>)
    requires Located(f, v) && v.tuple.family == FAMILY_IPV4
    requires transport.Some? ==> v.transportOffset <= transport.value.0 && transport.value.0 + 2 <= |f|
    requires ChecksumsWritten(f, h, v.networkOffset, HeaderChecksum(f, v, d), transport)
    requires EndpointsWritten(h, g, v.networkOffset, PortsAt(v), d.original)
    ensures RestoredIpv4Header(f, g, v, d)
  {
  }

  lemma RestoredTransportSteps(f: Bytes, h: Bytes, g: Bytes, v: View, d: Direction, checksum: word,
                               transport: Option<(nat, word)>)
    requires Located(f, v) && v.tuple.family == FAMILY_IPV4
    requires InverseTransportChecksum(f, v, d) == Ok(transport)
    requires transport.Some? ==> && v.ports && ChecksumPlace(v).Some?
                                 && transport.value.0 == v.transportOffset + ChecksumPlace(v).value
                                 && transport.value.0 + 2 <= |f|
    requires ChecksumsWritten(f, h, v.networkOffset, checksum, transport)
    requires EndpointsWritten(h, g, v.networkOffset, PortsAt(v), d.original)
    ensures RestoredTransport(f, g, v, d)
  {
  }

  lemma RestoreIpv4Value(f: Bytes, v: View, d: Direction)
    requires Located(f, v) && v.tuple.family == FAMILY_IPV4
    ensures RestoreIpv4(f, v, d).Ok? && RestoredNetwork(f, RestoreIpv4(f, v, d).value, v, d)
  {
    TransportChecksumTotal(f, v, d);
    var transport := InverseTransportChecksum(f, v, d).value;
    WriteChecksumsValue(f, v.networkOffset, HeaderChecksum(f, v, d), transport);
    var h := WriteChecksums(f, v.networkOffset, HeaderChecksum(f, v, d), transport).value;
    WriteEndpointsValue(h, v.networkOffset, PortsAt(v), d.original);
    var g := WriteEndpoints(h, v.networkOffset, PortsAt(v), d.original).value;
    RestoredHeaderSteps(f, h, g, v, d, transport);
    RestoredTransportSteps(f, h, g, v, d, HeaderChecksum(f, v, d), transport);
  }

  lemma RestoredThroughMacs(f: Bytes, h: Bytes, g: Bytes, v: View, d: Direction)
    requires Located(f, v) && RestoredNetwork(f, h, v, d) && Agree(h, g, 12, |f|)
    ensures RestoredNetwork(f, g, v, d)
  {
    hide HeaderChecksum, TransportChecksumAfter, PortOctets;
    var n, t := v.networkOffset, v.transportOffset;
    if v.tuple.family == FAMILY_IPV4 {
      assert g[n + 12..n + 16] == h[n + 12..n + 16] && g[n + 16..n + 20] == h[n + 16..n + 20];
      if v.ports {
        assert g[t..t + 4] == h[t..t + 4];
      }
    } else {
      assert g[n + 8..n + 24] == h[n + 8..n + 24] && g[n + 24..n + 40] == h[n + 24..n + 40];
    }
  }

  /** `restore` cannot fail on a decoded frame with a direction of its family. */
  lemma RestoreRegions(f: Bytes, v: View, d: Direction)
    requires Located(f, v) && SameFamily(v, d)
    ensures Restore(f, v, d).Ok? && IsRestored(f, Restore(f, v, d).value, v, d)
  {
    if v.tuple.family == FAMILY_IPV4 {
      RestoreIpv4Value(f, v, d);
    } else {
      WriteIpv6Value(f, v, d);
    }
    var h := if v.tuple.family == FAMILY_IPV4 then RestoreIpv4(f, v, d).value else RestoreIpv6(f, v, d).value;
    assert RestoredNetwork(f, h, v, d);
    SetMacsValue(h, d.originalDestinationMac, d.originalSourceMac);
    RestoredThroughMacs(f, h, SetMacs(h, d.originalDestinationMac, d.originalSourceMac).value, v, d);
  }

  lemma InverseReadsTransport(f: Bytes, h: Bytes, v: View, d: Direction)
    requires Located(f, v) && Agree(f, h, v.transportOffset, |f|)
    ensures InverseTransportChecksum(f, v, d) == InverseTransportChecksum(h, v, d)
  {
    var t := v.transportOffset;
    if v.ports {
      assert f[t..t + 4] == h[t..t + 4];
    }
  }

  /** Restoring reads nothing before the EtherType. */
  lemma RestoreIgnoresMacs(f: Bytes, h: Bytes, v: View, d: Direction)
    requires Located(f, v) && SameFamily(v, d) && Agree(f, h, 12, |f|)
    ensures Restore(f, v, d) == Restore(h, v, d)
  {
    RestoreRegions(f, v, d);
    RestoreRegions(h, v, d);
    InverseReadsTransport(f, h, v, d);
    RestoredUnique(f, h, Restore(f, v, d).value, Restore(h, v, d).value, v, d);
  }

  lemma RestoredUnique(f: Bytes, h: Bytes, a: Bytes, b: Bytes, v: View, d: Direction)
    requires Located(f, v) && Agree(f, h, 12, |f|)
    requires InverseTransportChecksum(f, v, d) == InverseTransportChecksum(h, v, d)
    requires IsRestored(f, a, v, d) && IsRestored(h, b, v, d)
    ensures a == b
  {
    hide InverseTransportChecksum, ReplaceAddresses;
    var n, t := v.networkOffset, v.transportOffset;
    SliceAgree(a, b, 0, 6);
    SliceAgree(a, b, 6, 12);
    if v.tuple.family == FAMILY_IPV4 {
      SliceAgree(a, b, n + 12, n + 16);
      SliceAgree(a, b, n + 16, n + 20);
      TransportUnique(f, h, a, b, v, d);
    } else {
      SliceAgree(a, b, n + 8, n + 24);
      SliceAgree(a, b, n + 24, n + 40);
    }
    assert Agree(a, b, 0, |a|);
  }

  lemma TransportUnique(f: Bytes, h: Bytes, a: Bytes, b: Bytes, v: View, d: Direction)
    requires Located(f, v) && Agree(f, h, 12, |f|)
    requires InverseTransportChecksum(f, v, d) == InverseTransportChecksum(h, v, d)
    requires |a| == |f| == |b| && RestoredTransport(f, a, v, d) && RestoredTransport(h, b, v, d)
    ensures Agree(a, b, v.transportOffset, |a|)
  {
    hide InverseChecksum, ReplaceAddresses;
    var t := v.transportOffset;
    if v.ports {
      SliceAgree(a, b, t, t + 4);
    }
  }

  lemma SliceAgree(o: Bytes, g: Bytes, a: nat, b: nat)
    requires |o| == |g| && a <= b <= |o| && o[a..b] == g[a..b]
    ensures Agree(o, g, a, b)
  {
    forall i | a <= i < b ensures o[i] == g[i] {
      assert o[i] == o[a..b][i - a] && g[i] == g[a..b][i - a];
    }
  }
}
