/**
  What decoding depends on. A view splits into a shape, read from the EtherType
  chain, the IP header's lengths, flags and protocol and the extension chain,
  and plain field reads at the offsets that shape fixes.
*/
module PacketShape {
  import opened Wire
  import opened Checksum
  import opened Packet

  ghost predicate Agree(f: Bytes, g: Bytes, from: nat, to: nat) {
    |f| == |g| && to <= |f| && forall i :: from <= i < to ==> f[i] == g[i]
  }

  lemma AgreeSlice(f: Bytes, g: Bytes, from: nat, to: nat, a: nat, b: nat)
    requires Agree(f, g, from, to) && from <= a <= b <= to
    ensures f[a..b] == g[a..b]
  {
  }

  lemma DecodedIpv4Header(frame: Bytes)
    requires Decode(frame).Ok? && Decode(frame).value.tuple.family == FAMILY_IPV4
    ensures var v := Decode(frame).value;
            frame[v.networkOffset] > 0 && frame[v.networkOffset + 9] == v.tuple.protocol
  {
  }

  /** The octets that determine a view's shape are the same in both frames. */
  ghost predicate SameShape(f: Bytes, g: Bytes, v: View) {
    var n := v.networkOffset;
    && Located(f, v)
    && Agree(f, g, 12, n)
    && (if v.tuple.family == FAMILY_IPV4 then Agree(f, g, n, n + 8) && f[n + 9] == g[n + 9]
        else Agree(f, g, n, n + 7) && Agree(f, g, n + 40, n + v.ipHeaderLength))
  }

  ghost function AddressAt(frame: Bytes, v: View, destination: bool): Address
    requires Located(frame, v)
  {
    var n := v.networkOffset;
    if v.tuple.family == FAMILY_IPV4 then
      Ipv4Address(if destination then frame[n + 16..n + 20] else frame[n + 12..n + 16])
    else if destination then frame[n + 24..n + 40] else frame[n + 8..n + 24]
  }

  ghost function WordAt(frame: Bytes, v: View, at: nat): word
    requires Located(frame, v)
    requires v.ports ==> at <= 2
  {
    if v.ports then Word(frame[v.transportOffset + at], frame[v.transportOffset + at + 1]) else 0
  }

  /** The view of a frame of known shape: every other field is a plain read. */
  ghost function Reread(frame: Bytes, v: View): View
    requires Located(frame, v)
  {
    var n := v.networkOffset;
    var ipv4 := v.tuple.family == FAMILY_IPV4;
    v.(destinationMac := frame[0..6], sourceMac := frame[6..12],
       ttl := if ipv4 then frame[n + 8] else frame[n + 7],
       ipv4Checksum := if ipv4 then Word(frame[n + 10], frame[n + 11]) else 0,
       flags := if !v.noninitialFragment && v.tuple.protocol == PROTOCOL_TCP && v.transportLength >= 20
                then frame[v.transportOffset + 13] else 0,
       tuple := v.tuple.(source := AddressAt(frame, v, false), destination := AddressAt(frame, v, true),
                         sourcePort := WordAt(frame, v, 0), destinationPort := WordAt(frame, v, 2)))
  }

  lemma {:induction false} SkipVlansSame(f: Bytes, g: Bytes, offset: nat, etherType: word, count: nat)
    requires count <= MAX_VLAN_HEADERS && offset <= |f|
    requires SkipVlans(f, offset, etherType, count).Ok?
    requires Agree(f, g, offset, SkipVlans(f, offset, etherType, count).value.0)
    ensures SkipVlans(g, offset, etherType, count) == SkipVlans(f, offset, etherType, count)
    decreases MAX_VLAN_HEADERS - count
  {
    if IsVlan(etherType) {
      SkipVlansSame(f, g, offset + 4, Word(f[offset + 2], f[offset + 3]), count + 1);
    }
  }

  lemma {:induction false} WalkSame(f: Bytes, g: Bytes, limit: nat, chain: Chain)
    requires limit <= |f| && chain.headerLength <= limit
    requires WalkExtensions(f, limit, chain).Ok?
    requires Agree(f, g, chain.headerLength, WalkExtensions(f, limit, chain).value.headerLength)
    ensures WalkExtensions(g, limit, chain) == WalkExtensions(f, limit, chain)
    decreases chain.budget
  {
    if chain.budget > 0 && IsExtension(chain.protocol) {
      var next := Extend(f, limit, chain).value;
      assert Extend(g, limit, chain) == Ok(next);
      if !next.noninitialFragment {
        WalkSame(f, g, limit, next);
      }
    }
  }

  lemma DecodeIpv4Same(f: Bytes, g: Bytes)
    requires DecodeIpv4(f).Ok? && Agree(f, g, 0, 8) && f[9] == g[9]
    ensures DecodeIpv4(g) == Ok(DecodeIpv4(f).value.(
                                source := Ipv4Address(g[12..16]), destination := Ipv4Address(g[16..20]),
                                ttl := g[8], checksum := Word(g[10], g[11])))
  {
  }

  lemma Ipv6NetworkSame(f: Bytes, g: Bytes, chain: Chain)
    requires |f| == |g| >= 40
    requires f[0] == g[0] && f[1] == g[1] && f[2] == g[2] && f[3] == g[3] && f[4] == g[4] && f[5] == g[5]
    ensures Ipv6Network(g, chain)
            == Ipv6Network(f, chain).(source := g[8..24], destination := g[24..40], ttl := g[7])
  {
  }

  lemma DecodeIpv6Same(f: Bytes, g: Bytes)
    requires DecodeIpv6(f).Ok? && Agree(f, g, 0, 7) && Agree(f, g, 40, DecodeIpv6(f).value.headerLength)
    ensures DecodeIpv6(g) == Ok(DecodeIpv6(f).value.(source := g[8..24], destination := g[24..40], ttl := g[7]))
  {
    var limit := Min(40 + Word(f[4], f[5]), |f|);
    WalkSame(f, g, limit, FirstHeader(f));
    Ipv6NetworkSame(f, g, WalkExtensions(f, limit, FirstHeader(f)).value);
  }

  lemma DecodeNetworkSame(f: Bytes, g: Bytes, v: View, etherType: word)
    requires SameShape(f, g, v) && DecodeNetwork(f[v.networkOffset..], etherType).Ok?
    requires v.tuple.family == DecodeNetwork(f[v.networkOffset..], etherType).value.family
    requires v.ipHeaderLength == DecodeNetwork(f[v.networkOffset..], etherType).value.headerLength
    ensures var n := v.networkOffset;
            var net := DecodeNetwork(f[n..], etherType).value;
            var ipv4 := v.tuple.family == FAMILY_IPV4;
            DecodeNetwork(g[n..], etherType)
            == Ok(net.(source := AddressAt(g, v, false), destination := AddressAt(g, v, true),
                       ttl := if ipv4 then g[n + 8] else g[n + 7],
                       checksum := if ipv4 then Word(g[n + 10], g[n + 11]) else 0))
  {
    var n := v.networkOffset;
    if etherType == 0x0800 {
      DecodeIpv4Same(f[n..], g[n..]);
      assert g[n..][12..16] == g[n + 12..n + 16] && g[n..][16..20] == g[n + 16..n + 20];
    } else {
      DecodeIpv6Same(f[n..], g[n..]);
      assert g[n..][8..24] == g[n + 8..n + 24] && g[n..][24..40] == g[n + 24..n + 40];
    }
  }

  lemma DecodeTransportSame(f: Bytes, g: Bytes, outer: word, offset: nat, net: Network, net': Network)
    requires |f| == |g| && 14 <= offset <= |f| && NetworkDecoded(net, |f| - offset)
    requires DecodeTransport(f, outer, offset, net).Ok?
    requires net' == net.(source := net'.source, destination := net'.destination, ttl := net'.ttl,
                          checksum := net'.checksum)
    requires var v := DecodeTransport(f, outer, offset, net).value;
             var ipv4 := net.family == FAMILY_IPV4;
             && net'.source == AddressAt(g, v, false) && net'.destination == AddressAt(g, v, true)
             && net'.ttl == (if ipv4 then g[offset + 8] else g[offset + 7])
             && net'.checksum == if ipv4 then Word(g[offset + 10], g[offset + 11]) else 0
    ensures DecodeTransport(g, outer, offset, net') == Ok(Reread(g, DecodeTransport(f, outer, offset, net).value))
  {
  }

  /** Decoding a frame of the same shape gives the same view with its fields read again. */
  lemma DecodeReread(f: Bytes, g: Bytes)
    requires Decode(f).Ok?
    requires SameShape(f, g, Decode(f).value)
    ensures Decode(g) == Ok(Reread(g, Decode(f).value))
  {
    var v := Decode(f).value;
    var outer := Word(f[12], f[13]);
    var (n, inner) := SkipVlans(f, 14, outer, 0).value;
    SkipVlansSame(f, g, 14, outer, 0);
    var net := DecodeNetwork(f[n..], inner).value;
    DecodeNetworkSame(f, g, v, inner);
    var net' := DecodeNetwork(g[n..], inner).value;
    DecodeTransportSame(f, g, outer, n, net, net');
  }

  /** The sum of an option-free IPv4 header by fields. */
  lemma HeaderSum(f: Bytes, n: nat)
    requires n + 20 <= |f|
    ensures WordSum(f[n..n + 20]) == WordSum(f[n..n + 8]) + Word(f[n + 8], f[n + 9]) + Word(f[n + 10], f[n + 11])
                                     + WordSum(f[n + 12..n + 16]) + WordSum(f[n + 16..n + 20])
    ensures f[n] > 0 ==> WordSum(f[n..n + 20]) > 0
  {
    var rest := f[n + 8..n + 20];
    assert f[n..n + 20] == f[n..n + 8] + rest;
    WordSumConcat(f[n..n + 8], rest);
    assert rest[2..] == f[n + 10..n + 20] && rest[2..][2..] == f[n + 12..n + 20];
    assert f[n + 12..n + 20] == f[n + 12..n + 16] + f[n + 16..n + 20];
    WordSumConcat(f[n + 12..n + 16], f[n + 16..n + 20]);
    if f[n] > 0 {
      assert f[n..n + 20][0] > 0;
      WordSumZero(f[n..n + 20]);
    }
  }
}
