/**
  Inverse NAT between packets with right checksums: whatever IPv4 packet the peer
  sent, `restore` makes it of the translated packet that arrived.
*/
module SegmentTheorems {
  import opened Wire
  import opened Checksum
  import opened Packet
  import opened PacketShape
  import opened PacketBuild
  import opened PacketEdit
  import opened RestoreValues
  import opened ForwardTheorems
  import opened Directions
  import opened NatTheorems
  import opened SegmentBuild

  /** An IPv4 frame by the parts that inverse NAT tells apart. */
  datatype Parts = Parts(front: Bytes, header: word, source: Bytes, destination: Bytes, options: Bytes,
                         ports: Bytes, middle: Bytes, transport: word, tail: Bytes)
  {
    predicate Valid() {
      |source| == 4 && |destination| == 4 && |ports| == 4
    }

    function Octets1(): Bytes {
      ports + (middle + (Octets(transport) + tail))
    }

    function Octets2(): Bytes {
      source + (destination + (options + Octets1()))
    }

    function Frame(): Bytes {
      front + (Octets(header) + Octets2())
    }
  }

  /** Everything but addresses, ports and checksums is the same. */
  predicate Twins(a: Parts, b: Parts) {
    && a.front == b.front && a.options == b.options && a.middle == b.middle && a.tail == b.tail
    && a.Valid() && b.Valid()
  }

  lemma PartsAt(a: Parts)
    requires a.Valid()
    ensures var f, n := a.Frame(), |a.front|;
            var t := n + 10 + |a.options|;
            var c := t + 4 + |a.middle|;
            && |f| == c + 2 + |a.tail|
            && f[..n] == a.front && f[n..n + 2] == Octets(a.header)
            && f[n + 2..n + 6] == a.source && f[n + 6..n + 10] == a.destination && f[n + 10..t] == a.options
            && f[t..t + 4] == a.ports && f[t + 4..c] == a.middle && f[c..c + 2] == Octets(a.transport)
            && f[c + 2..] == a.tail
  {
    hide Octets, Parts.Octets1, Parts.Octets2;
    var f, n := a.Frame(), |a.front|;
    assert f[0..] == f;
    Next(f, 0, a.front, Octets(a.header) + a.Octets2());
    Next(f, n, Octets(a.header), a.Octets2());
    NetworkPartsAt(a, f, n + 2);
    TransportPartsAt(a, f, n + 10 + |a.options|);
  }

  lemma NetworkPartsAt(a: Parts, f: Bytes, n: nat)
    requires a.Valid() && n <= |f| && f[n..] == a.Octets2()
    ensures n + 8 + |a.options| <= |f| && f[n + 8 + |a.options|..] == a.Octets1()
    ensures f[n..n + 4] == a.source && f[n + 4..n + 8] == a.destination && f[n + 8..n + 8 + |a.options|] == a.options
  {
    hide Octets, Parts.Octets1;
    Next(f, n, a.source, a.destination + (a.options + a.Octets1()));
    Next(f, n + 4, a.destination, a.options + a.Octets1());
    Next(f, n + 8, a.options, a.Octets1());
  }

  lemma TransportPartsAt(a: Parts, f: Bytes, t: nat)
    requires a.Valid() && t <= |f| && f[t..] == a.Octets1()
    ensures var c := t + 4 + |a.middle|;
            && |f| == c + 2 + |a.tail| && f[t..t + 4] == a.ports && f[t + 4..c] == a.middle
            && f[c..c + 2] == Octets(a.transport) && f[c + 2..] == a.tail
  {
    hide Octets;
    var c := t + 4 + |a.middle|;
    Next(f, t, a.ports, a.middle + (Octets(a.transport) + a.tail));
    Next(f, t + 4, a.middle, Octets(a.transport) + a.tail);
    Next(f, c, Octets(a.transport), a.tail);
  }

  lemma Next(f: Bytes, at: nat, a: Bytes, b: Bytes)
    requires at <= |f| && f[at..] == a + b
    ensures at + |a| <= |f| && |f| == at + |a| + |b| && f[at..at + |a|] == a && f[at + |a|..] == b
  {
    assert f[at..at + |a|] == f[at..][..|a|] && f[at + |a|..] == f[at..][|a|..];
  }

  lemma TwinsAgree(a: Parts, b: Parts)
    requires Twins(a, b)
    ensures var f, g, n := a.Frame(), b.Frame(), |a.front|;
            var t := n + 10 + |a.options|;
            var c := t + 4 + |a.middle|;
            && |f| == |g| == c + 2 + |a.tail|
            && Agree(f, g, 0, n) && Agree(f, g, n + 10, t) && Agree(f, g, t + 4, c) && Agree(f, g, c + 2, |f|)
            && WordIn(f, n) == a.header && WordIn(g, n) == b.header
            && WordIn(f, c) == a.transport && WordIn(g, c) == b.transport
            && g[n + 2..n + 6] == b.source && g[n + 6..n + 10] == b.destination && g[t..t + 4] == b.ports
  {
    hide Parts.Frame;
    PartsAt(a);
    PartsAt(b);
    var f, g, n := a.Frame(), b.Frame(), |a.front|;
    var t := n + 10 + |a.options|;
    var c := t + 4 + |a.middle|;
    assert f[0..n] == g[0..n];
    SliceAgree(f, g, 0, n);
    SliceAgree(f, g, n + 10, t);
    SliceAgree(f, g, t + 4, c);
    assert f[c + 2..|f|] == g[c + 2..|f|];
    SliceAgree(f, g, c + 2, |f|);
    WordAtSlice(f, n, a.header);
    WordAtSlice(g, n, b.header);
    WordAtSlice(f, c, a.transport);
    WordAtSlice(g, c, b.transport);
  }

  lemma WordAtSlice(f: Bytes, at: nat, w: word)
    requires at + 2 <= |f| && f[at..at + 2] == Octets(w)
    ensures WordIn(f, at) == w
  {
    assert f[at] == f[at..at + 2][0] && f[at + 1] == f[at..at + 2][1];
  }

  /** The first ten octets of an IPv4 header. */
  function Front4(h: Header4, size: nat): (b: Bytes)
    requires h.Valid() && h.Length() + size < 0x1_0000
    ensures |b| == 10
  {
    [0x40 + h.Length() / 4, h.service] + Octets(h.Length() + size) + Octets(h.id) + Octets(h.FragmentWord())
    + [h.ttl, h.protocol]
  }

  function PartsOf(destination: Mac, source: Mac, tags: seq<Tag>, h: Header4, s: Segment, padding: Bytes): (p: Parts)
    requires h.Valid() && s.Valid() && h.Length() + |s.Build()| < 0x1_0000
    ensures p.Valid() && |p.front| == 24 + 4 * |tags|
    ensures |p.middle| == if s.Tcp? then 12 else 2
  {
    Parts(destination + source + Tagged(tags, 0x0800) + Front4(h, |s.Build()|), h.checksum, h.source, h.destination,
          h.options, s.Head()[..4], s.Head()[4..], s.checksum, s.Tail() + padding)
  }

  lemma PartsBuild(destination: Mac, source: Mac, tags: seq<Tag>, h: Header4, s: Segment, padding: Bytes)
    requires h.Valid() && s.Valid() && h.Length() + |s.Build()| < 0x1_0000
    ensures PartsOf(destination, source, tags, h, s, padding).Frame()
            == Build(destination, source, tags, 0x0800, Build4(h, s.Build())) + padding
  {
    hide Octets, Tagged, Segment.Head, Segment.Tail, Header4.FragmentWord;
    var p := PartsOf(destination, source, tags, h, s, padding);
    var ethernet, front := destination + source + Tagged(tags, 0x0800), Front4(h, |s.Build()|);
    assert p.Octets1() == s.Build() + padding;
    assert Build4(h, s.Build())
        == front + (Octets(h.checksum) + (h.source + (h.destination + (h.options + s.Build()))));
    assert p.Octets2() == h.source + (h.destination + (h.options + s.Build())) + padding;
    assert p.Frame() == ethernet + (front + (Octets(h.checksum) + p.Octets2()));
  }

  // The two checksums of twins whose octets are right.

  lemma RightTwins(base: nat, base': nat, x: word, y: word, shift: int)
    requires SumsOut(base + x) && SumsOut(base' + y) && base' == base - shift
    ensures Congruent(y, x + shift)
  {
    var j :| base + x - 0 == Multiple(j);
    var k :| base' + y - 0 == Multiple(k);
    assert y - (x + shift) == Multiple(k - j);
  }

  /** Two words of one residue that both avoid the same zero are the same. */
  lemma SameWord(x: word, y: word)
    requires Congruent(x, y) && ((x < 0xffff && y < 0xffff) || (x > 0 && y > 0))
    ensures x == y
  {
    var k :| x - y == Multiple(k);
  }

  lemma HeaderSum(h: Header4, payload: Bytes)
    requires h.Valid() && h.Length() + |payload| < 0x1_0000
    ensures WordSum(Build4(h, payload)[..h.Length()])
            == WordSum(Front4(h, |payload|)) + h.checksum + WordSum(h.source) + WordSum(h.destination)
               + WordSum(h.options)
  {
    hide Octets, WordSum, Front4;
    var front := Front4(h, |payload|);
    assert Build4(h, payload)[..h.Length()]
        == front + Octets(h.checksum) + (h.source + (h.destination + h.options)) by {
      HeaderOctets(h, payload);
    }
    SumAround(front, h.checksum, h.source + (h.destination + h.options));
    WordSumConcat(h.source, h.destination + h.options);
    WordSumConcat(h.destination, h.options);
  }

  lemma HeaderOctets(h: Header4, payload: Bytes)
    requires h.Valid() && h.Length() + |payload| < 0x1_0000
    ensures Build4(h, payload)[..h.Length()]
            == Front4(h, |payload|) + Octets(h.checksum) + (h.source + (h.destination + h.options))
  {
    hide Octets, Header4.FragmentWord;
    var all := Front4(h, |payload|) + Octets(h.checksum) + (h.source + (h.destination + h.options));
    assert Build4(h, payload) == all + payload;
  }

  // Packets of one connection, before and after translation.

  /** The packet runs between the tuple's endpoints. */
  ghost predicate Between(h: Header4, s: Segment, t: Tuple) {
    && h.source == t.source[..4] && h.destination == t.destination[..4]
    && s.sourcePort == t.sourcePort && s.destinationPort == t.destinationPort
    && h.protocol == s.Protocol() == t.protocol
  }

  /** Both checksums are right; only a UDP datagram may go without. */
  ghost predicate Sound(h: Header4, s: Segment)
    requires h.Valid() && s.Valid() && h.Length() + |s.Build()| < 0x1_0000
  {
    && Right(Build4(h, s.Build())[..h.Length()])
    && ((s.Udp? && s.checksum == 0) || Right(Pseudo4(h.source, h.destination, s.Protocol(), |s.Build()|) + s.Build()))
  }

  /** No computed checksum is all ones, except that UDP sends a computed zero so. */
  ghost predicate Sent(h: Header4, s: Segment) {
    h.checksum < 0xffff && (s.Tcp? ==> s.checksum < 0xffff)
  }

  /** The second packet is the first one between other endpoints, with checksums of its own. */
  ghost predicate Readdressed(h: Header4, s: Segment, h': Header4, s': Segment) {
    && h' == h.(source := h'.source, destination := h'.destination, checksum := h'.checksum)
    && s' == s.(sourcePort := s'.sourcePort, destinationPort := s'.destinationPort, checksum := s'.checksum)
    && (s.Udp? ==> (s.checksum == 0 <==> s'.checksum == 0))
  }

  lemma ReaddressedTwins(destination: Mac, source: Mac, tags: seq<Tag>, h: Header4, s: Segment, h': Header4,
                         s': Segment, padding: Bytes)
    requires h.Valid() && h'.Valid() && s.Valid() && s'.Valid() && Readdressed(h, s, h', s')
    requires h.Length() + |s.Build()| < 0x1_0000 && h'.Length() + |s'.Build()| < 0x1_0000
    ensures Twins(PartsOf(destination, source, tags, h, s, padding),
                  PartsOf(destination, source, tags, h', s', padding))
    ensures |s.Build()| == |s'.Build()| && Front4(h, |s.Build()|) == Front4(h', |s'.Build()|)
    ensures s.Head()[4..] == s'.Head()[4..] && s.Tail() == s'.Tail()
  {
    hide Octets, Tagged, Front4, Segment.Build, Segment.Head, Segment.Tail;
    SameSegment(s, s');
    SameFront(h, h', |s.Build()|);
  }

  lemma SameSegment(s: Segment, s': Segment)
    requires s.Valid() && s'.Valid()
    requires s' == s.(sourcePort := s'.sourcePort, destinationPort := s'.destinationPort, checksum := s'.checksum)
    ensures |s.Build()| == |s'.Build()| && s.Head()[4..] == s'.Head()[4..] && s.Tail() == s'.Tail()
  {
    hide Octets;
    PortsFirst(s);
    PortsFirst(s');
  }

  lemma SameFront(h: Header4, h': Header4, size: nat)
    requires h.Valid() && h'.Valid() && h.Length() + size < 0x1_0000
    requires h' == h.(source := h'.source, destination := h'.destination, checksum := h'.checksum)
    ensures Front4(h, size) == Front4(h', size)
  {
    hide Octets;
  }

  lemma PortsFirst(s: Segment)
    requires s.Valid()
    ensures s.Head()[..4] == Octets(s.sourcePort) + Octets(s.destinationPort)
    ensures s.Head()[4..] == if s.Tcp? then s.sequence + s.acknowledgement + [s.words * 16 + s.reserved, s.flags]
                                            + Octets(s.window) else Octets(s.length)
  {
    hide Octets;
  }

  lemma HeaderRewritten(h: Header4, s: Segment, h': Header4, s': Segment, d: Direction)
    requires h.Valid() && h'.Valid() && s.Valid() && s'.Valid() && Readdressed(h, s, h', s')
    requires h.Length() + |s.Build()| < 0x1_0000 && h'.Length() + |s'.Build()| < 0x1_0000
    requires Between(h, s, d.original) && Between(h', s', d.translated)
    requires Sound(h, s) && Sound(h', s') && Sent(h, s) && Sent(h', s')
    ensures Rewritten(h.checksum, h'.checksum, AddressesMove(d), AddressShift(d))
  {
    hide Build4, WordSum, Front4, Segment.Build;
    ReaddressedTwins([0, 0, 0, 0, 0, 0], [0, 0, 0, 0, 0, 0], [], h, s, h', s', []);
    HeaderSum(h, s.Build());
    HeaderSum(h', s'.Build());
    var rest := WordSum(Front4(h, |s.Build()|)) + WordSum(h.options);
    RightTwins(rest + AddressSum(d.original), rest + AddressSum(d.translated), h.checksum, h'.checksum,
               AddressShift(d));
    if !AddressesMove(d) {
      SameWord(h'.checksum, h.checksum);
    }
  }

  /** What a transport adds up to, by its ports. */
  lemma TransportTotal(h: Header4, s: Segment)
    requires h.Valid() && s.Valid() && |s.Build()| < 0x1_0000
    ensures WordSum(Pseudo4(h.source, h.destination, s.Protocol(), |s.Build()|) + s.Build())
            == WordSum(h.source) + WordSum(h.destination) + s.Protocol() + |s.Build()|
               + WordSum(s.Head()[..4]) + WordSum(s.Head()[4..]) + s.checksum + WordSum(s.Tail())
  {
    hide Octets, WordSum, Segment.Head, Segment.Tail;
    Pseudo4Sum(h.source, h.destination, s.Protocol(), |s.Build()|, s.Build());
    WordSumConcat(h.source, h.destination);
    SumAround(s.Head(), s.checksum, s.Tail());
    assert s.Head() == s.Head()[..4] + s.Head()[4..];
    WordSumConcat(s.Head()[..4], s.Head()[4..]);
  }

  lemma TransportRewritten(h: Header4, s: Segment, h': Header4, s': Segment, d: Direction)
    requires h.Valid() && h'.Valid() && s.Valid() && s'.Valid() && Readdressed(h, s, h', s')
    requires h.Length() + |s.Build()| < 0x1_0000 && h'.Length() + |s'.Build()| < 0x1_0000
    requires Between(h, s, d.original) && Between(h', s', d.translated)
    requires Sound(h, s) && Sound(h', s') && Sent(h, s) && Sent(h', s') && !(s.Udp? && s.checksum == 0)
    ensures Rewritten(s.checksum, s'.checksum, AddressesMove(d) || PortsMove(d), AddressShift(d) + PortShift(d))
  {
    hide Build4, WordSum, Front4, Segment.Build, Segment.Head, Segment.Tail, Pseudo4, Octets;
    ReaddressedTwins([0, 0, 0, 0, 0, 0], [0, 0, 0, 0, 0, 0], [], h, s, h', s', []);
    TransportTotal(h, s);
    TransportTotal(h', s');
    PortsFirst(s);
    PortsFirst(s');
    var rest := s.Protocol() + |s.Build()| + WordSum(s.Head()[4..]) + WordSum(s.Tail());
    RightTwins(rest + AddressSum(d.original) + WordSum(PortOctets(d.original)),
               rest + AddressSum(d.translated) + WordSum(PortOctets(d.translated)), s.checksum, s'.checksum,
               AddressShift(d) + PortShift(d));
    if !AddressesMove(d) && !PortsMove(d) {
      SameWord(s'.checksum, s.checksum);
    }
  }

  /** Where the parts lie in the view of the frame. */
  ghost predicate Laid(v: View, p: Parts, s: Segment) {
    && v.networkOffset + 10 == |p.front| && v.transportOffset == |p.front| + 10 + |p.options|
    && v.tuple.family == 4 && v.ports && v.tuple.protocol == s.Protocol()
    && v.transportLength >= (if s.Tcp? then 20 else 8) && |p.middle| == (if s.Tcp? then 12 else 2)
  }

  lemma TwinsTranslated(a: Parts, b: Parts, v: View, s: Segment, d: Direction)
    requires Twins(a, b) && Located(a.Frame(), v) && Laid(v, a, s)
    requires b.source == d.translated.source[..4] && b.destination == d.translated.destination[..4]
    requires b.ports == PortOctets(d.translated)
    requires Rewritten(a.header, b.header, AddressesMove(d), AddressShift(d))
    requires s.Udp? ==> (a.transport == 0 <==> b.transport == 0)
    requires (s.Udp? && a.transport == 0)
             || Rewritten(a.transport, b.transport, AddressesMove(d) || PortsMove(d), AddressShift(d) + PortShift(d))
    ensures IsTranslated(a.Frame(), b.Frame(), v, d)
    ensures a.header < 0xffff && (s.Tcp? ==> a.transport < 0xffff) ==> !UsesOtherZero(a.Frame(), v, d)
  {
    hide Parts.Frame, Rewritten, AddressesMove, PortsMove, AddressShift, PortShift, PortOctets, Agree;
    TwinsAgree(a, b);
  }

  /** The tuple a built packet decodes to. */
  lemma BuiltView(d: Direction, tags: seq<Tag>, h: Header4, s: Segment, padding: Bytes)
    requires TagsValid(tags) && |tags| <= 2 && h.Valid() && s.Valid() && h.Length() + |s.Build()| < 0x1_0000
    requires Endpoints(d) && d.original.family == 4 && Between(h, s, d.original) && h.fragmentOffset == 0
    ensures var p := PartsOf(d.originalDestinationMac, d.originalSourceMac, tags, h, s, padding);
            Decode(p.Frame()).Ok? && Laid(Decode(p.Frame()).value, p, s) && BelongsTo(Decode(p.Frame()).value, d)
  {
    hide Decode, Build4, Segment.Build, Segment.Head, Segment.Tail, Build, Parts.Frame, Tagged, Front4;
    var p := PartsOf(d.originalDestinationMac, d.originalSourceMac, tags, h, s, padding);
    PartsBuild(d.originalDestinationMac, d.originalSourceMac, tags, h, s, padding);
    Ipv4RoundTrip(d.originalDestinationMac, d.originalSourceMac, tags, h, s.Build(), padding);
    SegmentOctets(s);
    Padded(h.source, d.original.source);
    Padded(h.destination, d.original.destination);
  }

  lemma Padded(octets: Bytes, address: Address)
    requires octets == address[..4] && IsZero(address[4..])
    ensures octets + seq(12, _ => 0) == address
  {
    assert address == address[..4] + address[4..];
    assert forall i :: 0 <= i < 12 ==> address[4..][i] == 0;
  }

  /**
    Between right packets: whatever IPv4 packet an endpoint of the connection
    sent, with right checksums, and whatever else it carried, `restore` makes it,
    octet for octet, of the same packet between the translated endpoints with
    right checksums of its own.
  */
  lemma RestoreMakesOriginal(d: Direction, tags: seq<Tag>, h: Header4, s: Segment, h': Header4, s': Segment,
                             padding: Bytes)
    requires TagsValid(tags) && |tags| <= 2 && Endpoints(d) && d.original.family == 4
    requires h.Valid() && s.Valid() && h.Length() + |s.Build()| < 0x1_0000 && h.fragmentOffset == 0
    requires h'.Valid() && s'.Valid() && h'.Length() + |s'.Build()| < 0x1_0000 && Readdressed(h, s, h', s')
    requires Between(h, s, d.original) && Sound(h, s) && Sent(h, s)
    requires Between(h', s', d.translated) && Sound(h', s') && Sent(h', s')
    ensures var o := Build(d.originalDestinationMac, d.originalSourceMac, tags, 0x0800, Build4(h, s.Build())) + padding;
            var network := Build4(h', s'.Build());
            var r := Build(d.originalDestinationMac, d.originalSourceMac, tags, 0x0800, network) + padding;
            Decode(r).Ok? && Restore(r, Decode(r).value, d) == Ok(o)
  {
    hide Decode, Restore, Build4, Build, Segment.Build, Segment.Head, Segment.Tail, Parts.Frame, Sound, Front4, Tagged;
    hide Rewritten, IsTranslated, UsesOtherZero, BelongsTo, Octets, Laid;
    var a := PartsOf(d.originalDestinationMac, d.originalSourceMac, tags, h, s, padding);
    var b := PartsOf(d.originalDestinationMac, d.originalSourceMac, tags, h', s', padding);
    PartsBuild(d.originalDestinationMac, d.originalSourceMac, tags, h, s, padding);
    PartsBuild(d.originalDestinationMac, d.originalSourceMac, tags, h', s', padding);
    ReaddressedTwins(d.originalDestinationMac, d.originalSourceMac, tags, h, s, h', s', padding);
    BuiltView(d, tags, h, s, padding);
    HeaderRewritten(h, s, h', s', d);
    if !(s.Udp? && s.checksum == 0) {
      TransportRewritten(h, s, h', s', d);
    }
    PortsFirst(s');
    TwinsTranslated(a, b, Decode(a.Frame()).value, s, d);
    RestoreInvertsNat(a.Frame(), b.Frame(), d);
  }

  // IPv6, where no checksum is touched.

  /** The octets of an IPv6 packet in front of its addresses. */
  function Front6(h: Header6, size: nat): (b: Bytes)
    requires h.Valid() && h.Length() - 40 + size < 0x1_0000
    ensures |b| == 8
  {
    [0x60 + h.trafficClass / 16, h.trafficClass % 16 * 16 + h.flowLabel / 0x1_0000] + Octets(h.flowLabel % 0x1_0000)
    + Octets(h.Length() - 40 + size) + [FirstKind(h.extensions, h.protocol), h.hopLimit]
  }

  lemma Frame6(front: Bytes, source: Address, destination: Address, rest: Bytes)
    ensures var f, n := front + (source + (destination + rest)), |front|;
            && |f| == n + 32 + |rest| && f[..n] == front && f[n..n + 16] == source && f[n + 16..n + 32] == destination
            && f[n + 32..] == rest
  {
    var f, n := front + (source + (destination + rest)), |front|;
    assert f[0..] == f;
    Next(f, 0, front, source + (destination + rest));
    Next(f, n, source, destination + rest);
    Next(f, n + 16, destination, rest);
  }

  function Ahead6(destination: Mac, source: Mac, tags: seq<Tag>, h: Header6, size: nat): Bytes
    requires h.Valid() && h.Length() - 40 + size < 0x1_0000
  {
    destination + source + Tagged(tags, 0x86dd) + Front6(h, size)
  }

  lemma Build6Parts(destination: Mac, source: Mac, tags: seq<Tag>, h: Header6, payload: Bytes, padding: Bytes)
    requires h.Valid() && h.Length() - 40 + |payload| < 0x1_0000
    ensures Build(destination, source, tags, 0x86dd, Build6(h, payload)) + padding
            == Ahead6(destination, source, tags, h, |payload|)
               + (h.source + (h.destination + (Chained(h.extensions, h.protocol) + payload + padding)))
  {
    hide Octets, Tagged, Chained, Readable;
    assert Build6(h, payload)
        == Front6(h, |payload|) + (h.source + (h.destination + (Chained(h.extensions, h.protocol) + payload)));
  }

  /** The same for IPv6, for any packet of the connection and any of its fragments. */
  lemma RestoreMakesOriginal6(d: Direction, tags: seq<Tag>, h: Header6, payload: Bytes, padding: Bytes)
    requires TagsValid(tags) && |tags| <= 2 && Endpoints(d) && d.original.family == 6
    requires h.Valid() && h.Length() - 40 + |payload| < 0x1_0000 && h.protocol == d.original.protocol
    requires h.source == d.original.source && h.destination == d.original.destination
    requires !EndsLater(h.extensions) && |payload| >= 4 ==> payload[..4] == PortOctets(d.original)
    ensures var h' := h.(source := d.translated.source, destination := d.translated.destination);
            var o := Build(d.originalDestinationMac, d.originalSourceMac, tags, 0x86dd, Build6(h, payload)) + padding;
            var r := Build(d.originalDestinationMac, d.originalSourceMac, tags, 0x86dd, Build6(h', payload)) + padding;
            Decode(r).Ok? && Restore(r, Decode(r).value, d) == Ok(o)
  {
    hide Decode, Restore, Build6, Build, Chained, Readable, Octets, UsesOtherZero, WithOtherZero, Ahead6, EndsLater;
    hide Fragments;
    var h' := h.(source := d.translated.source, destination := d.translated.destination);
    var rest := Chained(h.extensions, h.protocol) + payload + padding;
    var ahead := Ahead6(d.originalDestinationMac, d.originalSourceMac, tags, h, |payload|);
    var o := Build(d.originalDestinationMac, d.originalSourceMac, tags, 0x86dd, Build6(h, payload)) + padding;
    var r := Build(d.originalDestinationMac, d.originalSourceMac, tags, 0x86dd, Build6(h', payload)) + padding;
    Ipv6RoundTrip(d.originalDestinationMac, d.originalSourceMac, tags, h, payload, padding);
    Build6Parts(d.originalDestinationMac, d.originalSourceMac, tags, h, payload, padding);
    Build6Parts(d.originalDestinationMac, d.originalSourceMac, tags, h', payload, padding);
    SameAhead(d.originalDestinationMac, d.originalSourceMac, tags, h, h', |payload|);
    Frame6(ahead, h.source, h.destination, rest);
    Frame6(ahead, h'.source, h'.destination, rest);
    var v := Decode(o).value;
    var n := v.networkOffset;
    assert o[0..n + 8] == r[0..n + 8] && o[n + 40..|o|] == r[n + 40..|o|];
    SliceAgree(o, r, 0, n + 8);
    SliceAgree(o, r, n + 40, |o|);
    PayloadPorts(payload, d.original);
    NotZero6(o, v, d);
    RestoreInvertsNat(o, r, d);
  }

  lemma NotZero6(o: Bytes, v: View, d: Direction)
    requires Located(o, v) && v.tuple.family == 6
    ensures !UsesOtherZero(o, v, d)
  {
  }

  lemma SameAhead(destination: Mac, source: Mac, tags: seq<Tag>, h: Header6, h': Header6, size: nat)
    requires h.Valid() && h'.Valid() && h.Length() - 40 + size < 0x1_0000
    requires h' == h.(source := h'.source, destination := h'.destination)
    ensures Ahead6(destination, source, tags, h, size) == Ahead6(destination, source, tags, h', size)
    ensures |Ahead6(destination, source, tags, h, size)| == 22 + 4 * |tags|
  {
    hide Octets, Tagged, Chained, Readable;
  }

  lemma PayloadPorts(payload: Bytes, t: Tuple)
    ensures |payload| >= 4 && payload[..4] == PortOctets(t) ==>
              Word(payload[0], payload[1]) == t.sourcePort && Word(payload[2], payload[3]) == t.destinationPort
  {
    if |payload| >= 4 && payload[..4] == PortOctets(t) {
      assert forall i :: 0 <= i < 4 ==> payload[i] == payload[..4][i];
    }
  }
}
