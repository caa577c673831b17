/**
  TCP segments and UDP datagrams by their fields, the octets their checksums
  cover, and what the forwarding test says of a whole frame in those terms.
*/
module SegmentBuild {
  import opened Wire
  import opened Checksum
  import opened Packet
  import opened PacketBuild
  import opened ForwardTheorems

  /** Section 3.1 of RFC 9293, and RFC 768. */
  datatype Segment =
    | Tcp(sourcePort: word, destinationPort: word, sequence: Bytes, acknowledgement: Bytes, words: nat, reserved: nat,
          flags: byte, window: word, checksum: word, urgent: word, rest: Bytes)
    | Udp(sourcePort: word, destinationPort: word, length: word, checksum: word, rest: Bytes)
  {
    predicate Valid() {
      Tcp? ==> |sequence| == 4 && |acknowledgement| == 4 && words < 16 && reserved < 16
    }

    function Protocol(): byte {
      if Tcp? then 6 else 17
    }

    /** Everything before the checksum. */
    function Head(): (b: Bytes)
      requires Valid()
      ensures |b| == if Tcp? then 16 else 6
    {
      Octets(sourcePort) + Octets(destinationPort)
      + if Tcp? then sequence + acknowledgement + [words * 16 + reserved, flags] + Octets(window) else Octets(length)
    }

    function Tail(): Bytes {
      if Tcp? then Octets(urgent) + rest else rest
    }

    function Build(): (b: Bytes)
      requires Valid()
      ensures |b| == (if Tcp? then 20 else 8) + |rest|
    {
      Head() + Octets(checksum) + Tail()
    }

    function WithChecksum(x: word): (r: Segment)
      ensures r.checksum == x && r.Valid() == Valid()
    {
      this.(checksum := x)
    }

    /** A segment that neither opens nor ends a connection nor is urgent; a datagram of the right length. */
    predicate Plain()
      requires Valid()
    {
      if Tcp? then
        && reserved == 0 && 5 <= words && 4 * words <= |Build()|
        && Bit(flags, 4) && !Bit(flags, 0) && !Bit(flags, 1) && !Bit(flags, 2) && !Bit(flags, 5)
      else length == |Build()|
    }
  }

  /** The pseudo header in front of an IPv4 transport (section 3.1 of RFC 9293). */
  function Pseudo4(source: Bytes, destination: Bytes, protocol: byte, length: word): Bytes {
    source + destination + [0, protocol] + Octets(length)
  }

  /** The pseudo header in front of an IPv6 transport (section 8.1 of RFC 8200). */
  function Pseudo6(source: Address, destination: Address, protocol: byte, length: word): Bytes {
    source + destination + [0, 0] + Octets(length) + [0, 0, 0, protocol]
  }

  /** The octets check out: their words add up to a multiple of 0xffff, and not to nothing. */
  ghost predicate Right(octets: Bytes) {
    SumsOut(WordSum(octets))
  }

  lemma SegmentOctets(s: Segment)
    requires s.Valid()
    ensures var b := s.Build();
            && Word(b[0], b[1]) == s.sourcePort && Word(b[2], b[3]) == s.destinationPort
            && (s.Tcp? ==> b[12] == s.words * 16 + s.reserved && b[13] == s.flags && Word(b[16], b[17]) == s.checksum)
            && (s.Udp? ==> Word(b[4], b[5]) == s.length && Word(b[6], b[7]) == s.checksum)
  {
    var b, head := s.Build(), s.Head();
    assert forall i :: 0 <= i < |head| ==> b[i] == head[i];
    assert b[|head|] == Octets(s.checksum)[0] && b[|head| + 1] == Octets(s.checksum)[1];
  }

  lemma PairSum(a: byte, b: byte)
    ensures WordSum([a, b]) == Word(a, b)
  {
    assert [a, b][2..] == [];
  }

  lemma WordOctets(w: word)
    ensures WordSum(Octets(w)) == w
  {
    PairSum(w / 0x100, w % 0x100);
    assert Octets(w) == [w / 0x100, w % 0x100];
  }

  lemma Pseudo4Sum(source: Bytes, destination: Bytes, protocol: byte, length: word, b: Bytes)
    requires |source| == 4 && |destination| == 4
    ensures WordSum(Pseudo4(source, destination, protocol, length) + b)
            == WordSum(source + destination) + protocol + length + WordSum(b)
  {
    var addresses := source + destination;
    assert Pseudo4(source, destination, protocol, length) + b
        == addresses + ([0, protocol] + (Octets(length) + b));
    WordSumConcat(addresses, [0, protocol] + (Octets(length) + b));
    WordSumConcat([0, protocol], Octets(length) + b);
    WordSumConcat(Octets(length), b);
    WordOctets(length);
    PairSum(0, protocol);
  }

  lemma Pseudo6Sum(source: Address, destination: Address, protocol: byte, length: word, b: Bytes)
    ensures WordSum(Pseudo6(source, destination, protocol, length) + b)
            == WordSum(source + destination) + length + protocol + WordSum(b)
  {
    var addresses := source + destination;
    assert Pseudo6(source, destination, protocol, length) + b
        == addresses + ([0, 0] + (Octets(length) + ([0, 0] + ([0, protocol] + b))));
    WordSumConcat(addresses, [0, 0] + (Octets(length) + ([0, 0] + ([0, protocol] + b))));
    WordSumConcat([0, 0], Octets(length) + ([0, 0] + ([0, protocol] + b)));
    WordSumConcat(Octets(length), [0, 0] + ([0, protocol] + b));
    WordSumConcat([0, 0], [0, protocol] + b);
    WordSumConcat([0, protocol], b);
    WordOctets(length);
    PairSum(0, 0);
    PairSum(0, protocol);
  }

  // The forwarding test.

  /** The frame is in the view: the decoder found exactly this segment. */
  ghost predicate Holds(f: Bytes, v: View, s: Segment)
    requires s.Valid()
  {
    && InFrame(f, v) && Transport(f, v) == s.Build() && v.transportLength == |s.Build()|
    && v.tuple.protocol == s.Protocol() && (s.Tcp? ==> v.flags == s.flags)
  }

  lemma PlainIsEligible(f: Bytes, v: View, s: Segment)
    requires s.Valid() && Holds(f, v, s)
    ensures TransportEligible(Transport(f, v), v) <==> s.Plain()
    ensures s.Plain() ==> (UdpWithoutChecksum(f, v) <==> s.Udp? && s.checksum == 0)
  {
    hide Bit;
    SegmentOctets(s);
    if s.Tcp? {
      PlainSegment(s.flags);
      assert Transport(f, v)[12] % 16 == s.reserved && Transport(f, v)[12] / 16 == s.words;
    }
  }

  lemma DecodedLength(f: Bytes)
    requires Decode(f).Ok?
    ensures Decode(f).value.transportLength < 0x1_0000
  {
  }

  /** The octets in front of the transport that its checksum covers, read from the frame. */
  ghost function PseudoOf(f: Bytes, v: View): Bytes
    requires InFrame(f, v) && v.transportLength < 0x1_0000
    requires v.tuple.family == 4 || v.tuple.family == 6
  {
    var n := v.networkOffset;
    if v.tuple.family == 4
    then Pseudo4(f[n + 12..n + 16], f[n + 16..n + 20], v.tuple.protocol, v.transportLength)
    else Pseudo6(f[n + 8..n + 24], f[n + 24..n + 40], v.tuple.protocol, v.transportLength)
  }

  lemma PseudoMeans(f: Bytes, v: View)
    requires InFrame(f, v) && v.transportLength < 0x1_0000 && (v.tuple.family == 4 || v.tuple.family == 6)
    ensures PseudoHeaderSum(f, v) + WordSum(Transport(f, v)) == WordSum(PseudoOf(f, v) + Transport(f, v))
  {
    hide WordSum, Pseudo4, Pseudo6;
    var n := v.networkOffset;
    if v.tuple.family == 4 {
      assert f[n + 12..n + 20] == f[n + 12..n + 16] + f[n + 16..n + 20];
      Pseudo4Sum(f[n + 12..n + 16], f[n + 16..n + 20], v.tuple.protocol, v.transportLength, Transport(f, v));
    } else {
      assert f[n + 8..n + 40] == f[n + 8..n + 24] + f[n + 24..n + 40];
      Pseudo6Sum(f[n + 8..n + 24], f[n + 24..n + 40], v.tuple.protocol, v.transportLength, Transport(f, v));
    }
  }

  /**
    The checksum test is the one of section 1 of RFC 1071: the words of the IPv4
    header, and those of pseudo header and transport, add up to a nonzero multiple
    of 0xffff. Only an IPv4 UDP packet may go without a checksum.
  */
  lemma ChecksumsMean(f: Bytes, v: View)
    requires Decode(f) == Ok(v) && InFrame(f, v) && TransportEligible(Transport(f, v), v)
    ensures v.transportLength < 0x1_0000 && (v.tuple.protocol == 17 ==> v.transportOffset + 8 <= |f|)
    ensures var whole := Right(PseudoOf(f, v) + Transport(f, v));
            var none := v.tuple.protocol == 17 && Word(f[v.transportOffset + 6], f[v.transportOffset + 7]) == 0;
            ChecksumsValid(f, v) <==>
              if v.tuple.family == 4 then
                Right(f[v.networkOffset..v.networkOffset + v.ipHeaderLength]) && (none || whole)
              else !none && whole
  {
    hide WordSum, PseudoHeaderSum, Decode, PseudoOf;
    DecodedLength(f);
    PseudoMeans(f, v);
    FoldIsAllOnes(WordSum(PseudoOf(f, v) + Transport(f, v)));
    FoldIsAllOnes(WordSum(Ipv4Header(f, v)));
  }

  /** The parts of a built frame that the forwarding test looks at. */
  lemma HeldBy4(destination: Mac, source: Mac, tags: seq<Tag>, h: Header4, s: Segment, padding: Bytes)
    requires TagsValid(tags) && |tags| <= 2 && h.Valid() && s.Valid() && h.protocol == s.Protocol()
    requires h.Length() + |s.Build()| < 0x1_0000 && h.fragmentOffset == 0
    ensures var f := Build(destination, source, tags, 0x0800, Build4(h, s.Build())) + padding;
            && Decode(f).Ok?
            && var v := Decode(f).value;
            && Holds(f, v, s) && v.tuple.family == 4 && v.ports
            && f[v.networkOffset..v.networkOffset + v.ipHeaderLength] == Build4(h, s.Build())[..h.Length()]
            && f[v.networkOffset + 12..v.networkOffset + 16] == h.source
            && f[v.networkOffset + 16..v.networkOffset + 20] == h.destination
            && v.malformed == false && v.extended == (h.options != [] || tags != [])
            && v.fragment == h.moreFragments && v.ttl == h.ttl && v.networkLength == h.Length() + |s.Build()|
  {
    hide Decode, Build4, Segment.Build, Tagged;
    var b := Build4(h, s.Build());
    var f := Build(destination, source, tags, 0x0800, b) + padding;
    Ipv4RoundTrip(destination, source, tags, h, s.Build(), padding);
    Build4Octets(h, s.Build());
    SegmentOctets(s);
    var front := destination + source + Tagged(tags, 0x0800);
    assert f == front + b + padding;
    Inside(front, b, padding, 0, h.Length());
    Inside(front, b, padding, 12, 16);
    Inside(front, b, padding, 16, 20);
    Inside(front, b, padding, h.Length(), |b|);
  }

  /**
    The worker may forward an IPv4 frame itself exactly if it is untagged, without
    options and unfragmented, may live on, fits the output, holds a plain segment
    or datagram, and its checksums are right over the octets they cover.
  */
  lemma EligibleMeans4(destination: Mac, source: Mac, tags: seq<Tag>, h: Header4, s: Segment, padding: Bytes, mtu: word)
    requires TagsValid(tags) && |tags| <= 2 && h.Valid() && s.Valid() && h.protocol == s.Protocol()
    requires h.Length() + |s.Build()| < 0x1_0000
    ensures var b := s.Build();
            var f := Build(destination, source, tags, 0x0800, Build4(h, b)) + padding;
            && Decode(f).Ok?
            && (Eligible(f, Decode(f).value, mtu) <==>
                 && tags == [] && h.options == [] && !h.moreFragments && h.fragmentOffset == 0
                 && h.ttl > 1 && 20 + |b| <= mtu && s.Plain() && Right(Build4(h, b)[..20])
                 && ((s.Udp? && s.checksum == 0) || Right(Pseudo4(h.source, h.destination, s.Protocol(), |b|) + b)))
  {
    hide Decode, Build4, Segment.Build, Segment.Plain, TransportEligible, ChecksumsValid, Right, PseudoHeaderSum, Build;
    hide UdpWithoutChecksum;
    var f := Build(destination, source, tags, 0x0800, Build4(h, s.Build())) + padding;
    if h.fragmentOffset != 0 {
      Ipv4RoundTrip(destination, source, tags, h, s.Build(), padding);
      return;
    }
    HeldBy4(destination, source, tags, h, s, padding);
    EligibleByParts(f, Decode(f).value, s, mtu);
  }

  /** The same in the terms of a decoded frame. */
  lemma EligibleByParts(f: Bytes, v: View, s: Segment, mtu: word)
    requires Decode(f) == Ok(v) && s.Valid() && Holds(f, v, s) && v.ports
    ensures v.transportLength < 0x1_0000 && (v.tuple.family == 4 || v.tuple.family == 6)
    ensures var whole := Right(PseudoOf(f, v) + s.Build());
            var none := s.Udp? && s.checksum == 0;
            Eligible(f, v, mtu) <==>
              && !v.malformed && !v.extended && !v.fragment && v.ttl > 1 && v.networkLength <= mtu && s.Plain()
              && if v.tuple.family == 4 then
                   Right(f[v.networkOffset..v.networkOffset + v.ipHeaderLength]) && (none || whole)
                 else !none && whole
  {
    hide Decode, Segment.Build, Segment.Plain, TransportEligible, ChecksumsValid, Right, PseudoHeaderSum;
    hide UdpWithoutChecksum, PseudoOf;
    DecodedLength(f);
    PlainIsEligible(f, v, s);
    if s.Plain() {
      ChecksumsMean(f, v);
      if s.Udp? {
        NoChecksum(f, v, s);
      }
    }
  }

  lemma HeldBy6(destination: Mac, source: Mac, tags: seq<Tag>, h: Header6, s: Segment, padding: Bytes)
    requires TagsValid(tags) && |tags| <= 2 && h.Valid() && s.Valid() && h.protocol == s.Protocol()
    requires h.Length() - 40 + |s.Build()| < 0x1_0000 && !EndsLater(h.extensions)
    ensures var f := Build(destination, source, tags, 0x86dd, Build6(h, s.Build())) + padding;
            && Decode(f).Ok?
            && var v := Decode(f).value;
            && Holds(f, v, s) && v.tuple.family == 6 && v.ports && v.networkOffset + 40 <= |f|
            && f[v.networkOffset + 8..v.networkOffset + 24] == h.source
            && f[v.networkOffset + 24..v.networkOffset + 40] == h.destination
            && !v.malformed && v.extended == (h.extensions != [] || tags != [])
            && v.fragment == Fragments(h.extensions) && v.ttl == h.hopLimit
            && v.networkLength == h.Length() + |s.Build()|
  {
    hide Decode, Build6, Segment.Build, Readable, Fragments, EndsLater, Chained, Tagged;
    var b := Build6(h, s.Build());
    var f := Build(destination, source, tags, 0x86dd, b) + padding;
    Ipv6RoundTrip(destination, source, tags, h, s.Build(), padding);
    Build6Octets(h, s.Build());
    SegmentOctets(s);
    var front := destination + source + Tagged(tags, 0x86dd);
    assert f == front + b + padding;
    Inside(front, b, padding, 8, 24);
    Inside(front, b, padding, 24, 40);
    Inside(front, b, padding, h.Length(), |b|);
  }

  /**
    The same for IPv6: no tag and no extension header, hop limit and size, a plain
    segment or datagram, and a checksum that must be there and right.
  */
  lemma EligibleMeans6(destination: Mac, source: Mac, tags: seq<Tag>, h: Header6, s: Segment, padding: Bytes, mtu: word)
    requires TagsValid(tags) && |tags| <= 2 && h.Valid() && s.Valid() && h.protocol == s.Protocol()
    requires h.Length() - 40 + |s.Build()| < 0x1_0000
    ensures var b := s.Build();
            var f := Build(destination, source, tags, 0x86dd, Build6(h, b)) + padding;
            && Decode(f).Ok?
            && (Eligible(f, Decode(f).value, mtu) <==>
                 && tags == [] && h.extensions == [] && h.hopLimit > 1 && 40 + |b| <= mtu && s.Plain()
                 && !(s.Udp? && s.checksum == 0) && Right(Pseudo6(h.source, h.destination, s.Protocol(), |b|) + b))
  {
    hide Decode, Build6, Segment.Build, Segment.Plain, TransportEligible, ChecksumsValid, Right, PseudoHeaderSum, Build;
    hide UdpWithoutChecksum, Readable, Fragments, EndsLater;
    var f := Build(destination, source, tags, 0x86dd, Build6(h, s.Build())) + padding;
    FragmentsOf(h);
    if EndsLater(h.extensions) {
      Ipv6RoundTrip(destination, source, tags, h, s.Build(), padding);
      return;
    }
    HeldBy6(destination, source, tags, h, s, padding);
    EligibleByParts(f, Decode(f).value, s, mtu);
  }

  lemma FragmentsOf(h: Header6)
    requires h.Valid()
    ensures ExtensionsValid(h.extensions) && (EndsLater(h.extensions) ==> Fragments(h.extensions))
    ensures h.extensions == [] ==> !Fragments(h.extensions) && h.Length() == 40
  {
  }

  /** A transport too short for its header is never forwarded. */
  lemma ShortIneligible(f: Bytes, v: View, mtu: word)
    requires Decode(f) == Ok(v) && v.transportLength < if v.tuple.protocol == 6 then 20 else 8
    ensures !Eligible(f, v, mtu)
  {
  }

  // Computing the checksums.

  /** Section 1 of RFC 1071: the complement of the folded sum over the octets with a zero checksum. */
  ghost function Computed(octets: Bytes): word {
    0xffff - Fold(WordSum(octets))
  }

  /** With a sum of its own, a checksum is right exactly if it is congruent to the computed one. */
  lemma ComputedSum(base: nat, x: word)
    requires base > 0
    ensures SumsOut(base + x) <==> Congruent(x, 0xffff - Fold(base))
    ensures 0xffff - Fold(base) < 0xffff
  {
    FoldCongruent(base);
    var k :| base - Fold(base) == Multiple(k);
    if SumsOut(base + x) {
      var j :| base + x - 0 == Multiple(j);
      assert x - (0xffff - Fold(base)) == Multiple(j - k - 1);
    }
    if Congruent(x, 0xffff - Fold(base)) {
      var j :| x - (0xffff - Fold(base)) == Multiple(j);
      assert base + x - 0 == Multiple(j + k + 1);
    }
  }

  lemma SegmentSum(s: Segment, x: word)
    requires s.Valid()
    ensures WordSum(s.WithChecksum(x).Build()) == WordSum(s.WithChecksum(0).Build()) + x
  {
    hide Segment.Head, Segment.Tail, Segment.Build, Segment.WithChecksum, WordSum, Octets;
    BuildAround(s, x);
    BuildAround(s, 0);
    SumAround(s.Head(), x, s.Tail());
    SumAround(s.Head(), 0, s.Tail());
  }

  lemma BuildAround(s: Segment, x: word)
    requires s.Valid()
    ensures s.WithChecksum(x).Build() == s.Head() + Octets(x) + s.Tail()
  {
    hide Octets;
    var r := s.WithChecksum(x);
    assert r.Head() == s.Head() && r.Tail() == s.Tail();
  }

  lemma SumAround(head: Bytes, x: word, tail: Bytes)
    requires |head| % 2 == 0
    ensures WordSum(head + Octets(x) + tail) == WordSum(head) + x + WordSum(tail)
  {
    assert head + Octets(x) + tail == head + (Octets(x) + tail);
    WordSumConcat(head, Octets(x) + tail);
    WordSumConcat(Octets(x), tail);
    WordOctets(x);
  }

  /** A transport checksum is right exactly if it is the computed one, or the other zero for it. */
  lemma ComputedIsRight(pseudo: Bytes, s: Segment, x: word)
    requires s.Valid() && |pseudo| % 2 == 0 && WordSum(pseudo) > 0
    ensures var c := Computed(pseudo + s.WithChecksum(0).Build());
            (Right(pseudo + s.WithChecksum(x).Build()) <==> Congruent(x, c)) && c < 0xffff
  {
    hide Segment.Build, Segment.WithChecksum, WordSum, Fold;
    var base := WordSum(pseudo + s.WithChecksum(0).Build());
    WordSumConcat(pseudo, s.WithChecksum(x).Build());
    WordSumConcat(pseudo, s.WithChecksum(0).Build());
    SegmentSum(s, x);
    ComputedSum(base, x);
  }

  lemma NoChecksum(f: Bytes, v: View, s: Segment)
    requires s.Valid() && Holds(f, v, s) && s.Udp?
    ensures v.transportOffset + 8 <= |f|
    ensures Word(f[v.transportOffset + 6], f[v.transportOffset + 7]) == s.checksum
  {
    SegmentOctets(s);
    assert forall i :: 0 <= i < 8 ==> Transport(f, v)[i] == f[v.transportOffset + i];
  }
}
