/**
  Decoding inverts encoding. Frames are built from header fields as the standards
  lay them out, with VLAN tags (IEEE 802.1Q), IPv4 options (section 3.1 of RFC 791)
  or IPv6 extension headers (section 4 of RFC 8200), and decode to exactly those
  fields: alone, in front of padding, and cut off anywhere.
*/
module PacketBuild {
  import opened Wire
  import opened Checksum
  import opened Packet

  /** A VLAN tag: its EtherType and its control word. */
  datatype Tag = Tag(kind: word, control: word) {
    predicate Valid() {
      kind == 0x8100 || kind == 0x88a8
    }
  }

  predicate TagsValid(tags: seq<Tag>) {
    forall i :: 0 <= i < |tags| ==> tags[i].Valid()
  }

  /** Tags in front of a network EtherType, as octets from the EtherType field on. */
  function Tagged(tags: seq<Tag>, etherType: word): (b: Bytes)
    ensures |b| == 4 * |tags| + 2
    ensures Word(b[0], b[1]) == if tags == [] then etherType else tags[0].kind
  {
    if tags == [] then Octets(etherType)
    else Octets(tags[0].kind) + Octets(tags[0].control) + Tagged(tags[1..], etherType)
  }

  /** Up to two tags are skipped, whatever their control words. More, or an unfinished one, are refused. */
  lemma {:induction false} SkipBuilt(frame: Bytes, at: nat, tags: seq<Tag>, etherType: word, count: nat)
    requires TagsValid(tags) && etherType != 0x8100 && etherType != 0x88a8 && count <= 2 <= at <= |frame|
    requires var b := Tagged(tags, etherType);
             var end := Min(|frame|, at - 2 + |b|);
             frame[at - 2..end] == b[..end - (at - 2)]
    ensures SkipVlans(frame, at, Word(frame[at - 2], frame[at - 1]), count) ==
            if count + |tags| > 2 || at + 4 * |tags| > |frame| then Err(EBADMSG)
            else Ok((at + 4 * |tags|, etherType))
    decreases |tags|
  {
    var b := Tagged(tags, etherType);
    var end := Min(|frame|, at - 2 + |b|);
    assert frame[at - 2] == frame[at - 2..end][0] && frame[at - 1] == frame[at - 2..end][1];
    if tags != [] && count < 2 && at + 4 <= |frame| {
      var rest := Tagged(tags[1..], etherType);
      assert b[4..] == rest;
      assert frame[at + 2..end] == frame[at - 2..end][4..] == b[..end - (at - 2)][4..] == rest[..end - (at + 2)];
      SkipBuilt(frame, at + 4, tags[1..], etherType, count + 1);
    }
  }

  // IPv4.

  datatype Header4 = Header4(service: byte, id: word, reserved: bool, dontFragment: bool, moreFragments: bool,
                             fragmentOffset: nat, ttl: byte, protocol: byte, checksum: word, source: Bytes,
                             destination: Bytes, options: Bytes)
  {
    predicate Valid() {
      && |source| == 4 && |destination| == 4 && |options| % 4 == 0 && |options| <= 40
      && fragmentOffset < 0x2000
    }

    function Length(): nat {
      20 + |options|
    }

    function FragmentWord(): word
      requires Valid()
    {
      (if reserved then 0x8000 else 0) + (if dontFragment then 0x4000 else 0) + (if moreFragments then 0x2000 else 0)
      + fragmentOffset
    }
  }

  function Build4(h: Header4, payload: Bytes): (b: Bytes)
    requires h.Valid() && h.Length() + |payload| < 0x1_0000
    ensures |b| == h.Length() + |payload|
  {
    [0x40 + h.Length() / 4, h.service] + Octets(h.Length() + |payload|) + Octets(h.id) + Octets(h.FragmentWord())
    + [h.ttl, h.protocol] + Octets(h.checksum) + h.source + h.destination + h.options + payload
  }

  lemma Build4Octets(h: Header4, payload: Bytes)
    requires h.Valid() && h.Length() + |payload| < 0x1_0000
    ensures var b := Build4(h, payload);
            && b[0] == 0x40 + h.Length() / 4 && b[1] == h.service && Word(b[2], b[3]) == |b|
            && Word(b[6], b[7]) == h.FragmentWord() && b[8] == h.ttl && b[9] == h.protocol
            && Word(b[10], b[11]) == h.checksum && b[12..16] == h.source && b[16..20] == h.destination
            && b[h.Length()..] == payload
  {
    hide Header4.FragmentWord;
    var b := Build4(h, payload);
    assert b[2..4] == Octets(h.Length() + |payload|) && b[6..8] == Octets(h.FragmentWord())
      && b[10..12] == Octets(h.checksum);
    assert b[2] == b[2..4][0] && b[3] == b[2..4][1];
    assert b[6] == b[6..8][0] && b[7] == b[6..8][1];
    assert b[10] == b[10..12][0] && b[11] == b[10..12][1];
  }

  /** What a header says of a packet with a payload of this size. */
  function Network4(h: Header4, size: nat, malformed: bool): Network
    requires h.Valid()
  {
    Network(4, h.protocol, h.source + seq(12, _ => 0), h.destination + seq(12, _ => 0), h.Length(), h.Length() + size,
            h.ttl, h.service, 0, h.moreFragments || h.fragmentOffset != 0, h.fragmentOffset != 0, h.options != [],
            malformed, h.checksum)
  }

  /** A header is read alike whatever follows it; what is missing behind it makes the packet malformed. */
  lemma Decode4(h: Header4, payload: Bytes, network: Bytes)
    requires h.Valid() && h.Length() + |payload| < 0x1_0000
    requires |network| >= h.Length() && network[..h.Length()] == Build4(h, payload)[..h.Length()]
    ensures DecodeIpv4(network) == Ok(Network4(h, |payload|, h.Length() + |payload| > |network|))
  {
    hide Build4, Header4.FragmentWord;
    var b := Build4(h, payload);
    Build4Octets(h, payload);
    FirstOctet(h.Length());
    FragmentBits(h);
    assert forall i :: 0 <= i < 20 ==> network[i] == network[..h.Length()][i] == b[..h.Length()][i] == b[i];
    assert network[12..16] == b[12..16] && network[16..20] == b[16..20];
  }

  lemma FragmentBits(h: Header4)
    requires h.Valid()
    ensures h.FragmentWord() % 0x4000 != 0 <==> h.moreFragments || h.fragmentOffset != 0
    ensures h.FragmentWord() % 0x2000 != 0 <==> h.fragmentOffset != 0
  {
  }

  /** Version and header length share the first octet. */
  lemma FirstOctet(length: nat)
    requires 20 <= length <= 60 && length % 4 == 0
    ensures 0x40 + length / 4 < 0x100 && (0x40 + length / 4) / 16 == 4 && (0x40 + length / 4) % 16 * 4 == length
  {
    var words := length / 4;
    assert length == 4 * words && 5 <= words <= 15;
  }

  lemma Decode4Short(h: Header4, payload: Bytes, k: nat)
    requires h.Valid() && h.Length() + |payload| < 0x1_0000 && k < h.Length()
    ensures DecodeIpv4(Build4(h, payload)[..k]) == Err(EBADMSG)
  {
    hide Build4, Header4.FragmentWord;
    Build4Octets(h, payload);
    FirstOctet(h.Length());
  }

  // IPv6.

  predicate IsHeaderKind(kind: byte) {
    kind in {0, 43, 44, 51, 60}
  }

  /** An extension header: its type, and its octets behind the next-header field. */
  datatype Extension = Extension(kind: byte, data: Bytes)
  {
    /** A fragment header has eight octets; others give their length, in words of eight or (authentication) of four. */
    predicate Valid() {
      && IsHeaderKind(kind) && |data| >= 7
      && (kind == 44 ==> |data| == 7)
      && (kind == 51 ==> |data| + 1 == 4 * (data[0] as int + 2))
      && (kind != 44 && kind != 51 ==> |data| + 1 == 8 * (data[0] as int + 1))
    }

    /** A fragment header of a fragment that is not the first. */
    predicate Later()
      requires Valid()
    {
      kind == 44 && Word(data[1], data[2]) / 8 != 0
    }
  }

  predicate ExtensionsValid(extensions: seq<Extension>) {
    forall i :: 0 <= i < |extensions| ==> extensions[i].Valid()
  }

  /** The last header is a later fragment's. */
  predicate EndsLater(extensions: seq<Extension>)
    requires ExtensionsValid(extensions)
  {
    extensions != [] && extensions[|extensions| - 1].Later()
  }

  /**
    Nothing is read behind a later fragment's header, nor behind the eighth one;
    there, the protocol may be anything.
  */
  predicate Readable(extensions: seq<Extension>, protocol: byte, budget: nat) {
    && ExtensionsValid(extensions) && |extensions| <= budget
    && (forall i :: 0 <= i < |extensions| - 1 ==> !extensions[i].Later())
    && (IsHeaderKind(protocol) ==> |extensions| == budget || EndsLater(extensions))
  }

  datatype Header6 = Header6(trafficClass: byte, flowLabel: nat, hopLimit: byte, protocol: byte, source: Address,
                             destination: Address, extensions: seq<Extension>)
  {
    predicate Valid() {
      flowLabel < 0x10_0000 && Readable(extensions, protocol, 8)
    }

    function Length(): nat {
      40 + |Chained(extensions, protocol)|
    }
  }

  function FirstKind(extensions: seq<Extension>, protocol: byte): byte {
    if extensions == [] then protocol else extensions[0].kind
  }

  /** The extension headers in a row, each naming the next. */
  function Chained(extensions: seq<Extension>, protocol: byte): Bytes {
    if extensions == [] then []
    else [FirstKind(extensions[1..], protocol)] + extensions[0].data + Chained(extensions[1..], protocol)
  }

  predicate Fragments(extensions: seq<Extension>) {
    exists i :: 0 <= i < |extensions| && extensions[i].kind == 44
  }

  /**
    A walk over chained headers ends behind them, at the protocol they lead to,
    or fails if it may not look that far.
  */
  lemma {:induction false} WalkBuilt(network: Bytes, limit: nat, chain: Chain, extensions: seq<Extension>,
                                     protocol: byte)
    requires Readable(extensions, protocol, chain.budget) && !chain.noninitialFragment
    requires chain.headerLength <= limit <= |network| && chain.protocol == FirstKind(extensions, protocol)
    requires Arrived(network, limit, chain.headerLength, Chained(extensions, protocol))
    ensures WalkExtensions(network, limit, chain) ==
            if chain.headerLength + |Chained(extensions, protocol)| > limit then Err(EBADMSG)
            else Ok(Chain(protocol, chain.headerLength + |Chained(extensions, protocol)|,
                          chain.fragment || Fragments(extensions), EndsLater(extensions),
                          chain.extended || extensions != [], chain.budget - |extensions|))
    decreases |extensions|
  {
    hide Extend, Fragments, Extension.Valid, Arrived, Readable, EndsLater;
    if extensions != [] {
      var e, rest, at := extensions[0], extensions[1..], chain.headerLength;
      var b, tail := Chained(extensions, protocol), Chained(rest, protocol);
      ChainedFirst(network, limit, at, extensions, protocol);
      RestReadable(extensions, protocol, chain.budget);
      ExtendBuilt(network, limit, chain, e, FirstKind(rest, protocol));
      FragmentsFirst(extensions);
      assert rest == [] ==> tail == [];
      if at + 1 + |e.data| <= limit && !e.Later() {
        WalkBuilt(network, limit,
                  Chain(FirstKind(rest, protocol), at + 1 + |e.data|, chain.fragment || e.kind == 44, false, true,
                        chain.budget - 1), rest, protocol);
      }
    } else {
      NoneReadable(protocol, chain.budget);
    }
  }

  lemma NoneReadable(protocol: byte, budget: nat)
    requires Readable([], protocol, budget)
    ensures !EndsLater([]) && !Fragments([]) && (IsExtension(protocol) ==> budget == 0)
  {
  }

  /** What arrived of a chain is what arrived of its first header and of the rest. */
  lemma ChainedFirst(network: Bytes, limit: nat, at: nat, extensions: seq<Extension>, protocol: byte)
    requires extensions != [] && at <= limit <= |network|
    requires Arrived(network, limit, at, Chained(extensions, protocol))
    ensures var b, tail := Chained(extensions, protocol), Chained(extensions[1..], protocol);
            var whole := [FirstKind(extensions[1..], protocol)] + extensions[0].data;
            && b == whole + tail && Arrived(network, limit, at, whole)
            && (at + |whole| <= limit ==> Arrived(network, limit, at + |whole|, tail))
  {
    var b, tail := Chained(extensions, protocol), Chained(extensions[1..], protocol);
    var whole := [FirstKind(extensions[1..], protocol)] + extensions[0].data;
    assert b == whole + tail;
    ArrivedSplit(network, limit, at, whole, tail);
  }

  /** As far as the limit allows, the octets are there. */
  predicate Arrived(network: Bytes, limit: nat, at: nat, b: Bytes)
    requires at <= limit <= |network|
  {
    var end := Min(limit, at + |b|);
    network[at..end] == b[..end - at]
  }

  lemma OctetArrived(network: Bytes, limit: nat, at: nat, b: Bytes, i: nat)
    requires at <= limit <= |network| && Arrived(network, limit, at, b) && i < |b| && at + i < limit
    ensures network[at + i] == b[i]
  {
    var end := Min(limit, at + |b|);
    assert network[at..end][i] == b[..end - at][i];
  }

  lemma ArrivedSplit(network: Bytes, limit: nat, at: nat, a: Bytes, b: Bytes)
    requires at <= limit <= |network| && Arrived(network, limit, at, a + b)
    ensures Arrived(network, limit, at, a) && (at + |a| <= limit ==> Arrived(network, limit, at + |a|, b))
  {
    var all := a + b;
    var end := Min(limit, at + |all|);
    assert forall i :: 0 <= i < end - at ==> all[i] == network[at..end][i] == network[at + i];
    forall i | 0 <= i < |a| && at + i < end ensures network[at + i] == a[i] {
      assert all[i] == a[i];
    }
    forall i | 0 <= i < |b| && at + |a| + i < end ensures network[at + |a| + i] == b[i] {
      assert all[|a| + i] == b[i];
    }
  }

  lemma RestReadable(extensions: seq<Extension>, protocol: byte, budget: nat)
    requires extensions != [] && Readable(extensions, protocol, budget)
    ensures extensions[0].Valid() && budget > 0 && IsExtension(extensions[0].kind)
    ensures extensions[0].Later() ==> extensions[1..] == [] && EndsLater(extensions)
    ensures !extensions[0].Later() ==>
              Readable(extensions[1..], protocol, budget - 1) && EndsLater(extensions[1..]) == EndsLater(extensions)
  {
    var rest := extensions[1..];
    assert forall i :: 0 <= i < |rest| ==> rest[i] == extensions[i + 1];
  }

  lemma FragmentsFirst(extensions: seq<Extension>)
    requires extensions != []
    ensures Fragments(extensions) <==> extensions[0].kind == 44 || Fragments(extensions[1..])
  {
    var rest := extensions[1..];
    if Fragments(rest) {
      var i :| 0 <= i < |rest| && rest[i].kind == 44;
      assert extensions[i + 1].kind == 44;
    }
  }

  /** One built header is read back, whatever follows it, unless it is cut off. */
  lemma ExtendBuilt(network: Bytes, limit: nat, chain: Chain, e: Extension, next: byte)
    requires e.Valid() && chain.protocol == e.kind && chain.budget > 0 && !chain.noninitialFragment
    requires chain.headerLength <= limit <= |network|
    requires Arrived(network, limit, chain.headerLength, [next] + e.data)
    ensures Extend(network, limit, chain) ==
            if chain.headerLength + 1 + |e.data| > limit then Err(EBADMSG)
            else Ok(Chain(next, chain.headerLength + 1 + |e.data|, chain.fragment || e.kind == 44, e.Later(), true,
                          chain.budget - 1))
  {
    var at, whole := chain.headerLength, [next] + e.data;
    if limit - at >= 8 {
      OctetArrived(network, limit, at, whole, 0);
      OctetArrived(network, limit, at, whole, 1);
      OctetArrived(network, limit, at, whole, 2);
      OctetArrived(network, limit, at, whole, 3);
      hide Arrived;
    }
  }

  function Build6(h: Header6, payload: Bytes): (b: Bytes)
    requires h.Valid() && h.Length() - 40 + |payload| < 0x1_0000
    ensures |b| == h.Length() + |payload|
  {
    [0x60 + h.trafficClass / 16, h.trafficClass % 16 * 16 + h.flowLabel / 0x1_0000] + Octets(h.flowLabel % 0x1_0000)
    + Octets(h.Length() - 40 + |payload|) + [FirstKind(h.extensions, h.protocol), h.hopLimit]
    + h.source + h.destination + Chained(h.extensions, h.protocol) + payload
  }

  lemma Build6Octets(h: Header6, payload: Bytes)
    requires h.Valid() && h.Length() - 40 + |payload| < 0x1_0000
    ensures var b := Build6(h, payload);
            && b[0] == 0x60 + h.trafficClass / 16 && b[1] == h.trafficClass % 16 * 16 + h.flowLabel / 0x1_0000
            && Word(b[2], b[3]) == h.flowLabel % 0x1_0000 && 40 + Word(b[4], b[5]) == |b|
            && b[6] == FirstKind(h.extensions, h.protocol) && b[7] == h.hopLimit
            && b[8..24] == h.source && b[24..40] == h.destination
            && b[40..h.Length()] == Chained(h.extensions, h.protocol) && b[h.Length()..] == payload
  {
    hide Readable, Chained, FirstKind;
    Layout6([0x60 + h.trafficClass / 16, h.trafficClass % 16 * 16 + h.flowLabel / 0x1_0000],
            Octets(h.flowLabel % 0x1_0000), Octets(h.Length() - 40 + |payload|),
            [FirstKind(h.extensions, h.protocol), h.hopLimit], h.source, h.destination,
            Chained(h.extensions, h.protocol), payload);
  }

  lemma Layout6(start: Bytes, flow: Bytes, length: Bytes, next: Bytes, source: Bytes, destination: Bytes, chain: Bytes,
                payload: Bytes)
    requires |start| == 2 && |flow| == 2 && |length| == 2 && |next| == 2 && |source| == 16 && |destination| == 16
    ensures var b := start + flow + length + next + source + destination + chain + payload;
            && b[0] == start[0] && b[1] == start[1] && b[2] == flow[0] && b[3] == flow[1] && b[4] == length[0]
            && b[5] == length[1] && b[6] == next[0] && b[7] == next[1]
            && b[8..24] == source && b[24..40] == destination && b[40..40 + |chain|] == chain
            && b[40 + |chain|..] == payload
  {
  }

  function Network6(h: Header6, size: nat, malformed: bool): Network
    requires h.Valid()
  {
    Network(6, h.protocol, h.source, h.destination, h.Length(), h.Length() + size, h.hopLimit, h.trafficClass,
            h.flowLabel, Fragments(h.extensions), EndsLater(h.extensions), h.extensions != [], malformed, 0)
  }

  /** The headers are read alike whatever follows them, and refused if one is cut off. */
  lemma Decode6(h: Header6, payload: Bytes, network: Bytes)
    requires h.Valid() && h.Length() - 40 + |payload| < 0x1_0000
    requires var end := Min(h.Length(), |network|); network[..end] == Build6(h, payload)[..end]
    ensures DecodeIpv6(network) == if |network| < h.Length() then Err(EBADMSG)
                                   else Ok(Network6(h, |payload|, h.Length() + |payload| > |network|))
  {
    hide WalkExtensions, Chained, Build6, Fragments, Readable, EndsLater;
    var b := Build6(h, payload);
    Build6Octets(h, payload);
    if |network| >= 40 {
      var end := Min(h.Length(), |network|);
      assert forall i :: 0 <= i < 40 ==> network[i] == network[..end][i] == b[i];
      assert network[8..24] == b[8..24] && network[24..40] == b[24..40];
      assert b[0] / 16 == 6 && b[0] % 16 * 16 + b[1] / 16 == h.trafficClass;
      var limit := Min(|b|, |network|);
      assert network[40..end] == network[..end][40..] == b[..end][40..] == b[40..h.Length()][..end - 40];
      WalkBuilt(network, limit, FirstHeader(network), h.extensions, h.protocol);
    }
  }

  // Whole frames.

  function Build(destination: Mac, source: Mac, tags: seq<Tag>, etherType: word, network: Bytes): Bytes {
    destination + source + Tagged(tags, etherType) + network
  }

  /**
    What a decoder should see behind a network header, of which `payload` is the
    transport that is there: ports and flags unless it is a later fragment.
  */
  function Seen(destination: Mac, source: Mac, tags: seq<Tag>, etherType: word, net: Network, payload: Bytes,
                frameLength: nat): Result<View>
  {
    var ports := !net.noninitialFragment && |payload| >= 4;
    var offset := 14 + 4 * |tags|;
    if net.protocol != 6 && net.protocol != 17 then Err(EPROTONOSUPPORT)
    else if net.malformed && !net.noninitialFragment && |payload| < (if net.protocol == 6 then 20 else 8)
    then Err(EBADMSG)
    else
      Ok(View(Tuple(net.family, net.protocol, 0, net.source, net.destination,
                    if ports then Word(payload[0], payload[1]) else 0,
                    if ports then Word(payload[2], payload[3]) else 0),
              offset, net.headerLength, offset + net.headerLength, |payload|, net.length, net.ttl,
              if !net.noninitialFragment && net.protocol == 6 && |payload| >= 20 then payload[13] else 0,
              net.trafficClass, net.flowLabel, net.fragment, net.noninitialFragment,
              net.extended || tags != [], ports, net.malformed,
              if tags == [] then etherType else tags[0].kind, source, destination, net.checksum, frameLength, true))
  }

  lemma TransportBuilt(frame: Bytes, outer: word, tags: seq<Tag>, etherType: word, net: Network, payload: Bytes)
    requires var offset := 14 + 4 * |tags|;
             && offset <= |frame| && NetworkDecoded(net, |frame| - offset)
             && net.headerLength + |payload| == Min(net.length, |frame| - offset)
             && frame[offset + net.headerLength..offset + net.headerLength + |payload|] == payload
    requires outer == if tags == [] then etherType else tags[0].kind
    ensures DecodeTransport(frame, outer, 14 + 4 * |tags|, net)
            == Seen(frame[0..6], frame[6..12], tags, etherType, net, payload, |frame|)
  {
    var at := 14 + 4 * |tags| + net.headerLength;
    assert forall i :: 0 <= i < |payload| ==> payload[i] == frame[at + i];
  }

  lemma SkipFrame(destination: Mac, source: Mac, tags: seq<Tag>, etherType: word, network: Bytes, k: nat)
    requires TagsValid(tags) && etherType != 0x8100 && etherType != 0x88a8
    requires k <= |Build(destination, source, tags, etherType, network)|
    ensures var frame := Build(destination, source, tags, etherType, network);
            var offset := 14 + 4 * |tags|;
            && (k >= 14 ==> && SkipVlans(frame[..k], 14, Word(frame[12], frame[13]), 0)
                               == (if |tags| > 2 || k < offset then Err(EBADMSG) else Ok((offset, etherType)))
                            && Word(frame[12], frame[13]) == if tags == [] then etherType else tags[0].kind)
            && (k >= offset ==> frame[..k][offset..] == network[..k - offset])
            && frame[0..6] == destination && frame[6..12] == source
  {
    hide SkipVlans, Tagged;
    var frame, b := Build(destination, source, tags, etherType, network), Tagged(tags, etherType);
    assert frame[12..12 + |b|] == b;
    assert frame[12] == frame[12..12 + |b|][0] && frame[13] == frame[12..12 + |b|][1];
    if k >= 14 {
      var end := Min(k, 12 + |b|);
      assert frame[..k][12..end] == frame[12..12 + |b|][..end - 12];
      SkipBuilt(frame[..k], 14, tags, etherType, 0);
    }
  }

  /** Decoding what arrived of a built frame. */
  lemma DecodeBuilt(destination: Mac, source: Mac, tags: seq<Tag>, etherType: word, network: Bytes, k: nat)
    requires TagsValid(tags) && etherType != 0x8100 && etherType != 0x88a8
    requires k <= |Build(destination, source, tags, etherType, network)|
    ensures var frame := Build(destination, source, tags, etherType, network);
            var offset := 14 + 4 * |tags|;
            if |tags| > 2 || k < offset then Decode(frame[..k]) == Err(EBADMSG)
            else
              var cut := network[..k - offset];
              var net := DecodeNetwork(cut, etherType);
              if net.Err? then Decode(frame[..k]) == Err(net.code)
              else
                var payload := cut[net.value.headerLength..Min(net.value.length, |cut|)];
                Decode(frame[..k]) == Seen(destination, source, tags, etherType, net.value, payload, k)
  {
    hide DecodeNetwork, DecodeTransport, SkipVlans, Tagged, Seen;
    var frame, offset := Build(destination, source, tags, etherType, network), 14 + 4 * |tags|;
    SkipFrame(destination, source, tags, etherType, network, k);
    if |tags| <= 2 && k >= offset {
      var cut := network[..k - offset];
      var net := DecodeNetwork(cut, etherType);
      if net.Ok? {
        var payload := cut[net.value.headerLength..Min(net.value.length, |cut|)];
        var at := offset + net.value.headerLength;
        SubSlice(frame[..k], offset, net.value.headerLength, Min(net.value.length, |cut|));
        assert frame[..k][0..6] == destination && frame[..k][6..12] == source;
        TransportBuilt(frame[..k], Word(frame[12], frame[13]), tags, etherType, net.value, payload);
      }
    }
  }

  /** Nothing but IPv4 and IPv6 is decoded. */
  lemma OtherNetworks(destination: Mac, source: Mac, tags: seq<Tag>, etherType: word, network: Bytes)
    requires TagsValid(tags) && |tags| <= 2 && etherType !in {0x8100, 0x88a8, 0x0800, 0x86dd}
    ensures Decode(Build(destination, source, tags, etherType, network)) == Err(EPROTONOSUPPORT)
  {
    hide Decode;
    var frame := Build(destination, source, tags, etherType, network);
    assert frame[..|frame|] == frame;
    DecodeBuilt(destination, source, tags, etherType, network, |frame|);
  }

  /**
    Any tagged or untagged IPv4 frame, in front of any padding, decodes to the
    fields it was built from; three tags or another protocol are refused.
  */
  lemma Ipv4RoundTrip(destination: Mac, source: Mac, tags: seq<Tag>, h: Header4, payload: Bytes, padding: Bytes)
    requires TagsValid(tags) && h.Valid() && h.Length() + |payload| < 0x1_0000
    ensures var frame := Build(destination, source, tags, 0x0800, Build4(h, payload)) + padding;
            Decode(frame) == if |tags| > 2 then Err(EBADMSG)
                             else
                               Seen(destination, source, tags, 0x0800, Network4(h, |payload|, false), payload, |frame|)
  {
    hide Decode, Build4, Seen, DecodeIpv4, DecodeIpv6;
    var network := Build4(h, payload) + padding;
    var frame := Build(destination, source, tags, 0x0800, network);
    assert frame == Build(destination, source, tags, 0x0800, Build4(h, payload)) + padding;
    assert frame[..|frame|] == frame && network[..|network|] == network;
    Decode4(h, payload, network);
    Build4Octets(h, payload);
    assert network[h.Length()..h.Length() + |payload|] == payload;
    DecodeBuilt(destination, source, tags, 0x0800, network, |frame|);
  }

  /**
    What is left of an IPv4 frame that was cut off: nothing inside its headers,
    and behind them a malformed packet with the transport that is there, unless a
    first fragment lacks a whole transport header.
  */
  lemma Ipv4Truncated(destination: Mac, source: Mac, tags: seq<Tag>, h: Header4, payload: Bytes, k: nat)
    requires TagsValid(tags) && h.Valid() && h.Length() + |payload| < 0x1_0000
    requires k < |Build(destination, source, tags, 0x0800, Build4(h, payload))|
    ensures var frame := Build(destination, source, tags, 0x0800, Build4(h, payload));
            var at := 14 + 4 * |tags| + h.Length();
            Decode(frame[..k]) ==
              if |tags| > 2 || k < at then Err(EBADMSG)
              else Seen(destination, source, tags, 0x0800, Network4(h, |payload|, true), payload[..k - at], k)
  {
    hide Decode, Build4, Seen, DecodeIpv4, DecodeIpv6;
    var b, offset := Build4(h, payload), 14 + 4 * |tags|;
    DecodeBuilt(destination, source, tags, 0x0800, b, k);
    if |tags| <= 2 && k >= offset {
      var cut := b[..k - offset];
      if k - offset < h.Length() {
        Decode4Short(h, payload, k - offset);
      } else {
        Decode4(h, payload, cut);
        Build4Octets(h, payload);
        CutSlice(b, |cut|, h.Length(), |cut|);
        SubSlice(b, h.Length(), 0, |cut| - h.Length());
      }
    }
  }

  /**
    Any IPv6 frame, with up to eight extension headers of which the last may be a
    later fragment's, in front of any padding, decodes to the fields it was built
    from.
  */
  lemma Ipv6RoundTrip(destination: Mac, source: Mac, tags: seq<Tag>, h: Header6, payload: Bytes, padding: Bytes)
    requires TagsValid(tags) && h.Valid() && h.Length() - 40 + |payload| < 0x1_0000
    ensures var frame := Build(destination, source, tags, 0x86dd, Build6(h, payload)) + padding;
            Decode(frame) == if |tags| > 2 then Err(EBADMSG)
                             else
                               Seen(destination, source, tags, 0x86dd, Network6(h, |payload|, false), payload, |frame|)
  {
    hide Decode, Build6, Seen, DecodeIpv4, DecodeIpv6, Readable, Fragments, EndsLater;
    var network := Build6(h, payload) + padding;
    var frame := Build(destination, source, tags, 0x86dd, network);
    assert frame == Build(destination, source, tags, 0x86dd, Build6(h, payload)) + padding;
    assert frame[..|frame|] == frame && network[..|network|] == network;
    Decode6(h, payload, network);
    Build6Octets(h, payload);
    assert network[h.Length()..h.Length() + |payload|] == payload;
    DecodeBuilt(destination, source, tags, 0x86dd, network, |frame|);
  }

  /** What is left of an IPv6 frame that was cut off. */
  lemma Ipv6Truncated(destination: Mac, source: Mac, tags: seq<Tag>, h: Header6, payload: Bytes, k: nat)
    requires TagsValid(tags) && h.Valid() && h.Length() - 40 + |payload| < 0x1_0000
    requires k < |Build(destination, source, tags, 0x86dd, Build6(h, payload))|
    ensures var frame := Build(destination, source, tags, 0x86dd, Build6(h, payload));
            var at := 14 + 4 * |tags| + h.Length();
            Decode(frame[..k]) ==
              if |tags| > 2 || k < at then Err(EBADMSG)
              else Seen(destination, source, tags, 0x86dd, Network6(h, |payload|, true), payload[..k - at], k)
  {
    hide Decode, Build6, Seen, DecodeIpv4, DecodeIpv6, Readable, Fragments, EndsLater;
    var b, offset := Build6(h, payload), 14 + 4 * |tags|;
    DecodeBuilt(destination, source, tags, 0x86dd, b, k);
    if |tags| <= 2 && k >= offset {
      var cut := b[..k - offset];
      Decode6(h, payload, cut);
      Build6Octets(h, payload);
      if k - offset >= h.Length() {
        CutSlice(b, |cut|, h.Length(), |cut|);
        SubSlice(b, h.Length(), 0, |cut| - h.Length());
      }
    }
  }
}
