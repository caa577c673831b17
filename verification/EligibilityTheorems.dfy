/**
  Restoration is checksum neutral: a restored frame passes the forwarding test
  exactly when the received frame does. For IPv4 the incremental updates keep
  every sum congruent; for IPv6 `restore` touches no transport octet and relies
  on the neutral mapping of both addresses.
*/
module EligibilityTheorems {
  import opened Wire
  import opened Checksum
  import opened Packet
  import opened PacketShape
  import opened PacketEdit
  import opened RestoreValues
  import opened ForwardTheorems
  import opened Directions
  import opened NatTheorems

  /** The received frame carries the direction's translated tuple. */
  ghost predicate Carries(w: View, d: Direction) {
    && SameFamily(w, d) && SameAddresses(w.tuple, d.translated)
    && (w.ports ==> w.tuple.sourcePort == d.translated.sourcePort
                    && w.tuple.destinationPort == d.translated.destinationPort)
  }

  /** Both endpoint pairs are valid, and an IPv6 mapping is neutral. */
  ghost predicate NeutralEndpoints(d: Direction) {
    Endpoints(d) && (d.original.family == FAMILY_IPV6 ==> Ipv6Neutral(d))
  }

  lemma CarriedPorts(r: Bytes, w: View, d: Direction)
    requires Located(r, w) && w == Reread(r, w) && Carries(w, d) && w.ports
    ensures r[w.transportOffset..w.transportOffset + 4] == PortOctets(d.translated)
  {
    var t := w.transportOffset;
    OctetsOfWord(r[t], r[t + 1]);
    OctetsOfWord(r[t + 2], r[t + 3]);
    assert r[t..t + 4] == [r[t], r[t + 1]] + [r[t + 2], r[t + 3]];
  }

  lemma CarriedIpv4Addresses(r: Bytes, w: View, d: Direction)
    requires Located(r, w) && w == Reread(r, w) && Carries(w, d) && w.tuple.family == FAMILY_IPV4
    ensures var n := w.networkOffset;
            r[n + 12..n + 16] == d.translated.source[..4] && r[n + 16..n + 20] == d.translated.destination[..4]
  {
    var n := w.networkOffset;
    assert r[n + 12..n + 16] == AddressAt(r, w, false)[..4];
    assert r[n + 16..n + 20] == AddressAt(r, w, true)[..4];
  }

  lemma WrittenPorts(r: Bytes, t: nat, tuple: Tuple)
    requires t + 4 <= |r| && r[t..t + 4] == PortOctets(tuple)
    ensures Word(r[t], r[t + 1]) == tuple.sourcePort && Word(r[t + 2], r[t + 3]) == tuple.destinationPort
  {
    assert r[t] == r[t..t + 4][0] && r[t + 1] == r[t..t + 4][1];
    assert r[t + 2] == r[t..t + 4][2] && r[t + 3] == r[t..t + 4][3];
  }

  lemma PaddedIpv4(octets: Bytes, address: Address)
    requires octets == address[..4] && IsZero(address[4..])
    ensures Ipv4Address(octets) == address
  {
    assert address == address[..4] + address[4..];
    assert forall i :: 0 <= i < 12 ==> address[4..][i] == 0;
  }

  lemma Ipv4Carried(o: Bytes, r: Bytes, v: View, d: Direction)
    requires Located(o, v) && v.tuple.family == FAMILY_IPV4 && IsTranslated(o, r, v, d)
    requires Endpoints(d) && BelongsTo(v, d)
    ensures Located(r, v) && Carries(Reread(r, v), d)
  {
    hide Rewritten, ChecksumTranslated, AddressesMove, AddressShift, Ipv4Address, PortOctets;
    var n := v.networkOffset;
    PaddedIpv4(r[n + 12..n + 16], d.translated.source);
    PaddedIpv4(r[n + 16..n + 20], d.translated.destination);
    if v.ports {
      WrittenPorts(r, v.transportOffset, d.translated);
    }
  }

  lemma OriginalPorts(o: Bytes, v: View, d: Direction)
    requires Located(o, v) && v == Reread(o, v) && BelongsTo(v, d) && v.ports
    ensures o[v.transportOffset..v.transportOffset + 4] == PortOctets(d.original)
  {
    CarriedPorts(o, v, d.(translated := d.original));
  }

  lemma Ipv6Carried(o: Bytes, r: Bytes, v: View, d: Direction)
    requires Located(o, v) && v.tuple.family == FAMILY_IPV6 && IsTranslated(o, r, v, d)
    requires Endpoints(d) && v == Reread(o, v) && BelongsTo(v, d)
    ensures Located(r, v) && Carries(Reread(r, v), d)
  {
    hide PortOctets, TupleValid, Word, Agree, HeaderTranslated, TransportTranslated, Ipv4Address;
    if v.ports {
      var t := v.transportOffset;
      AgreeSlice(o, r, v.networkOffset + 40, |o|, t, t + 4);
      OriginalPorts(o, v, d);
      WrittenPorts(r, t, d.translated);
    }
  }

  /** What the hardware makes of a direction's frame arrives with the MACs and tuple the worker looks it up by. */
  lemma TranslationCarries(o: Bytes, r: Bytes, d: Direction)
    requires Decode(o).Ok? && Endpoints(d) && BelongsTo(Decode(o).value, d)
    requires IsTranslated(o, r, Decode(o).value, d)
    ensures Decode(r).Ok? && Carries(Decode(r).value, d)
    ensures Decode(r).value.sourceMac == d.originalSourceMac
    ensures Decode(r).value.destinationMac == d.originalDestinationMac
    ensures Decode(r).value.ports == Decode(o).value.ports && Decode(r).value.fragment == Decode(o).value.fragment
  {
    hide Decode, HeaderTranslated, TransportTranslated, Carries;
    var v := Decode(o).value;
    DecodeReads(o);
    TranslationKeepsShape(o, r, d);
    MacsTranslated(o, r, v, d);
    if v.tuple.family == FAMILY_IPV4 {
      Ipv4Carried(o, r, v, d);
    } else {
      Ipv6Carried(o, r, v, d);
    }
  }

  lemma MacsTranslated(o: Bytes, r: Bytes, v: View, d: Direction)
    requires Located(o, v) && IsTranslated(o, r, v, d)
    ensures |r| == |o| && r[0..6] == o[0..6] && r[6..12] == o[6..12]
  {
    AgreeSlice(o, r, 0, v.networkOffset, 0, 6);
    AgreeSlice(o, r, 0, v.networkOffset, 6, 12);
  }

  /** The sum of a transport by ports, checksum and the rest. */
  lemma TransportSum(f: Bytes, t: nat, c: nat, end: nat)
    requires t + 4 <= c && (c - t) % 2 == 0 && c + 2 <= end <= |f|
    ensures WordSum(f[t..end]) == WordSum(f[t..t + 4]) + WordSum(f[t + 4..c]) + WordIn(f, c) + WordSum(f[c + 2..end])
  {
    assert f[t..end] == f[t..t + 4] + f[t + 4..end];
    WordSumConcat(f[t..t + 4], f[t + 4..end]);
    assert f[t + 4..end] == f[t + 4..c] + f[c..end];
    WordSumConcat(f[t + 4..c], f[c..end]);
    assert f[c..end][2..] == f[c + 2..end];
  }

  /** The header sum stays in its residue class. */
  lemma RestoredHeaderVerdict(r: Bytes, g: Bytes, w: View, d: Direction)
    requires Located(r, w) && w.tuple.family == FAMILY_IPV4 && Endpoints(d) && d.original.family == FAMILY_IPV4
    requires |g| == |r| && RestoredIpv4Header(r, g, w, d)
    requires var n := w.networkOffset;
             && r[n] > 0
             && r[n + 12..n + 16] == d.translated.source[..4] && r[n + 16..n + 20] == d.translated.destination[..4]
    ensures var n := w.networkOffset;
            Fold(WordSum(r[n..n + 20])) == 0xffff <==> Fold(WordSum(g[n..n + 20])) == 0xffff
  {
    hide WordSum, Fold, ReplaceAddresses, Multiple;
    var n := w.networkOffset;
    HeaderSum(r, n);
    HeaderSum(g, n);
    assert r[n..n + 8] == g[n..n + 8];
    ReplaceAddressesResidue(WordIn(r, n + 10), d);
    var k :| ReplaceAddresses(WordIn(r, n + 10), d)
             - (WordIn(r, n + 10) + AddressSum(d.translated) - AddressSum(d.original)) == Multiple(k);
    assert WordSum(g[n..n + 20]) - WordSum(r[n..n + 20]) == Multiple(k);
    SameVerdict(WordSum(g[n..n + 20]), WordSum(r[n..n + 20]));
  }

  /** A nonzero transport checksum moves with the tuple, and UDP keeps zero and nonzero apart. */
  lemma TransportChecksumMoves(r: Bytes, w: View, d: Direction)
    requires Located(r, w) && w.ports && ChecksumPlace(w).Some? && Endpoints(d) && d.original.family == FAMILY_IPV4
    requires r[w.transportOffset..w.transportOffset + 4] == PortOctets(d.translated)
    ensures var x := WordIn(r, w.transportOffset + ChecksumPlace(w).value);
            var y := TransportChecksumAfter(r, w, d);
            var udp := w.tuple.protocol == PROTOCOL_UDP;
            && (udp ==> (x == 0 <==> y == 0))
            && (!(udp && x == 0) ==> Congruent(y, x - (AddressShift(d) + PortShift(d))))
  {
    var x := WordIn(r, w.transportOffset + ChecksumPlace(w).value);
    TransportChecksumValue(r, w, d, x);
    ReplaceAllResidue(x, d);
    var computed := Replaced(ReplaceAddresses(x, d), PortOctets(d.translated), PortOctets(d.original)).value;
    if computed == 0 {
      var k :| computed - (x - (AddressShift(d) + PortShift(d))) == Multiple(k);
      assert 0xffff - (x - (AddressShift(d) + PortShift(d))) == Multiple(k + 1);
    }
  }

  /** A view of the same shape and family. */
  ghost predicate SameRanges(w: View, w': View) {
    && w'.networkOffset == w.networkOffset && w'.networkLength == w.networkLength
    && w'.ipHeaderLength == w.ipHeaderLength
    && w'.transportOffset == w.transportOffset && w'.transportLength == w.transportLength
    && w'.tuple.family == w.tuple.family && w'.tuple.protocol == w.tuple.protocol
  }

  lemma PseudoHeaderMoves(r: Bytes, g: Bytes, w: View, w': View, d: Direction)
    requires InFrame(r, w) && InFrame(g, w') && SameRanges(w, w') && |g| == |r| && w.tuple.family == FAMILY_IPV4
    requires var n := w.networkOffset;
             && r[n + 12..n + 16] == d.translated.source[..4] && r[n + 16..n + 20] == d.translated.destination[..4]
             && g[n + 12..n + 16] == d.original.source[..4] && g[n + 16..n + 20] == d.original.destination[..4]
    ensures PseudoHeaderSum(g, w') == PseudoHeaderSum(r, w) + AddressShift(d)
  {
    hide WordSum;
    PseudoSum(r, w.networkOffset);
    PseudoSum(g, w.networkOffset);
  }

  lemma TransportSumMoves(r: Bytes, g: Bytes, w: View, w': View, d: Direction, c: nat)
    requires InFrame(r, w) && InFrame(g, w') && SameRanges(w, w') && |g| == |r|
    requires var t, end := w.transportOffset, w.transportOffset + w.transportLength;
             && t + 4 <= c && (c - t) % 2 == 0 && c + 2 <= end
             && r[t..t + 4] == PortOctets(d.translated) && g[t..t + 4] == PortOctets(d.original)
             && Agree(r, g, t + 4, c) && Agree(r, g, c + 2, |r|)
    ensures WordSum(Transport(g, w'))
            == WordSum(Transport(r, w)) + PortShift(d) + WordIn(g, c) - WordIn(r, c)
  {
    hide WordSum;
    var t, end := w.transportOffset, w.transportOffset + w.transportLength;
    TransportSum(r, t, c, end);
    TransportSum(g, t, c, end);
    assert r[t + 4..c] == g[t + 4..c] && r[c + 2..end] == g[c + 2..end];
  }

  lemma SumsMoveTogether(a: int, p: int, b: int, q: int, x: int, y: int, addresses: int, ports: int)
    requires p == a + addresses && q == b + ports + y - x && Congruent(y, x - (addresses + ports))
    ensures Congruent(p + q, a + b)
  {
    var k :| y - (x - (addresses + ports)) == Multiple(k);
    assert (p + q) - (a + b) == Multiple(k);
  }

  /** The transport checksum test keeps its verdict. */
  lemma Ipv4WholeVerdict(r: Bytes, g: Bytes, w: View, w': View, d: Direction)
    requires Located(r, w) && w.tuple.family == FAMILY_IPV4 && Endpoints(d) && d.original.family == FAMILY_IPV4
    requires w.ports && ChecksumPlace(w).Some? && InFrame(r, w) && InFrame(g, w') && SameRanges(w, w')
    requires |g| == |r| && RestoredIpv4Header(r, g, w, d) && RestoredTransport(r, g, w, d)
    requires var n := w.networkOffset;
             && r[n + 12..n + 16] == d.translated.source[..4] && r[n + 16..n + 20] == d.translated.destination[..4]
             && r[w.transportOffset..w.transportOffset + 4] == PortOctets(d.translated)
    requires w.tuple.protocol == PROTOCOL_UDP ==> WordIn(r, w.transportOffset + ChecksumPlace(w).value) != 0
    ensures Fold(PseudoHeaderSum(r, w) + WordSum(Transport(r, w))) == 0xffff
       <==> Fold(PseudoHeaderSum(g, w') + WordSum(Transport(g, w'))) == 0xffff
  {
    hide WordSum, Fold, AddressShift, PortShift, TransportChecksumAfter, Endpoints, PortOctets;
    var c := w.transportOffset + ChecksumPlace(w).value;
    PseudoHeaderMoves(r, g, w, w', d);
    TransportSumMoves(r, g, w, w', d, c);
    TransportChecksumMoves(r, w, d);
    SumsMoveTogether(PseudoHeaderSum(r, w), PseudoHeaderSum(g, w'), WordSum(Transport(r, w)), WordSum(Transport(g, w')),
                     WordIn(r, c), WordIn(g, c), AddressShift(d), PortShift(d));
    SameVerdict(PseudoHeaderSum(g, w') + WordSum(Transport(g, w')), PseudoHeaderSum(r, w) + WordSum(Transport(r, w)));
  }

  lemma PseudoSum(f: Bytes, n: nat)
    requires n + 20 <= |f|
    ensures WordSum(f[n + 12..n + 20]) == WordSum(f[n + 12..n + 16]) + WordSum(f[n + 16..n + 20])
  {
    assert f[n + 12..n + 20] == f[n + 12..n + 16] + f[n + 16..n + 20];
    WordSumConcat(f[n + 12..n + 16], f[n + 16..n + 20]);
  }

  /** Neutral addresses keep the IPv6 pseudo-header in its residue class. */
  lemma RestoredIpv6Sum(r: Bytes, g: Bytes, w: View, d: Direction)
    requires Located(r, w) && w.tuple.family == FAMILY_IPV6 && |g| == |r| && Ipv6Neutral(d)
    requires RestoredIpv6(r, g, w, d)
    requires var n := w.networkOffset;
             r[n + 8..n + 24] == d.translated.source && r[n + 24..n + 40] == d.translated.destination
    ensures var n := w.networkOffset; Congruent(WordSum(g[n + 8..n + 40]), WordSum(r[n + 8..n + 40]))
  {
    hide WordSum, Ipv6Sum;
    var n := w.networkOffset;
    Ipv6SumIsNeutral(d.original.source, d.translated.source);
    Ipv6SumIsNeutral(d.original.destination, d.translated.destination);
    assert r[n + 8..n + 40] == r[n + 8..n + 24] + r[n + 24..n + 40];
    assert g[n + 8..n + 40] == g[n + 8..n + 24] + g[n + 24..n + 40];
    WordSumConcat(r[n + 8..n + 24], r[n + 24..n + 40]);
    WordSumConcat(g[n + 8..n + 24], g[n + 24..n + 40]);
    CongruentSum(WordSum(d.original.source), WordSum(d.translated.source),
                 WordSum(d.original.destination), WordSum(d.translated.destination));
  }

  lemma RestoredShape(r: Bytes, g: Bytes, w: View, d: Direction)
    requires Located(r, w) && IsRestored(r, g, w, d)
    ensures SameShape(r, g, w)
  {
  }

  /** Everything the test reads of the transport besides its checksum is the same. */
  lemma RestoredTransportForm(r: Bytes, g: Bytes, w: View, w': View, d: Direction)
    requires Located(r, w) && w == Reread(r, w) && IsRestored(r, g, w, d) && InFrame(r, w) && w.ports
    requires w' == Reread(g, w)
    ensures InFrame(g, w') && SameRanges(w, w')
    ensures TransportEligible(Transport(r, w), w) <==> TransportEligible(Transport(g, w'), w')
    ensures TransportEligible(Transport(r, w), w) ==> ChecksumPlace(w).Some?
  {
    hide RestoredIpv4Header, TransportChecksumAfter, PortOctets;
    var t, len := w.transportOffset, w.transportLength;
    if w.tuple.protocol == PROTOCOL_TCP {
      if len >= 20 {
        assert r[t + 12] == g[t + 12] && r[t + 13] == g[t + 13];
      }
    } else if len >= 8 {
      assert r[t + 4] == g[t + 4] && r[t + 5] == g[t + 5];
    }
  }

  lemma ChecksumPresence(f: Bytes, v: View)
    requires InFrame(f, v) && TransportEligible(Transport(f, v), v)
    ensures UdpWithoutChecksum(f, v) <==> v.tuple.protocol == PROTOCOL_UDP && WordIn(f, v.transportOffset + 6) == 0
  {
  }

  lemma Ipv4ChecksumPresence(r: Bytes, g: Bytes, w: View, w': View, d: Direction)
    requires Located(r, w) && Endpoints(d) && d.original.family == FAMILY_IPV4 && w.ports && |g| == |r|
    requires InFrame(r, w) && InFrame(g, w') && SameRanges(w, w') && ChecksumPlace(w).Some?
    requires TransportEligible(Transport(r, w), w) && TransportEligible(Transport(g, w'), w')
    requires r[w.transportOffset..w.transportOffset + 4] == PortOctets(d.translated)
    requires WordIn(g, w.transportOffset + ChecksumPlace(w).value) == TransportChecksumAfter(r, w, d)
    ensures UdpWithoutChecksum(r, w) <==> UdpWithoutChecksum(g, w')
  {
    hide Endpoints, TransportChecksumAfter, PortOctets, TransportEligible;
    ChecksumPresence(r, w);
    ChecksumPresence(g, w');
    TransportChecksumMoves(r, w, d);
  }

  /** A received IPv4 frame and its restoration, both with a well-formed transport. */
  ghost predicate Ipv4Case(r: Bytes, g: Bytes, w: View, w': View, d: Direction) {
    && Located(r, w) && w == Reread(r, w) && IsRestored(r, g, w, d) && w.tuple.family == FAMILY_IPV4
    && Endpoints(d) && Carries(w, d) && w.ports && !w.extended && r[w.networkOffset] > 0
    && InFrame(r, w) && InFrame(g, w') && SameRanges(w, w') && ChecksumPlace(w).Some?
    && TransportEligible(Transport(r, w), w) && TransportEligible(Transport(g, w'), w')
  }

  lemma PlainHeader(f: Bytes, v: View)
    requires InFrame(f, v) && v.ipHeaderLength == 20
    ensures Ipv4Header(f, v) == f[v.networkOffset..v.networkOffset + 20]
  {
  }

  lemma HeaderVerdict(r: Bytes, g: Bytes, w: View, w': View, d: Direction)
    requires Ipv4Case(r, g, w, w', d)
    ensures Fold(WordSum(Ipv4Header(r, w))) == 0xffff <==> Fold(WordSum(Ipv4Header(g, w'))) == 0xffff
  {
    hide WordSum, Fold, RestoredTransport, TransportEligible, ChecksumPlace, Endpoints, RestoredIpv4Header;
    PlainHeader(r, w);
    PlainHeader(g, w');
    CarriedIpv4Addresses(r, w, d);
    RestoredHeaderVerdict(r, g, w, d);
  }

  lemma PresenceVerdict(r: Bytes, g: Bytes, w: View, w': View, d: Direction)
    requires Ipv4Case(r, g, w, w', d)
    ensures UdpWithoutChecksum(r, w) <==> UdpWithoutChecksum(g, w')
  {
    hide WordSum, Fold, RestoredIpv4Header, Endpoints, TransportChecksumAfter, UdpWithoutChecksum;
    CarriedPorts(r, w, d);
    Ipv4ChecksumPresence(r, g, w, w', d);
  }

  lemma WholeVerdict(r: Bytes, g: Bytes, w: View, w': View, d: Direction)
    requires Ipv4Case(r, g, w, w', d) && !UdpWithoutChecksum(r, w)
    ensures Fold(PseudoHeaderSum(r, w) + WordSum(Transport(r, w))) == 0xffff
       <==> Fold(PseudoHeaderSum(g, w') + WordSum(Transport(g, w'))) == 0xffff
  {
    ChecksumPresence(r, w);
    CarriedIpv4Addresses(r, w, d);
    CarriedPorts(r, w, d);
    Ipv4WholeVerdict(r, g, w, w', d);
  }

  lemma CombinedVerdict(r: Bytes, g: Bytes, w: View, w': View)
    requires InFrame(r, w) && InFrame(g, w') && w.tuple.family == FAMILY_IPV4 && w'.tuple.family == FAMILY_IPV4
    requires TransportEligible(Transport(r, w), w) && TransportEligible(Transport(g, w'), w')
    requires Fold(WordSum(Ipv4Header(r, w))) == 0xffff <==> Fold(WordSum(Ipv4Header(g, w'))) == 0xffff
    requires UdpWithoutChecksum(r, w) <==> UdpWithoutChecksum(g, w')
    requires !UdpWithoutChecksum(r, w) ==>
               (Fold(PseudoHeaderSum(r, w) + WordSum(Transport(r, w))) == 0xffff
           <==> Fold(PseudoHeaderSum(g, w') + WordSum(Transport(g, w'))) == 0xffff)
    ensures ChecksumsValid(r, w) <==> ChecksumsValid(g, w')
  {
  }

  lemma Ipv4Verdict(r: Bytes, g: Bytes, w: View, w': View, d: Direction)
    requires Ipv4Case(r, g, w, w', d)
    ensures ChecksumsValid(r, w) <==> ChecksumsValid(g, w')
  {
    HeaderVerdict(r, g, w, w', d);
    PresenceVerdict(r, g, w, w', d);
    if !UdpWithoutChecksum(r, w) {
      WholeVerdict(r, g, w, w', d);
    }
    CombinedVerdict(r, g, w, w');
  }

  lemma Ipv6Verdict(r: Bytes, g: Bytes, w: View, w': View, d: Direction)
    requires Located(r, w) && w == Reread(r, w) && IsRestored(r, g, w, d) && w.tuple.family == FAMILY_IPV6
    requires Ipv6Neutral(d) && Carries(w, d)
    requires InFrame(r, w) && InFrame(g, w') && SameRanges(w, w')
    requires TransportEligible(Transport(r, w), w) && TransportEligible(Transport(g, w'), w')
    ensures ChecksumsValid(r, w) <==> ChecksumsValid(g, w')
  {
    hide WordSum, Fold, TransportEligible, Ipv6Neutral;
    var n := w.networkOffset;
    RestoredIpv6Sum(r, g, w, d);
    assert Transport(r, w) == Transport(g, w');
    var a, b := PseudoHeaderSum(g, w') + WordSum(Transport(g, w')), PseudoHeaderSum(r, w) + WordSum(Transport(r, w));
    Shifted(WordSum(g[n + 8..n + 40]), WordSum(r[n + 8..n + 40]), b - WordSum(r[n + 8..n + 40]));
    SameVerdict(a, b);
  }

  lemma RestoredHeadersEligible(r: Bytes, g: Bytes, w: View, w': View, d: Direction)
    requires Located(r, w) && w == Reread(r, w) && IsRestored(r, g, w, d) && w' == Reread(g, w)
    requires NeutralEndpoints(d) && Carries(w, d) && w.ports && !w.extended
    requires w.tuple.family == FAMILY_IPV4 ==> r[w.networkOffset] > 0
    ensures EligibleHeaders(r, w) <==> EligibleHeaders(g, w')
  {
    if InFrame(r, w) {
      RestoredTransportForm(r, g, w, w', d);
      if TransportEligible(Transport(r, w), w) {
        if w.tuple.family == FAMILY_IPV4 {
          Ipv4Verdict(r, g, w, w', d);
        } else {
          Ipv6Verdict(r, g, w, w', d);
        }
      }
    }
  }

  lemma RestoredHopLimit(r: Bytes, g: Bytes, w: View, d: Direction)
    requires Located(r, w) && w == Reread(r, w) && IsRestored(r, g, w, d)
    ensures Reread(g, w).ttl == w.ttl
  {
  }

  /**
    For every received frame and every accepted direction whose translated tuple
    it carries, the restored frame decodes to a view of the same shape and passes
    the forwarding test exactly when the received frame does.
  */
  lemma RestoreKeepsEligible(r: Bytes, d: Direction, mtu: word)
    requires Decode(r).Ok? && NeutralEndpoints(d) && Carries(Decode(r).value, d)
    ensures var w := Decode(r).value;
            && Restore(r, w, d).Ok?
            && var g := Restore(r, w, d).value;
               && Decode(g).Ok?
               && (Eligible(g, Decode(g).value, mtu) <==> Eligible(r, w, mtu))
  {
    hide Decode, Restore, EligibleHeaders, IsRestored, Endpoints, Ipv6Neutral;
    var w := Decode(r).value;
    DecodeReads(r);
    RestoreRegions(r, w, d);
    var g := Restore(r, w, d).value;
    RestoredShape(r, g, w, d);
    DecodeReread(r, g);
    var w' := Reread(g, w);
    RestoredHopLimit(r, g, w, d);
    if !w.extended && w.ports {
      if w.tuple.family == FAMILY_IPV4 {
        DecodedIpv4Header(r);
      }
      RestoredHeadersEligible(r, g, w, w', d);
    }
    assert Eligible(g, w', mtu) <==> Eligible(r, w, mtu);
  }
}
