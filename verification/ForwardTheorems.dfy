/**
  What `forward` promises: the forwarded frame still means the same packet, its
  checksums stay valid, and `restore_forwarded` undoes it exactly.
*/
module ForwardTheorems {
  import opened Wire
  import opened Checksum
  import opened Packet
  import opened PacketShape
  import opened PacketEdit
  import opened RestoreValues

  /** A decoded view agrees with the octets it was read from. */
  lemma DecodeReads(f: Bytes)
    requires Decode(f).Ok?
    ensures Decode(f).value == Reread(f, Decode(f).value)
  {
    DecodeReread(f, f);
  }

  ghost function HopChecksum(f: Bytes, v: View): word
    requires Located(f, v) && v.tuple.family == FAMILY_IPV4 && v.ttl > 0
  {
    var n := v.networkOffset;
    Replaced(Word(f[n + 10], f[n + 11]), f[n + 8..n + 10], [v.ttl - 1, v.tuple.protocol]).value
  }

  /** Behind the MACs, only the hop limit and the IPv4 checksum are new. */
  ghost predicate HopLowered(f: Bytes, g: Bytes, v: View)
    requires Located(f, v) && v.ttl > 0
  {
    var n := v.networkOffset;
    && |g| == |f|
    && if v.tuple.family == FAMILY_IPV4 then
         && Agree(f, g, 12, n + 8) && g[n + 8] == v.ttl - 1 && g[n + 9] == f[n + 9]
         && WordIn(g, n + 10) == HopChecksum(f, v) && Agree(f, g, n + 12, |f|)
       else
         Agree(f, g, 12, n + 7) && g[n + 7] == v.ttl - 1 && Agree(f, g, n + 8, |f|)
  }

  ghost predicate IsForwarded(f: Bytes, g: Bytes, v: View, d: Direction)
    requires Located(f, v) && v.ttl > 0
  {
    HopLowered(f, g, v) && g[..6] == d.outputDestinationMac && g[6..12] == d.outputSourceMac
  }

  lemma SetHopLimitValue(f: Bytes, v: View)
    requires Located(f, v) && v.ttl > 0
    ensures SetHopLimit(f, v, v.ttl - 1).Ok? && HopLowered(f, SetHopLimit(f, v, v.ttl - 1).value, v)
  {
  }

  lemma LoweredThroughMacs(f: Bytes, h: Bytes, g: Bytes, v: View)
    requires Located(f, v) && v.ttl > 0 && HopLowered(f, h, v) && Agree(h, g, 12, |f|)
    ensures HopLowered(f, g, v)
  {
  }

  lemma ForwardValue(f: Bytes, v: View, d: Direction)
    requires Located(f, v) && SameFamily(v, d) && v.ttl > 0
    ensures Forward(f, v, d).Ok? && IsForwarded(f, Forward(f, v, d).value, v, d)
  {
    hide HopLowered, SetHopLimit, SetMacs;
    SetHopLimitValue(f, v);
    var h := SetHopLimit(f, v, v.ttl - 1).value;
    SetMacsValue(h, d.outputDestinationMac, d.outputSourceMac);
    LoweredThroughMacs(f, h, SetMacs(h, d.outputDestinationMac, d.outputSourceMac).value, v);
  }

  /** `forward` refuses a decoded frame only when its hop limit is already zero. */
  lemma ForwardFailsOnlyAtZero(f: Bytes, d: Direction)
    requires Decode(f).Ok? && SameFamily(Decode(f).value, d)
    ensures Forward(f, Decode(f).value, d).Err? <==> Decode(f).value.ttl == 0
  {
    var v := Decode(f).value;
    if v.ttl > 0 {
      ForwardValue(f, v, d);
    }
  }

  lemma UndoHopLimitValue(g: Bytes, v: View)
    requires Located(g, v)
    ensures UndoHopLimit(g, v).Ok?
    ensures var n, h := v.networkOffset, UndoHopLimit(g, v).value;
            && |h| == |g|
            && if v.tuple.family == FAMILY_IPV4 then
                 && Agree(g, h, 12, n + 8) && h[n + 8] == v.ttl && h[n + 9] == g[n + 9]
                 && [h[n + 10], h[n + 11]] == Octets(v.ipv4Checksum) && Agree(g, h, n + 12, |g|)
               else
                 Agree(g, h, 12, n + 7) && h[n + 7] == v.ttl && Agree(g, h, n + 8, |g|)
  {
  }

  /** Undoing the hop limit of a forwarded frame gives back everything but the MACs. */
  lemma UndoAfterForward(f: Bytes, g: Bytes, v: View, d: Direction)
    requires Located(f, v) && SameFamily(v, d) && v.ttl > 0 && v == Reread(f, v)
    requires IsForwarded(f, g, v, d)
    ensures UndoHopLimit(g, v).Ok? && CarriesForwardMarks(g, v, d)
    ensures Agree(f, UndoHopLimit(g, v).value, 12, |f|)
  {
    hide UndoHopLimit, HopChecksum, Replaced;
    UndoHopLimitValue(g, v);
    var n := v.networkOffset;
    if v.tuple.family == FAMILY_IPV4 {
      OctetsOfWord(f[n + 10], f[n + 11]);
    }
  }

  /**
    A frame prepared by `forward` and retired by `restore_forwarded` is octet for
    octet the frame `restore` gives on the frame as received.
  */
  lemma ForwardThenRestore(f: Bytes, d: Direction)
    requires Decode(f).Ok? && Decode(f).value.ttl > 0 && SameFamily(Decode(f).value, d)
    ensures var v := Decode(f).value;
            && Forward(f, v, d).Ok?
            && RestoreForwarded(Forward(f, v, d).value, v, d) == Restore(f, v, d)
  {
    var v := Decode(f).value;
    DecodeReads(f);
    ForwardValue(f, v, d);
    var g := Forward(f, v, d).value;
    UndoAfterForward(f, g, v, d);
    RestoreIgnoresMacs(f, UndoHopLimit(g, v).value, v, d);
  }

  /** `restore_forwarded` takes back exactly the frames that carry the MACs and the hop limit that `forward` writes. */
  lemma RetiresOnlyForwarded(f: Bytes, g: Bytes, d: Direction)
    requires Decode(f).Ok? && SameFamily(Decode(f).value, d) && |g| == |f|
    ensures var v := Decode(f).value;
            RestoreForwarded(g, v, d).Ok? <==>
              && 12 <= |g| && g[..6] == d.outputDestinationMac && g[6..12] == d.outputSourceMac
              && var hop := v.networkOffset + if v.tuple.family == 4 then 8 else 7;
              hop < |g| && g[hop] as int + 1 == v.ttl as int
  {
    hide Restore, IsRestored;
    var v := Decode(f).value;
    if v.ttl > 0 {
      UndoHopLimitValue(g, v);
      RestoreRegions(UndoHopLimit(g, v).value, v, d);
    }
  }

  /** The view of a forwarded frame. */
  ghost function ForwardedView(f: Bytes, v: View, d: Direction): View
    requires Located(f, v) && v.ttl > 0
  {
    v.(destinationMac := d.outputDestinationMac, sourceMac := d.outputSourceMac, ttl := v.ttl - 1,
       ipv4Checksum := if v.tuple.family == FAMILY_IPV4 then HopChecksum(f, v) else v.ipv4Checksum)
  }

  lemma RereadForwarded(f: Bytes, g: Bytes, v: View, d: Direction)
    requires Located(f, v) && v.ttl > 0 && v == Reread(f, v)
    requires IsForwarded(f, g, v, d)
    ensures SameShape(f, g, v) && Reread(g, v) == ForwardedView(f, v, d)
  {
    hide HopChecksum, Ipv4Address;
    var n := v.networkOffset;
    if v.tuple.family == FAMILY_IPV4 {
      AgreeSlice(f, g, n + 12, |f|, n + 12, n + 16);
      AgreeSlice(f, g, n + 12, |f|, n + 16, n + 20);
    } else {
      AgreeSlice(f, g, n + 8, |f|, n + 8, n + 24);
      AgreeSlice(f, g, n + 8, |f|, n + 24, n + 40);
    }
  }

  /** Forwarding changes nothing a decoder sees but MACs, hop limit and IPv4 checksum. */
  lemma ForwardKeepsMeaning(f: Bytes, d: Direction)
    requires Decode(f).Ok? && Decode(f).value.ttl > 0 && SameFamily(Decode(f).value, d)
    ensures var v := Decode(f).value;
            && Forward(f, v, d).Ok?
            && Decode(Forward(f, v, d).value) == Ok(ForwardedView(f, v, d))
  {
    var v := Decode(f).value;
    DecodeReads(f);
    ForwardValue(f, v, d);
    var g := Forward(f, v, d).value;
    RereadForwarded(f, g, v, d);
    DecodeReread(f, g);
  }

  lemma ForwardedHeaderSum(f: Bytes, g: Bytes, v: View, d: Direction)
    requires Located(f, v) && v.tuple.family == FAMILY_IPV4 && v.ttl > 0
    requires f[v.networkOffset + 9] == v.tuple.protocol
    requires IsForwarded(f, g, v, d)
    ensures var n := v.networkOffset;
            WordSum(g[n..n + 20]) - WordSum(f[n..n + 20])
            == HopChecksum(f, v) + Word(v.ttl - 1, v.tuple.protocol)
               - Word(f[n + 10], f[n + 11]) - Word(f[n + 8], f[n + 9])
    ensures f[v.networkOffset] > 0 ==>
              WordSum(f[v.networkOffset..v.networkOffset + 20]) > 0
                && WordSum(g[v.networkOffset..v.networkOffset + 20]) > 0
  {
    hide WordSum, HopChecksum;
    var n := v.networkOffset;
    HeaderSum(f, n);
    HeaderSum(g, n);
    assert f[n..n + 8] == g[n..n + 8];
    assert f[n + 12..n + 16] == g[n + 12..n + 16] && f[n + 16..n + 20] == g[n + 16..n + 20];
  }

  lemma HopChecksumResidue(f: Bytes, v: View)
    requires Located(f, v) && v.tuple.family == FAMILY_IPV4 && v.ttl > 0
    ensures var n := v.networkOffset;
            Congruent(HopChecksum(f, v),
                      Word(f[n + 10], f[n + 11]) + Word(f[n + 8], f[n + 9]) - Word(v.ttl - 1, v.tuple.protocol))
  {
    var n := v.networkOffset;
    var before, after := f[n + 8..n + 10], [v.ttl - 1, v.tuple.protocol];
    ReplacedResidue(Word(f[n + 10], f[n + 11]), before, after);
    assert before == [f[n + 8], f[n + 9]];
    assert WordSum(before) == Word(f[n + 8], f[n + 9]);
    assert WordSum(after) == Word(v.ttl - 1, v.tuple.protocol);
  }

  /** The incremental update leaves the header sum in the same residue class. */
  lemma ForwardKeepsHeaderSum(f: Bytes, g: Bytes, v: View, d: Direction)
    requires Located(f, v) && v.tuple.family == FAMILY_IPV4 && v.ttl > 0
    requires f[v.networkOffset] > 0 && f[v.networkOffset + 9] == v.tuple.protocol
    requires IsForwarded(f, g, v, d)
    ensures var n := v.networkOffset;
            Fold(WordSum(f[n..n + 20])) == 0xffff <==> Fold(WordSum(g[n..n + 20])) == 0xffff
  {
    var n := v.networkOffset;
    ForwardedHeaderSum(f, g, v, d);
    HopChecksumResidue(f, v);
    SameVerdict(WordSum(g[n..n + 20]), WordSum(f[n..n + 20]));
  }

  lemma EligibleHeadersSame(f: Bytes, g: Bytes, v: View, w: View)
    requires Located(f, v) && |g| == |f| && !v.extended
    requires w == v.(destinationMac := w.destinationMac, sourceMac := w.sourceMac, ttl := w.ttl,
                     ipv4Checksum := w.ipv4Checksum)
    requires Agree(f, g, v.networkOffset + (if v.tuple.family == FAMILY_IPV4 then 12 else 8), |f|)
    requires v.tuple.family == FAMILY_IPV4 ==>
               var n := v.networkOffset;
               Fold(WordSum(f[n..n + 20])) == 0xffff <==> Fold(WordSum(g[n..n + 20])) == 0xffff
    ensures EligibleHeaders(f, v) <==> EligibleHeaders(g, w)
  {
    if InFrame(f, v) {
      assert Transport(f, v) == Transport(g, w);
      var n := v.networkOffset;
      if v.tuple.family == FAMILY_IPV4 {
        assert f[n + 12..n + 20] == g[n + 12..n + 20];
      } else {
        assert f[n + 8..n + 40] == g[n + 8..n + 40];
      }
      assert PseudoHeaderSum(f, v) == PseudoHeaderSum(g, w);
    }
  }

  /**
    A forwarded frame is eligible again exactly when the frame was and its hop
    limit still exceeds two: header and transport checksums survive the edit.
  */
  lemma ForwardKeepsEligible(f: Bytes, d: Direction, mtu: word)
    requires Decode(f).Ok? && Decode(f).value.ttl > 0 && SameFamily(Decode(f).value, d)
    ensures var v := Decode(f).value;
            && Forward(f, v, d).Ok? && Decode(Forward(f, v, d).value).Ok?
            && var g := Forward(f, v, d).value;
               Eligible(g, Decode(g).value, mtu) <==> Eligible(f, v, mtu) && v.ttl > 2
  {
    hide Decode, Forward, EligibleHeaders, HopChecksum;
    var v := Decode(f).value;
    DecodeReads(f);
    ForwardValue(f, v, d);
    ForwardKeepsMeaning(f, d);
    var g := Forward(f, v, d).value;
    if !v.extended {
      if v.tuple.family == FAMILY_IPV4 {
        DecodedIpv4Header(f);
        ForwardKeepsHeaderSum(f, g, v, d);
      }
      EligibleHeadersSame(f, g, v, Decode(g).value);
    }
  }

  // What the forwarding test means.

  predicate Bit(octet: byte, k: nat)
    requires k < 8
  {
    var weights := [1, 2, 4, 8, 16, 32, 64, 128];
    octet / weights[k] % 2 == 1
  }

  /** TCP control bits: a data or acknowledgement segment, not one that opens or ends a connection. */
  lemma PlainSegment(flags: byte)
    ensures flags / 16 % 2 == 1 && flags % 8 == 0 && flags / 32 % 2 == 0 <==>
            Bit(flags, 4) && !Bit(flags, 0) && !Bit(flags, 1) && !Bit(flags, 2) && !Bit(flags, 5)
  {
    assert Bit(flags, 0) == (flags % 2 == 1) && Bit(flags, 1) == (flags / 2 % 2 == 1)
      && Bit(flags, 2) == (flags / 4 % 2 == 1);
  }

  /** A TCP transport passes when its header, in whole words, fits and its control bits are plain. */
  lemma SegmentMeans(transport: Bytes, v: View)
    requires v.tuple.protocol == PROTOCOL_TCP
    ensures TransportEligible(transport, v) <==>
              && |transport| >= 20
              && (exists words :: 5 <= words && transport[12] == 16 * words && 4 * words <= |transport|)
              && Bit(v.flags, 4) && !Bit(v.flags, 0) && !Bit(v.flags, 1) && !Bit(v.flags, 2) && !Bit(v.flags, 5)
  {
    hide Bit;
    PlainSegment(v.flags);
    if |transport| >= 20 {
      var words := transport[12] / 16;
      assert transport[12] % 16 == 0 ==> transport[12] == 16 * words;
    }
  }

  /** Octets whose words, with anything already summed, add up to a multiple of 0xffff, and not to nothing. */
  ghost predicate SumsOut(total: nat) {
    total > 0 && Congruent(total, 0)
  }

  /** A guard compares the six DSCP bits and the flow label; ECN may change under it. */
  lemma GuardSeesDscp(v: View, g: Guard, dscp: nat, ecn: nat, guardEcn: nat)
    requires dscp < 64 && ecn < 4 && guardEcn < 4
    ensures GuardMatches(v.(trafficClass := 4 * dscp + ecn), g.(trafficClass := 4 * dscp + guardEcn))
            <==> v.flowLabel == g.flowLabel
    ensures forall other :: 0 <= other < 64 && other != dscp ==>
              !GuardMatches(v.(trafficClass := 4 * dscp + ecn), g.(trafficClass := 4 * other + guardEcn))
  {
  }
}
