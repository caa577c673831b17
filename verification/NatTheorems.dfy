/**
  What `restore` promises: it inverts the hardware NAT on every frame, up to the
  representation of zero in the checksums it recomputes.
*/
module NatTheorems {
  import opened Wire
  import opened Checksum
  import opened Packet
  import opened PacketShape
  import opened PacketEdit
  import opened RestoreValues
  import opened ForwardTheorems
  import opened Directions

  ghost function AddressSum(t: Tuple): nat {
    WordSum(t.source[..4]) + WordSum(t.destination[..4])
  }

  ghost predicate AddressesMove(d: Direction) {
    d.original.source[..4] != d.translated.source[..4] || d.original.destination[..4] != d.translated.destination[..4]
  }

  ghost predicate PortsMove(d: Direction) {
    PortOctets(d.original) != PortOctets(d.translated)
  }

  /** The endpoints of a direction, as `direction_valid` demands of both tuples. */
  ghost predicate Endpoints(d: Direction) {
    && TupleValid(d.original) && TupleValid(d.translated)
    && d.original.family == d.translated.family && d.original.protocol == d.translated.protocol
    && (d.original.family == FAMILY_IPV6 ==> PortOctets(d.original) == PortOctets(d.translated))
  }

  lemma PositiveAddress(t: Tuple)
    requires TupleValid(t) && t.family == FAMILY_IPV4
    ensures WordSum(t.source[..4]) > 0 && WordSum(t.destination[..4]) > 0
  {
    WordSumZero(t.source[..4]);
    WordSumZero(t.destination[..4]);
    assert forall i :: 4 <= i < 16 ==> t.source[i] == t.source[4..][i - 4];
    assert forall i :: 4 <= i < 16 ==> t.destination[i] == t.destination[4..][i - 4];
  }

  lemma PositivePorts(t: Tuple)
    requires TupleValid(t)
    ensures WordSum(PortOctets(t)) > 0
  {
    assert PortOctets(t)[2..] == Octets(t.destinationPort);
    assert PortOctets(t)[..2] == Octets(t.sourcePort);
  }

  /** Undoing the address rewrite moves a checksum by the difference of the address sums. */
  lemma ReplaceAddressesResidue(x: word, d: Direction)
    requires Endpoints(d) && d.original.family == FAMILY_IPV4
    ensures Congruent(ReplaceAddresses(x, d), x + AddressSum(d.translated) - AddressSum(d.original))
    ensures AddressesMove(d) ==> ReplaceAddresses(x, d) < 0xffff
    ensures !AddressesMove(d) ==> ReplaceAddresses(x, d) == x
  {
    var ts, os := d.translated.source[..4], d.original.source[..4];
    var td, od := d.translated.destination[..4], d.original.destination[..4];
    PositiveAddress(d.original);
    var first := Replaced(x, ts, os).value;
    ReplacedResidue(x, ts, os);
    ReplacedResidue(first, td, od);
    Shifted(first, x + WordSum(ts) - WordSum(os), WordSum(td) - WordSum(od));
    CongruentTransitive(ReplaceAddresses(x, d), first + WordSum(td) - WordSum(od),
                        x + AddressSum(d.translated) - AddressSum(d.original));
  }

  lemma Shifted(a: int, b: int, k: int)
    requires Congruent(a, b)
    ensures Congruent(a + k, b + k)
  {
    var j :| a - b == Multiple(j);
    assert (a + k) - (b + k) == Multiple(j);
  }

  /** The one word below 0xffff in a residue class. */
  ghost function Canonical(c: word): word {
    if c == 0xffff then 0 else c
  }

  lemma Pinned(r: word, c: word)
    requires Congruent(r, c) && r < 0xffff
    ensures r == Canonical(c)
  {
    var k :| r - c == Multiple(k);
  }

  /** The hardware's update of one checksum: untouched with its fields, equivalent otherwise. */
  ghost predicate Rewritten(before: word, after: word, moved: bool, shift: int) {
    if moved then Congruent(after, before + shift) else after == before
  }

  ghost function AddressShift(d: Direction): int {
    AddressSum(d.original) - AddressSum(d.translated)
  }

  ghost function PortShift(d: Direction): int {
    WordSum(PortOctets(d.original)) - WordSum(PortOctets(d.translated))
  }

  /** The hardware leaves a UDP checksum of zero alone and never writes one. */
  ghost predicate ChecksumTranslated(o: Bytes, r: Bytes, v: View, d: Direction)
    requires Located(o, v) && |r| == |o| && v.ports && ChecksumPlace(v).Some?
  {
    var c := v.transportOffset + ChecksumPlace(v).value;
    var udp := v.tuple.protocol == PROTOCOL_UDP;
    && r[v.transportOffset..v.transportOffset + 4] == PortOctets(d.translated)
    && (udp ==> (WordIn(o, c) == 0 <==> WordIn(r, c) == 0))
    && (!(udp && WordIn(o, c) == 0) ==>
          Rewritten(WordIn(o, c), WordIn(r, c), AddressesMove(d) || PortsMove(d), AddressShift(d) + PortShift(d)))
  }

  ghost predicate TransportTranslated(o: Bytes, r: Bytes, v: View, d: Direction)
    requires Located(o, v) && |r| == |o|
  {
    var t := v.transportOffset;
    if !v.ports then Agree(o, r, t, |o|)
    else
      && r[t..t + 4] == PortOctets(d.translated)
      && if ChecksumPlace(v).None? then Agree(o, r, t + 4, |o|)
         else
           var c := t + ChecksumPlace(v).value;
           Agree(o, r, t + 4, c) && Agree(o, r, c + 2, |o|) && ChecksumTranslated(o, r, v, d)
  }

  ghost predicate HeaderTranslated(o: Bytes, r: Bytes, v: View, d: Direction)
    requires Located(o, v) && v.tuple.family == FAMILY_IPV4 && |r| == |o|
  {
    var n := v.networkOffset;
    && Agree(o, r, 0, n + 10) && Agree(o, r, n + 20, v.transportOffset)
    && Rewritten(WordIn(o, n + 10), WordIn(r, n + 10), AddressesMove(d), AddressShift(d))
    && r[n + 12..n + 16] == d.translated.source[..4] && r[n + 16..n + 20] == d.translated.destination[..4]
  }

  /** Frame `r` is frame `o` with the translated tuple and equivalent checksums. */
  ghost predicate IsTranslated(o: Bytes, r: Bytes, v: View, d: Direction)
    requires Located(o, v)
  {
    var n := v.networkOffset;
    && |r| == |o|
    && if v.tuple.family == FAMILY_IPV4 then HeaderTranslated(o, r, v, d) && TransportTranslated(o, r, v, d)
       else
         && Agree(o, r, 0, n + 8) && Agree(o, r, n + 40, |o|)
         && r[n + 8..n + 24] == d.translated.source && r[n + 24..n + 40] == d.translated.destination
  }

  /** The frame belongs to the direction: its MACs, addresses and ports are the original ones. */
  ghost predicate BelongsTo(v: View, d: Direction) {
    && SameFamily(v, d) && SameAddresses(v.tuple, d.original)
    && v.destinationMac == d.originalDestinationMac && v.sourceMac == d.originalSourceMac
    && (v.ports ==> v.tuple.sourcePort == d.original.sourcePort
                    && v.tuple.destinationPort == d.original.destinationPort)
  }

  /** Some checksum of the original is the zero that restoration does not produce. */
  ghost predicate UsesOtherZero(o: Bytes, v: View, d: Direction)
    requires Located(o, v)
  {
    && v.tuple.family == FAMILY_IPV4
    && (|| (AddressesMove(d) && WordIn(o, v.networkOffset + 10) == 0xffff)
        || (&& v.ports && ChecksumPlace(v).Some? && v.tuple.protocol == PROTOCOL_TCP
            && (AddressesMove(d) || PortsMove(d))
            && WordIn(o, v.transportOffset + ChecksumPlace(v).value) == 0xffff))
  }

  /** A checksum moved back by the shift the hardware applied, whichever zero it used. */
  lemma Undone(result: word, after: word, before: word, moved: bool, shift: int)
    requires Rewritten(before, after, moved, shift)
    requires if moved then Congruent(result, after - shift) && result < 0xffff else result == after
    ensures result == if moved then Canonical(before) else before
  {
    if moved {
      Shifted(after, before + shift, -shift);
      CongruentTransitive(result, after - shift, before);
      Pinned(result, before);
    }
  }

  /** The IPv4 checksum of the original, from the one the hardware left. */
  lemma ReplaceAddressesRestores(before: word, after: word, d: Direction)
    requires Endpoints(d) && d.original.family == FAMILY_IPV4
    requires Rewritten(before, after, AddressesMove(d), AddressShift(d))
    ensures ReplaceAddresses(after, d) == if AddressesMove(d) then Canonical(before) else before
  {
    ReplaceAddressesResidue(after, d);
    Undone(ReplaceAddresses(after, d), after, before, AddressesMove(d), AddressShift(d));
  }

  /** Undoing both rewrites of a transport checksum moves it by both differences. */
  lemma ReplaceAllResidue(x: word, d: Direction)
    requires Endpoints(d) && d.original.family == FAMILY_IPV4
    ensures var r := Replaced(ReplaceAddresses(x, d), PortOctets(d.translated), PortOctets(d.original)).value;
            && Congruent(r, x - (AddressShift(d) + PortShift(d)))
            && if AddressesMove(d) || PortsMove(d) then r < 0xffff else r == x
  {
    var moved := ReplaceAddresses(x, d);
    var result := Replaced(moved, PortOctets(d.translated), PortOctets(d.original)).value;
    ReplaceAddressesResidue(x, d);
    ReplacedResidue(moved, PortOctets(d.translated), PortOctets(d.original));
    PositivePorts(d.original);
    Shifted(moved, x - AddressShift(d), -PortShift(d));
    CongruentTransitive(result, moved - PortShift(d), x - AddressShift(d) - PortShift(d));
  }

  lemma TransportChecksumValue(r: Bytes, v: View, d: Direction, w: word)
    requires Located(r, v) && v.ports && ChecksumPlace(v).Some?
    requires w == WordIn(r, v.transportOffset + ChecksumPlace(v).value)
    ensures var t := v.transportOffset;
            var udp := v.tuple.protocol == PROTOCOL_UDP;
            TransportChecksumAfter(r, v, d) == if udp && w == 0 then w else InverseChecksum(udp, w, r[t..t + 4], d)
  {
    TransportChecksumTotal(r, v, d);
  }

  /** The transport checksum of the original, from the one the hardware left. */
  lemma InverseChecksumRestores(udp: bool, before: word, after: word, d: Direction)
    requires Endpoints(d) && d.original.family == FAMILY_IPV4 && (udp ==> before != 0)
    requires Rewritten(before, after, AddressesMove(d) || PortsMove(d), AddressShift(d) + PortShift(d))
    ensures InverseChecksum(udp, after, PortOctets(d.translated), d)
            == if !udp && (AddressesMove(d) || PortsMove(d)) then Canonical(before) else before
  {
    ReplaceAllResidue(after, d);
    Undone(Replaced(ReplaceAddresses(after, d), PortOctets(d.translated), PortOctets(d.original)).value,
           after, before, AddressesMove(d) || PortsMove(d), AddressShift(d) + PortShift(d));
  }

  lemma TransportChecksumRestored(o: Bytes, r: Bytes, v: View, d: Direction)
    requires Located(o, v) && v.tuple.family == FAMILY_IPV4 && Endpoints(d) && d.original.family == FAMILY_IPV4
    requires |r| == |o| && v.ports && ChecksumPlace(v).Some?
    requires ChecksumTranslated(o, r, v, d)
    ensures var w := WordIn(o, v.transportOffset + ChecksumPlace(v).value);
            TransportChecksumAfter(r, v, d)
            == if v.tuple.protocol == PROTOCOL_TCP && (AddressesMove(d) || PortsMove(d)) then Canonical(w) else w
  {
    var c := v.transportOffset + ChecksumPlace(v).value;
    var udp := v.tuple.protocol == PROTOCOL_UDP;
    var before, after := WordIn(o, c), WordIn(r, c);
    var back := TransportChecksumAfter(r, v, d);
    assert back == if udp && after == 0 then after else InverseChecksum(udp, after, PortOctets(d.translated), d) by {
      TransportChecksumValue(r, v, d, after);
    }
    if !udp || before != 0 {
      assert InverseChecksum(udp, after, PortOctets(d.translated), d)
          == if !udp && (AddressesMove(d) || PortsMove(d)) then Canonical(before) else before by {
        InverseChecksumRestores(udp, before, after, d);
      }
    }
  }

  lemma Ipv6RestoredAgrees(o: Bytes, r: Bytes, g: Bytes, v: View, d: Direction)
    requires Located(o, v) && v == Reread(o, v) && BelongsTo(v, d) && v.tuple.family == FAMILY_IPV6
    requires IsTranslated(o, r, v, d) && IsRestored(r, g, v, d)
    ensures g == o
  {
    var n := v.networkOffset;
    MacsAgree(o, g, v, d);
    assert o[n + 8..n + 24] == AddressAt(o, v, false) && o[n + 24..n + 40] == AddressAt(o, v, true);
    SliceAgree(o, g, n + 8, n + 24);
    SliceAgree(o, g, n + 24, n + 40);
  }

  lemma TransportComesBack(o: Bytes, r: Bytes, g: Bytes, v: View, d: Direction)
    requires Located(o, v) && v == Reread(o, v) && BelongsTo(v, d) && Endpoints(d) && v.tuple.family == FAMILY_IPV4
    requires |r| == |o| && |g| == |o| && TransportTranslated(o, r, v, d) && RestoredTransport(r, g, v, d)
    ensures TransportBack(o, g, v, d)
  {
    hide Rewritten, TransportChecksumAfter, Endpoints;
    if v.ports {
      PortsAgree(o, g, v, d);
      if ChecksumPlace(v).Some? {
        TransportChecksumRestored(o, r, v, d);
      }
    }
  }

  lemma HeaderChecksumBack(o: Bytes, r: Bytes, g: Bytes, v: View, d: Direction)
    requires Located(o, v) && Endpoints(d) && d.original.family == FAMILY_IPV4 && v.tuple.family == FAMILY_IPV4
    requires |r| == |o| && |g| == |o|
    requires var n := v.networkOffset;
             && Rewritten(WordIn(o, n + 10), WordIn(r, n + 10), AddressesMove(d), AddressShift(d))
             && WordIn(g, n + 10) == HeaderChecksum(r, v, d)
    ensures var n := v.networkOffset;
            WordIn(g, n + 10) == if AddressesMove(d) then Canonical(WordIn(o, n + 10)) else WordIn(o, n + 10)
  {
    var n := v.networkOffset;
    ReplaceAddressesRestores(WordIn(o, n + 10), WordIn(r, n + 10), d);
  }

  lemma HeaderAgrees(o: Bytes, r: Bytes, g: Bytes, v: View, d: Direction)
    requires Located(o, v) && v == Reread(o, v) && BelongsTo(v, d) && v.tuple.family == FAMILY_IPV4
    requires |r| == |o| && |g| == |o| && HeaderTranslated(o, r, v, d) && RestoredIpv4Header(r, g, v, d)
    requires Agree(o, g, 0, 12)
    ensures Agree(o, g, 0, v.networkOffset + 10) && Agree(o, g, v.networkOffset + 12, v.transportOffset)
  {
    Ipv4AddressesAgree(o, g, v, d);
  }

  lemma HeaderComesBack(o: Bytes, r: Bytes, g: Bytes, v: View, d: Direction)
    requires Located(o, v) && v == Reread(o, v) && BelongsTo(v, d) && Endpoints(d) && v.tuple.family == FAMILY_IPV4
    requires |r| == |o| && |g| == |o| && HeaderTranslated(o, r, v, d) && RestoredIpv4Header(r, g, v, d)
    requires Agree(o, g, 0, 12)
    ensures HeaderBack(o, g, v, d)
  {
    HeaderAgrees(o, r, g, v, d);
    HeaderChecksumBack(o, r, g, v, d);
  }

  lemma MacsAgree(o: Bytes, g: Bytes, v: View, d: Direction)
    requires Located(o, v) && v == Reread(o, v) && BelongsTo(v, d)
    requires |g| == |o| && g[..6] == d.originalDestinationMac && g[6..12] == d.originalSourceMac
    ensures Agree(o, g, 0, 12)
  {
    assert o[0..6] == g[0..6] && o[6..12] == g[6..12];
    SliceAgree(o, g, 0, 6);
    SliceAgree(o, g, 6, 12);
  }

  lemma Ipv4AddressesAgree(o: Bytes, g: Bytes, v: View, d: Direction)
    requires Located(o, v) && v == Reread(o, v) && BelongsTo(v, d) && v.tuple.family == FAMILY_IPV4
    requires var n := v.networkOffset;
             && |g| == |o| && g[n + 12..n + 16] == d.original.source[..4]
             && g[n + 16..n + 20] == d.original.destination[..4]
    ensures Agree(o, g, v.networkOffset + 12, v.networkOffset + 20)
  {
    var n := v.networkOffset;
    assert o[n + 12..n + 16] == AddressAt(o, v, false)[..4];
    assert o[n + 16..n + 20] == AddressAt(o, v, true)[..4];
    SliceAgree(o, g, n + 12, n + 16);
    SliceAgree(o, g, n + 16, n + 20);
  }

  lemma PortsAgree(o: Bytes, g: Bytes, v: View, d: Direction)
    requires Located(o, v) && v == Reread(o, v) && BelongsTo(v, d) && v.ports
    requires |g| == |o| && g[v.transportOffset..v.transportOffset + 4] == PortOctets(d.original)
    ensures Agree(o, g, v.transportOffset, v.transportOffset + 4)
  {
    var t := v.transportOffset;
    OctetsOfWord(o[t], o[t + 1]);
    OctetsOfWord(o[t + 2], o[t + 3]);
    assert o[t..t + 4] == [o[t], o[t + 1]] + [o[t + 2], o[t + 3]];
    SliceAgree(o, g, t, t + 4);
  }

  /** The hardware's rewrite does not change how the frame parses. */
  lemma TranslationKeepsShape(o: Bytes, r: Bytes, d: Direction)
    requires Decode(o).Ok? && IsTranslated(o, r, Decode(o).value, d)
    ensures Decode(r) == Ok(Reread(r, Decode(o).value))
  {
    DecodeReread(o, r);
  }

  lemma InverseByShape(r: Bytes, v: View, d: Direction)
    requires Located(r, v)
    ensures InverseTransportChecksum(r, Reread(r, v), d) == InverseTransportChecksum(r, v, d)
  {
    assert ChecksumPlace(Reread(r, v)) == ChecksumPlace(v);
  }

  /** Restoration depends on a view only through its shape. */
  lemma RestoreByShape(r: Bytes, v: View, d: Direction)
    requires Located(r, v)
    ensures Located(r, Reread(r, v)) && Restore(r, Reread(r, v), d) == Restore(r, v, d)
  {
    var w := Reread(r, v);
    assert EditValid(r, w, d) == EditValid(r, v, d);
    if v.tuple.family == FAMILY_IPV4 {
      InverseByShape(r, v, d);
      assert RestoreIpv4(r, w, d) == RestoreIpv4(r, v, d);
    } else {
      assert RestoreIpv6(r, w, d) == RestoreIpv6(r, v, d);
    }
  }

  lemma RestoredIsOriginal(o: Bytes, r: Bytes, g: Bytes, v: View, d: Direction)
    requires Located(o, v) && v == Reread(o, v) && Endpoints(d) && BelongsTo(v, d)
    requires IsTranslated(o, r, v, d) && IsRestored(r, g, v, d)
    ensures WithOtherZero(o, g, v, d)
  {
    if v.tuple.family == FAMILY_IPV4 {
      MacsAgree(o, g, v, d);
      HeaderComesBack(o, r, g, v, d);
      TransportComesBack(o, r, g, v, d);
    } else {
      Ipv6RestoredAgrees(o, r, g, v, d);
    }
  }

  /**
    Inverse NAT. For every original frame, every accepted direction and every
    frame the hardware can make of it, `restore` gives back the original frame,
    exactly unless an IPv4 header or TCP checksum over changed fields was sent as
    0xffff, which comes back as the other zero. UDP checksums always come back.
  */
  lemma RestoreInvertsNat(o: Bytes, r: Bytes, d: Direction)
    requires Decode(o).Ok? && Endpoints(d) && BelongsTo(Decode(o).value, d)
    requires IsTranslated(o, r, Decode(o).value, d)
    ensures Decode(r).Ok? && Restore(r, Decode(r).value, d).Ok?
    ensures Restore(r, Decode(r).value, d).value == o <==> !UsesOtherZero(o, Decode(o).value, d)
    ensures WithOtherZero(o, Restore(r, Decode(r).value, d).value, Decode(o).value, d)
  {
    hide Decode, Restore, IsTranslated, IsRestored, HeaderBack, TransportBack;
    var v := Decode(o).value;
    DecodeReads(o);
    TranslationKeepsShape(o, r, d);
    RestoreByShape(r, v, d);
    RestoreRegions(r, v, d);
    var g := Restore(r, v, d).value;
    RestoredIsOriginal(o, r, g, v, d);
    if v.tuple.family == FAMILY_IPV4 {
      SameExceptZeros(o, g, v, d);
    }
  }

  ghost predicate HeaderBack(o: Bytes, g: Bytes, v: View, d: Direction)
    requires Located(o, v) && v.tuple.family == FAMILY_IPV4 && |g| == |o|
  {
    var n := v.networkOffset;
    && Agree(o, g, 0, n + 10) && Agree(o, g, n + 12, v.transportOffset)
    && WordIn(g, n + 10) == if AddressesMove(d) then Canonical(WordIn(o, n + 10)) else WordIn(o, n + 10)
  }

  ghost predicate TransportBack(o: Bytes, g: Bytes, v: View, d: Direction)
    requires Located(o, v) && |g| == |o|
  {
    var t := v.transportOffset;
    if v.ports && ChecksumPlace(v).Some? then
      var c := t + ChecksumPlace(v).value;
      && Agree(o, g, t, c) && Agree(o, g, c + 2, |o|)
      && WordIn(g, c) == if v.tuple.protocol == PROTOCOL_TCP && (AddressesMove(d) || PortsMove(d))
                         then Canonical(WordIn(o, c)) else WordIn(o, c)
    else Agree(o, g, t, |o|)
  }

  /** Frame `g` is frame `o` with 0x0000 for 0xffff in the checksums restoration recomputed. */
  ghost predicate WithOtherZero(o: Bytes, g: Bytes, v: View, d: Direction)
    requires Located(o, v)
  {
    |g| == |o| && if v.tuple.family == FAMILY_IPV4 then HeaderBack(o, g, v, d) && TransportBack(o, g, v, d) else g == o
  }

  lemma SameExceptZeros(o: Bytes, g: Bytes, v: View, d: Direction)
    requires Located(o, v) && v.tuple.family == FAMILY_IPV4 && WithOtherZero(o, g, v, d)
    ensures g == o <==> !UsesOtherZero(o, v, d)
  {
    var n, t := v.networkOffset, v.transportOffset;
    WordDetermines(o, g, n + 10);
    if v.ports && ChecksumPlace(v).Some? {
      WordDetermines(o, g, t + ChecksumPlace(v).value);
    }
    if !UsesOtherZero(o, v, d) {
      assert g == o;
    }
  }

  lemma WordDetermines(o: Bytes, g: Bytes, at: nat)
    requires |o| == |g| && at + 2 <= |o|
    ensures WordIn(o, at) == WordIn(g, at) <==> o[at] == g[at] && o[at + 1] == g[at + 1]
  {
  }
}
