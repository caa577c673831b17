/**
  The hardware's rewrite is always possible: every frame of a direction has a
  translation of the kind `restore` undoes, so a packet can go out and come back.
*/
module NatExistence {
  import opened Wire
  import opened Checksum
  import opened Packet
  import opened PacketShape
  import opened PacketEdit
  import opened RestoreValues
  import opened ForwardTheorems
  import opened Directions
  import opened NatTheorems
  import opened EligibilityTheorems

  /** One way to move a checksum; it never yields zero. */
  ghost function Moved(before: word, moved: bool, shift: int): (r: word)
    requires shift >= -6 * 0xffff
  {
    if moved then Fold(before + shift + 8 * 0xffff) else before
  }

  lemma MovedIsRewritten(before: word, moved: bool, shift: int)
    requires shift >= -6 * 0xffff
    ensures Rewritten(before, Moved(before, moved, shift), moved, shift)
    ensures moved || before != 0 ==> Moved(before, moved, shift) != 0
  {
    if moved {
      var sum := before + shift + 8 * 0xffff;
      FoldCongruent(sum);
      var k :| sum - Fold(sum) == Multiple(k);
      assert Fold(sum) - (before + shift) == Multiple(8 - k);
    }
  }

  lemma ShiftBounds(d: Direction)
    ensures AddressShift(d) >= -4 * 0xffff && PortShift(d) >= -2 * 0xffff
  {
    WordSumBound(d.translated.source[..4]);
    WordSumBound(d.translated.destination[..4]);
    WordSumBound(PortOctets(d.translated));
  }

  /** The transport checksum to write: none for a UDP packet that goes without. */
  ghost function TransportMoved(o: Bytes, v: View, d: Direction): (r: Option<(nat, word)>)
    requires Located(o, v) && AddressShift(d) + PortShift(d) >= -6 * 0xffff
  {
    if !v.ports || ChecksumPlace(v).None? then None else
      var c := v.transportOffset + ChecksumPlace(v).value;
      if v.tuple.protocol == PROTOCOL_UDP && WordIn(o, c) == 0 then None
      else Some((c, Moved(WordIn(o, c), AddressesMove(d) || PortsMove(d), AddressShift(d) + PortShift(d))))
  }

  lemma HeaderSteps(o: Bytes, h: Bytes, r: Bytes, v: View, d: Direction, checksum: word, transport: Option<(nat, word)>)
    requires Located(o, v) && v.tuple.family == FAMILY_IPV4
    requires transport.Some? ==> v.transportOffset <= transport.value.0 && transport.value.0 + 2 <= |o|
    requires ChecksumsWritten(o, h, v.networkOffset, checksum, transport)
    requires EndpointsWritten(h, r, v.networkOffset, PortsAt(v), d.translated)
    requires Rewritten(WordIn(o, v.networkOffset + 10), checksum, AddressesMove(d), AddressShift(d))
    ensures HeaderTranslated(o, r, v, d)
  {
    hide Rewritten, AddressesMove, AddressShift, PortOctets;
  }

  lemma TransportSteps(o: Bytes, h: Bytes, r: Bytes, v: View, d: Direction, checksum: word)
    requires Located(o, v) && v.tuple.family == FAMILY_IPV4 && AddressShift(d) + PortShift(d) >= -6 * 0xffff
    requires TransportMoved(o, v, d).Some? ==> TransportMoved(o, v, d).value.0 + 2 <= |o|
    requires ChecksumsWritten(o, h, v.networkOffset, checksum, TransportMoved(o, v, d))
    requires EndpointsWritten(h, r, v.networkOffset, PortsAt(v), d.translated)
    ensures TransportTranslated(o, r, v, d)
  {
    hide Rewritten, AddressesMove, PortsMove, AddressShift, PortShift, PortOctets, Moved;
    if v.ports && ChecksumPlace(v).Some? {
      var c := v.transportOffset + ChecksumPlace(v).value;
      MovedIsRewritten(WordIn(o, c), AddressesMove(d) || PortsMove(d), AddressShift(d) + PortShift(d));
    }
  }

  lemma Ipv4TranslationExists(o: Bytes, v: View, d: Direction) returns (r: Bytes)
    requires Located(o, v) && v.tuple.family == FAMILY_IPV4
    ensures IsTranslated(o, r, v, d)
  {
    hide HeaderTranslated, TransportTranslated, Moved, AddressShift, PortShift, AddressesMove, PortsMove, Rewritten;
    ShiftBounds(d);
    var n, transport := v.networkOffset, TransportMoved(o, v, d);
    var checksum := Moved(WordIn(o, n + 10), AddressesMove(d), AddressShift(d));
    MovedIsRewritten(WordIn(o, n + 10), AddressesMove(d), AddressShift(d));
    WriteChecksumsValue(o, n, checksum, transport);
    var h := WriteChecksums(o, n, checksum, transport).value;
    WriteEndpointsValue(h, n, PortsAt(v), d.translated);
    r := WriteEndpoints(h, n, PortsAt(v), d.translated).value;
    HeaderSteps(o, h, r, v, d, checksum, transport);
    TransportSteps(o, h, r, v, d, checksum);
  }

  /** Every frame has a translation under every direction of its family. */
  lemma TranslationExists(o: Bytes, d: Direction) returns (r: Bytes)
    requires Decode(o).Ok? && SameFamily(Decode(o).value, d)
    ensures IsTranslated(o, r, Decode(o).value, d)
  {
    hide Decode, HeaderTranslated, TransportTranslated;
    var v := Decode(o).value;
    if v.tuple.family == FAMILY_IPV4 {
      r := Ipv4TranslationExists(o, v, d);
    } else {
      var back := d.(original := d.translated);
      WriteIpv6Value(o, v, back);
      r := RestoreIpv6(o, v, back).value;
    }
  }

  /** A frame of a direction can be rewritten by the hardware, found again by the worker and given back by it. */
  lemma ThereAndBack(o: Bytes, d: Direction) returns (r: Bytes)
    requires Decode(o).Ok? && Endpoints(d) && BelongsTo(Decode(o).value, d)
    requires !UsesOtherZero(o, Decode(o).value, d)
    ensures Decode(r).Ok? && Restore(r, Decode(r).value, d) == Ok(o)
    ensures Carries(Decode(r).value, d)
    ensures Decode(r).value.sourceMac == d.originalSourceMac
    ensures Decode(r).value.destinationMac == d.originalDestinationMac
  {
    hide Decode, Restore, Endpoints, UsesOtherZero, IsTranslated, Carries;
    r := TranslationExists(o, d);
    RestoreInvertsNat(o, r, d);
    TranslationCarries(o, r, d);
  }
}
