/**
  One direction of an offloaded connection: what the worker accepts, when two
  directions collide, and the checksum-neutral mapping of IPv6 addresses
  (section 2.6 of RFC 6296).
*/
module Directions {
  import opened Wire
  import opened Checksum
  import opened Packet

  const MINIMUM_MTU: nat := 68

  /** The error codes of the worker's operations. */
  datatype Fault = EINVAL | ENOTSUP | EEXIST | ENOSPC | EBUSY | ESTALE | EIO | ENOENT | ENOBUFS | ENODEV
                 | ETIMEDOUT | EPACKET(code: Errno) | ESDK

  datatype Outcome = Done | Failed(fault: Fault)

  datatype Origin = Origin(controller: nat, receiver: nat, data: nat)

  /** The validated configuration: every index in range, one DATA port per origin. */
  datatype Config = Config(origins: seq<Origin>, receiverMacs: seq<Mac>, controllerCount: nat, dataCount: nat,
                           pairCapacity: nat, mbufCount: nat, mtu: word, drainTimeout: nat)
  {
    ghost predicate Valid() {
      && dataCount > 0 && pairCapacity > 0 && mbufCount > 0
      && (forall i :: 0 <= i < |origins| ==> origins[i].receiver < |receiverMacs| && origins[i].data < dataCount)
      && (forall i, j :: 0 <= i < j < |origins| ==> origins[i].data != origins[j].data)
    }
  }

  predicate TupleValid(t: Tuple) {
    && t.reserved == 0
    && (t.family == FAMILY_IPV4 || t.family == FAMILY_IPV6)
    && (t.protocol == PROTOCOL_TCP || t.protocol == PROTOCOL_UDP)
    && t.sourcePort != 0 && t.destinationPort != 0
    && !IsZero(t.source) && !IsZero(t.destination)
    && (t.family == FAMILY_IPV4 ==> IsZero(t.source[4..]) && IsZero(t.destination[4..]))
  }

  predicate SameAddresses(a: Tuple, b: Tuple) {
    a.family == b.family && a.protocol == b.protocol && a.source == b.source && a.destination == b.destination
  }

  predicate ValidMac(mac: Mac) {
    mac[0] % 2 == 0 && !IsZero(mac)
  }

  /** The residue of an address: its folded sum with all ones read as zero. */
  function Ipv6Sum(address: Address): word {
    var folded := Fold(WordSum(address));
    if folded == 0xffff then 0 else folded
  }

  lemma Ipv6SumCongruent(address: Address)
    ensures Congruent(WordSum(address), Ipv6Sum(address)) && Ipv6Sum(address) < 0xffff
  {
    var sum := WordSum(address);
    FoldCongruent(sum);
    if Fold(sum) == 0xffff {
      var k :| sum - Fold(sum) == Multiple(k);
      assert sum - 0 == Multiple(k + 1);
    }
  }

  lemma CongruentBelow(a: int, b: int)
    requires Congruent(a, b) && 0 <= a < 0xffff && 0 <= b < 0xffff
    ensures a == b
  {
    var k :| a - b == Multiple(k);
  }

  /** Equal address sums are exactly the checksum-neutral mappings. */
  lemma Ipv6SumIsNeutral(a: Address, b: Address)
    ensures Ipv6Sum(a) == Ipv6Sum(b) <==> Congruent(WordSum(a), WordSum(b))
  {
    Ipv6SumCongruent(a);
    Ipv6SumCongruent(b);
    CongruentSymmetric(WordSum(a), Ipv6Sum(a));
    CongruentSymmetric(WordSum(b), Ipv6Sum(b));
    if Ipv6Sum(a) == Ipv6Sum(b) {
      CongruentTransitive(WordSum(a), Ipv6Sum(a), WordSum(b));
    }
    if Congruent(WordSum(a), WordSum(b)) {
      CongruentTransitive(Ipv6Sum(a), WordSum(a), WordSum(b));
      CongruentTransitive(Ipv6Sum(a), WordSum(b), Ipv6Sum(b));
      CongruentBelow(Ipv6Sum(a), Ipv6Sum(b));
    }
  }

  method ComputeIpv6Sum(address: Address) returns (r: word)
    ensures r == Ipv6Sum(address) && Congruent(WordSum(address), r) && r < 0xffff
  {
    var sum := SumWords(address);
    var folded := FoldChecksum(sum);
    Ipv6SumCongruent(address);
    r := if folded == 0xffff then 0 else folded;
  }

  predicate Ipv6Neutral(d: Direction) {
    && d.original.sourcePort == d.translated.sourcePort
    && d.original.destinationPort == d.translated.destinationPort
    && Ipv6Sum(d.original.source) == Ipv6Sum(d.translated.source)
    && Ipv6Sum(d.original.destination) == Ipv6Sum(d.translated.destination)
  }

  /** The checks of `direction_valid`, in order, with the code of the first that fails. */
  function CheckDirection(cfg: Config, d: Direction): (r: Outcome)
    requires cfg.Valid()
    ensures r.Done? ==> d.originId < |cfg.origins| && d.egressDataId < cfg.dataCount
    ensures r.Done? ==> TupleValid(d.original) && TupleValid(d.translated)
    ensures r.Done? ==> forall t :: t in {d.original, d.translated} ==> t.sourcePort > 0 && t.destinationPort > 0
    ensures r.Done? ==> MINIMUM_MTU <= d.outputMtu <= cfg.mtu && d.outputDestinationMac[0] % 2 == 0
    ensures r == Failed(ENOTSUP) ==> d.original.family == FAMILY_IPV6 && !Ipv6Neutral(d)
  {
    if || d.originId >= |cfg.origins| || d.egressDataId >= cfg.dataCount || d.reserved != 0
       || !TupleValid(d.original) || !TupleValid(d.translated)
       || d.original.family != d.translated.family || d.original.protocol != d.translated.protocol
       || d.outputMtu < MINIMUM_MTU || d.outputMtu > cfg.mtu
    then Failed(EINVAL)
    else if d.original.family == FAMILY_IPV6 && !Ipv6Neutral(d) then Failed(ENOTSUP)
    else if || !ValidMac(d.originalSourceMac) || !ValidMac(d.originalDestinationMac)
            || !ValidMac(d.outputSourceMac) || !ValidMac(d.outputDestinationMac)
    then Failed(EINVAL)
    else if d.originalDestinationMac != cfg.receiverMacs[cfg.origins[d.originId].receiver] then Failed(EINVAL)
    else Done
  }

  predicate DirectionValid(cfg: Config, d: Direction)
    requires cfg.Valid()
  {
    CheckDirection(cfg, d).Done?
  }

  /** Two directions that cannot both be live: same packet key, same restoration key, or an ambiguous fragment. */
  predicate Collision(cfg: Config, a: Direction, b: Direction)
    requires a.originId < |cfg.origins| && b.originId < |cfg.origins|
  {
    || (&& cfg.origins[a.originId].controller == cfg.origins[b.originId].controller
        && a.original == b.original
        && a.originalSourceMac == b.originalSourceMac && a.originalDestinationMac == b.originalDestinationMac)
    || (&& a.originId == b.originId
        && (|| a.original == b.original
            || a.translated == b.translated
            || (&& SameAddresses(a.translated, b.translated)
                && (|| !SameAddresses(a.original, b.original)
                    || a.originalSourceMac != b.originalSourceMac
                    || a.originalDestinationMac != b.originalDestinationMac))))
  }

  /** An endpoint pair of a TCP or UDP connection. */
  ghost predicate Connects(t: Tuple) {
    && t.reserved == 0 && t.family in {4, 6} && t.protocol in {6, 17} && t.sourcePort > 0 && t.destinationPort > 0
    && (exists i :: 0 <= i < 16 && t.source[i] != 0) && (exists i :: 0 <= i < 16 && t.destination[i] != 0)
    && (t.family == 4 ==> forall i :: 4 <= i < 16 ==> t.source[i] == 0 && t.destination[i] == 0)
  }

  /** A station's address: not a group's, and not all zero. */
  ghost predicate Station(mac: Mac) {
    mac[0] % 2 == 0 && exists i :: 0 <= i < 6 && mac[i] != 0
  }

  /** Two connections of one kind, through ports that exist, for packets of at least 68 octets. */
  ghost predicate Routed(cfg: Config, d: Direction) {
    && d.originId < |cfg.origins| && d.egressDataId < cfg.dataCount && d.reserved == 0
    && Connects(d.original) && Connects(d.translated)
    && d.original.family == d.translated.family && d.original.protocol == d.translated.protocol
    && 68 <= d.outputMtu <= cfg.mtu
  }

  /** An IPv6 rewrite that no checksum notices: the ports stay, and both addresses keep their residue. */
  ghost predicate Unnoticed(d: Direction) {
    && d.original.sourcePort == d.translated.sourcePort && d.original.destinationPort == d.translated.destinationPort
    && Congruent(WordSum(d.original.source), WordSum(d.translated.source))
    && Congruent(WordSum(d.original.destination), WordSum(d.translated.destination))
  }

  lemma ZeroMeans(octets: Bytes)
    ensures !IsZero(octets) <==> exists i :: 0 <= i < |octets| && octets[i] != 0
  {
  }

  lemma TupleMeans(t: Tuple)
    ensures TupleValid(t) <==> Connects(t)
  {
    assert IsZero(t.source[4..]) <==> forall i :: 4 <= i < 16 ==> t.source[i] == 0 by {
      assert forall i :: 4 <= i < 16 ==> t.source[i] == t.source[4..][i - 4];
    }
    assert IsZero(t.destination[4..]) <==> forall i :: 4 <= i < 16 ==> t.destination[i] == 0 by {
      assert forall i :: 4 <= i < 16 ==> t.destination[i] == t.destination[4..][i - 4];
    }
  }

  /**
    A direction is accepted exactly if it is routed, sends between stations and to
    the receiver's own address, and an IPv6 one goes unnoticed; one that fails
    only by being noticed is not supported, any other is invalid.
  */
  lemma AcceptedMeans(cfg: Config, d: Direction)
    requires cfg.Valid()
    ensures var r := CheckDirection(cfg, d);
            var noticed := d.original.family == 6 && !Unnoticed(d);
            && (r == Failed(ENOTSUP) <==> Routed(cfg, d) && noticed)
            && (r.Done? <==>
                  && Routed(cfg, d) && !noticed && Station(d.originalSourceMac) && Station(d.originalDestinationMac)
                  && Station(d.outputSourceMac) && Station(d.outputDestinationMac)
                  && d.originalDestinationMac == cfg.receiverMacs[cfg.origins[d.originId].receiver])
            && (r.Failed? ==> r.fault == ENOTSUP || r.fault == EINVAL)
  {
    hide TupleValid, Connects, Ipv6Sum, WordSum;
    TupleMeans(d.original);
    TupleMeans(d.translated);
    Ipv6SumIsNeutral(d.original.source, d.translated.source);
    Ipv6SumIsNeutral(d.original.destination, d.translated.destination);
    ZeroMeans(d.originalSourceMac);
    ZeroMeans(d.originalDestinationMac);
    ZeroMeans(d.outputSourceMac);
    ZeroMeans(d.outputDestinationMac);
  }

  /** Both directions run between the same hosts and stations. */
  ghost predicate SameHosts(a: Direction, b: Direction) {
    && SameAddresses(a.original, b.original) && SameAddresses(a.translated, b.translated)
    && a.originalSourceMac == b.originalSourceMac && a.originalDestinationMac == b.originalDestinationMac
  }

  /**
    Directions get in each other's way no more than they must: connections that
    differ in a port on both sides do not collide between the same stations, nor
    do directions of different controllers; and colliding is mutual.
  */
  lemma CollisionsAreFew(cfg: Config, a: Direction, b: Direction)
    requires a.originId < |cfg.origins| && b.originId < |cfg.origins|
    ensures Collision(cfg, a, b) <==> Collision(cfg, b, a)
    ensures SameHosts(a, b) && a.original != b.original && a.translated != b.translated ==> !Collision(cfg, a, b)
    ensures cfg.origins[a.originId].controller != cfg.origins[b.originId].controller ==> !Collision(cfg, a, b)
    ensures a.original != b.original && !SameAddresses(a.translated, b.translated) ==> !Collision(cfg, a, b)
  {
  }
}
