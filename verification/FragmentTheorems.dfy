/**
  A fragment without ports is matched by addresses alone, so several live legs
  may match it. Pairwise non-collision makes the choice irrelevant.
*/
module FragmentTheorems {
  import opened Wire
  import opened Checksum
  import opened Packet
  import opened PacketEdit
  import opened RestoreValues
  import opened Directions
  import opened PairTable

  /** A requested leg of a live pair. */
  ghost predicate LiveLeg(specs: map<PairId, PairSpec>, id: PairId, i: nat) {
    id in specs && i < 2 && specs[id].Requests(i)
  }

  lemma AddressesDecide(cfg: Config, a: Direction, b: Direction)
    requires a.originId == b.originId < |cfg.origins| && SameAddresses(a.translated, b.translated)
    requires !Collision(cfg, a, b)
    ensures SameAddresses(a.original, b.original)
    ensures a.originalSourceMac == b.originalSourceMac && a.originalDestinationMac == b.originalDestinationMac
  {
  }

  /** No two live legs select the same hardware packets, nor the same tuple on one origin. */
  lemma SelectorsUnique(cfg: Config, specs: map<PairId, PairSpec>, a: PairId, i: nat, b: PairId, j: nat)
    requires cfg.Valid() && NoCollisions(cfg, specs) && (forall id :: id in specs ==> SpecValid(cfg, specs[id]))
    requires LiveLeg(specs, a, i) && LiveLeg(specs, b, j) && specs[a].At(i).original == specs[b].At(j).original
    requires || specs[a].At(i).originId == specs[b].At(j).originId
             || (&& specs[a].At(i).originId < |cfg.origins| && specs[b].At(j).originId < |cfg.origins|
                 && cfg.origins[specs[a].At(i).originId].controller == cfg.origins[specs[b].At(j).originId].controller
                 && specs[a].At(i).originalSourceMac == specs[b].At(j).originalSourceMac
                 && specs[a].At(i).originalDestinationMac == specs[b].At(j).originalDestinationMac)
    ensures a == b && i == j
  {
    assert SpecValid(cfg, specs[a]) && SpecValid(cfg, specs[b]);
    if a != b {
      assert !SpecsCollide(cfg, specs[a], specs[b]);
      assert LegsCollide(cfg, specs[a], specs[b], i, j);
      assert false;
    } else if i != j {
      assert LegsCollide(cfg, specs[a], specs[a], 0, 1);
      assert false;
    }
  }

  /** Live legs of one origin with equal translated addresses restore the same addresses and MACs. */
  lemma MatchingLegsAgree(cfg: Config, specs: map<PairId, PairSpec>, a: PairId, i: nat, b: PairId, j: nat)
    requires cfg.Valid() && NoCollisions(cfg, specs) && (forall id :: id in specs ==> SpecValid(cfg, specs[id]))
    requires LiveLeg(specs, a, i) && LiveLeg(specs, b, j)
    requires specs[a].At(i).originId == specs[b].At(j).originId
    requires SameAddresses(specs[a].At(i).translated, specs[b].At(j).translated)
    ensures SameAddresses(specs[a].At(i).original, specs[b].At(j).original)
    ensures specs[a].At(i).originalSourceMac == specs[b].At(j).originalSourceMac
    ensures specs[a].At(i).originalDestinationMac == specs[b].At(j).originalDestinationMac
  {
    assert SpecValid(cfg, specs[a]) && SpecValid(cfg, specs[b]);
    if a != b {
      assert !SpecsCollide(cfg, specs[a], specs[b]);
      assert !LegsCollide(cfg, specs[a], specs[b], i, j);
      AddressesDecide(cfg, specs[a].At(i), specs[b].At(j));
    } else if i != j {
      assert !LegsCollide(cfg, specs[a], specs[a], 0, 1);
      AddressesDecide(cfg, specs[a].At(0), specs[a].At(1));
    }
  }

  /** Without ports, restoration depends on a direction only through its addresses and MACs. */
  lemma RestoreWithoutPorts(f: Bytes, v: View, a: Direction, b: Direction)
    requires Located(f, v) && !v.ports && SameFamily(v, a)
    requires SameAddresses(a.original, b.original) && SameAddresses(a.translated, b.translated)
    requires a.originalSourceMac == b.originalSourceMac && a.originalDestinationMac == b.originalDestinationMac
    ensures Restore(f, v, a) == Restore(f, v, b)
  {
    assert EditValid(f, v, a) == EditValid(f, v, b);
    if v.tuple.family == FAMILY_IPV4 {
      var n := v.networkOffset;
      assert ReplaceAddresses(WordIn(f, n + 10), a) == ReplaceAddresses(WordIn(f, n + 10), b);
      assert RestoreIpv4(f, v, a) == RestoreIpv4(f, v, b);
    } else {
      assert RestoreIpv6(f, v, a) == RestoreIpv6(f, v, b);
    }
  }

  /** Whichever matching leg a scan picks, a port-less fragment is restored to the same octets. */
  lemma FragmentResultUnique(cfg: Config, specs: map<PairId, PairSpec>, f: Bytes, origin: nat,
                             a: PairId, i: nat, b: PairId, j: nat)
    requires cfg.Valid() && NoCollisions(cfg, specs) && (forall id :: id in specs ==> SpecValid(cfg, specs[id]))
    requires Decode(f).Ok? && !Decode(f).value.ports
    requires LiveLeg(specs, a, i) && LiveLeg(specs, b, j)
    requires specs[a].At(i).originId == origin && SameAddresses(specs[a].At(i).translated, Decode(f).value.tuple)
    requires specs[b].At(j).originId == origin && SameAddresses(specs[b].At(j).translated, Decode(f).value.tuple)
    ensures Restore(f, Decode(f).value, specs[a].At(i)) == Restore(f, Decode(f).value, specs[b].At(j))
  {
    var v := Decode(f).value;
    MatchingLegsAgree(cfg, specs, a, i, b, j);
    assert DirectionValid(cfg, specs[a].At(i)) by {
      assert SpecValid(cfg, specs[a]);
    }
    RestoreWithoutPorts(f, v, specs[a].At(i), specs[b].At(j));
  }
}
