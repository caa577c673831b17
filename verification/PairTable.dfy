/**
  The worker's pair table: primary slots with generations, retired pairs that
  are retained for their restoration keys, and the inverse index from an origin
  and a translated tuple to the leg that undoes it.
*/
module PairTable {
  import opened Wire
  import opened Packet
  import opened Directions

  const MAX_GENERATION: nat := 0xffff_ffff_ffff_ffff

  datatype PairState = Absent | Installed | Draining | Faulted

  /** One direction's hardware flow, its index entry, and a flow handle consumed by a failed deletion. */
  datatype Leg = Leg(flow: Option<nat>, inverse: bool, deleteFailed: bool)

  datatype PairSpec = PairSpec(cookie: nat, policyGeneration: nat, mask: nat, reserved: nat,
                               first: Direction, second: Direction)
  {
    function At(i: nat): Direction {
      if i == 0 then first else second
    }

    predicate Requests(i: nat) {
      if i == 0 then mask % 2 == 1 else mask / 2 % 2 == 1
    }
  }

  datatype Pair = Pair(generation: nat, state: PairState, spec: PairSpec, guards: Option<(Guard, Guard)>,
                       leg0: Leg, leg1: Leg)
  {
    function LegAt(i: nat): Leg {
      if i == 0 then leg0 else leg1
    }

    function WithLeg(i: nat, leg: Leg): Pair {
      if i == 0 then this.(leg0 := leg) else this.(leg1 := leg)
    }

    /** No hardware flow and no consumed handle on either leg. */
    predicate Clean() {
      leg0.flow.None? && !leg0.deleteFailed && leg1.flow.None? && !leg1.deleteFailed
    }

    /** A flow on exactly the requested legs. */
    predicate HasFlows() {
      && !leg0.deleteFailed && leg0.flow.Some? == spec.Requests(0)
      && !leg1.deleteFailed && leg1.flow.Some? == spec.Requests(1)
    }
  }

  /** The pair once its hardware flows are gone. */
  function Cleaned(p: Pair): Pair {
    p.(state := Draining, leg0 := Leg(None, p.leg0.inverse, false), leg1 := Leg(None, p.leg1.inverse, false))
  }

  /** A slot once its records are forgotten; the generation and the last connection stay. */
  function Forgotten(p: Pair): Pair {
    p.(state := Absent, leg0 := p.leg0.(inverse := false), leg1 := p.leg1.(inverse := false))
  }

  datatype PairId = PairId(slot: nat, generation: nat)

  datatype Key = Key(origin: nat, tuple: Tuple)

  datatype LegId = LegId(slot: nat, generation: nat, direction: nat)

  datatype Table = Table(pairs: seq<Pair>, retained: map<PairId, Pair>, inverses: map<Key, LegId>)

  const NO_LEG: Leg := Leg(None, false, false)

  /** An empty slot that remembers its generation. */
  function Blank(generation: nat): (p: Pair)
    ensures p.generation == generation && p.state == Absent && p.leg0 == NO_LEG && p.leg1 == NO_LEG
  {
    var tuple := Tuple(0, 0, 0, seq(16, _ => 0), seq(16, _ => 0), 0, 0);
    var mac: Mac := [0, 0, 0, 0, 0, 0];
    var direction := Direction(0, 0, tuple, tuple, mac, mac, mac, mac, 0, 0);
    Pair(generation, Absent, PairSpec(0, 0, 0, 0, direction, direction), None, NO_LEG, NO_LEG)
  }

  function KeyOf(d: Direction): Key {
    Key(d.originId, d.translated)
  }

  function IdOf(pairs: seq<Pair>, slot: nat): PairId
    requires slot < |pairs|
  {
    PairId(slot, pairs[slot].generation)
  }

  // Collisions between whole pairs.

  predicate LegsCollide(cfg: Config, a: PairSpec, b: PairSpec, i: nat, j: nat) {
    && a.Requests(i) && b.Requests(j)
    && a.At(i).originId < |cfg.origins| && b.At(j).originId < |cfg.origins|
    && Collision(cfg, a.At(i), b.At(j))
  }

  predicate SpecsCollide(cfg: Config, a: PairSpec, b: PairSpec) {
    exists i, j :: 0 <= i < 2 && 0 <= j < 2 && LegsCollide(cfg, a, b, i, j)
  }

  predicate SelfCollides(cfg: Config, a: PairSpec) {
    LegsCollide(cfg, a, a, 0, 1)
  }

  /** The lowest bit of the mask asks for the first direction and the next one for the second. */
  lemma MaskMeans(a: PairSpec)
    requires 0 < a.mask <= 3
    ensures a.Requests(0) <==> a.mask == 1 || a.mask == 3
    ensures a.Requests(1) <==> a.mask == 2 || a.mask == 3
    ensures a.At(0) == a.first && a.At(1) == a.second
  {
  }

  /** Pairs collide exactly if directions that both ask for do. */
  lemma PairsCollide(cfg: Config, a: PairSpec, b: PairSpec)
    requires 0 < a.mask <= 3 && 0 < b.mask <= 3
    requires forall d :: d in {a.first, a.second, b.first, b.second} ==> d.originId < |cfg.origins|
    ensures SpecsCollide(cfg, a, b) <==>
              || (a.mask != 2 && b.mask != 2 && Collision(cfg, a.first, b.first))
              || (a.mask != 2 && b.mask != 1 && Collision(cfg, a.first, b.second))
              || (a.mask != 1 && b.mask != 2 && Collision(cfg, a.second, b.first))
              || (a.mask != 1 && b.mask != 1 && Collision(cfg, a.second, b.second))
  {
    hide Collision;
    MaskMeans(a);
    MaskMeans(b);
    assert LegsCollide(cfg, a, b, 0, 0) <==> a.mask != 2 && b.mask != 2 && Collision(cfg, a.first, b.first);
    assert LegsCollide(cfg, a, b, 0, 1) <==> a.mask != 2 && b.mask != 1 && Collision(cfg, a.first, b.second);
    assert LegsCollide(cfg, a, b, 1, 0) <==> a.mask != 1 && b.mask != 2 && Collision(cfg, a.second, b.first);
    assert LegsCollide(cfg, a, b, 1, 1) <==> a.mask != 1 && b.mask != 1 && Collision(cfg, a.second, b.second);
  }

  ghost predicate SpecValid(cfg: Config, spec: PairSpec)
    requires cfg.Valid()
  {
    && 0 < spec.mask <= 3
    && (forall i :: 0 <= i < 2 && spec.Requests(i) ==> DirectionValid(cfg, spec.At(i)))
    && !SelfCollides(cfg, spec)
  }

  // The live specifications and the index over them.

  /** A pair some packet may still need: a present primary or a retained pair. */
  ghost predicate Live(t: Table, id: PairId) {
    IsPrimary(t, id) || id in t.retained
  }

  ghost predicate IsPrimary(t: Table, id: PairId) {
    id.slot < |t.pairs| && t.pairs[id.slot].state != Absent && t.pairs[id.slot].generation == id.generation
  }

  ghost function LivePair(t: Table, id: PairId): Pair
    requires Live(t, id)
  {
    if IsPrimary(t, id) then t.pairs[id.slot] else t.retained[id]
  }

  /** `specs` names exactly the live pairs, each with its specification. */
  ghost predicate Names(t: Table, specs: map<PairId, PairSpec>) {
    && (forall id :: id in specs <==> Live(t, id))
    && (forall id :: id in specs ==> specs[id] == LivePair(t, id).spec)
  }

  ghost predicate IsLeg(specs: map<PairId, PairSpec>, key: Key, leg: LegId) {
    var id := PairId(leg.slot, leg.generation);
    id in specs && leg.direction < 2 && specs[id].Requests(leg.direction) && KeyOf(specs[id].At(leg.direction)) == key
  }

  ghost predicate NoCollisions(cfg: Config, specs: map<PairId, PairSpec>) {
    forall a, b :: a in specs && b in specs && a != b ==> !SpecsCollide(cfg, specs[a], specs[b])
  }

  /** A new specification that collides with no live one. */
  ghost predicate Admissible(cfg: Config, spec: PairSpec, specs: map<PairId, PairSpec>) {
    forall id :: id in specs ==> !SpecsCollide(cfg, spec, specs[id])
  }

  /** Every entry of `a` is still there, unchanged, in `b`. */
  ghost predicate Kept<K, V>(a: map<K, V>, b: map<K, V>) {
    forall k :: k in a ==> k in b && b[k] == a[k]
  }

  /** The index agrees with a scan: a key maps to a leg exactly when that live leg has the key. */
  ghost predicate IndexAgrees(specs: map<PairId, PairSpec>, inverses: map<Key, LegId>) {
    && (forall key :: key in inverses ==> IsLeg(specs, key, inverses[key]))
    && (forall id, i :: id in specs && 0 <= i < 2 && specs[id].Requests(i) ==>
          && KeyOf(specs[id].At(i)) in inverses
          && inverses[KeyOf(specs[id].At(i))] == LegId(id.slot, id.generation, i))
  }

  ghost predicate IndexInv(cfg: Config, specs: map<PairId, PairSpec>, inverses: map<Key, LegId>)
    requires cfg.Valid()
  {
    && (forall id :: id in specs ==> SpecValid(cfg, specs[id]))
    && NoCollisions(cfg, specs)
    && IndexAgrees(specs, inverses)
  }

  /** The index after a pair's legs are recorded, as install inserts them. */
  function Indexed(inverses: map<Key, LegId>, id: PairId, spec: PairSpec): map<Key, LegId> {
    var one := if spec.Requests(0) then inverses[KeyOf(spec.At(0)) := LegId(id.slot, id.generation, 0)] else inverses;
    if spec.Requests(1) then one[KeyOf(spec.At(1)) := LegId(id.slot, id.generation, 1)] else one
  }

  lemma SameKeyCollides(cfg: Config, a: Direction, b: Direction)
    requires a.originId < |cfg.origins| && b.originId < |cfg.origins| && KeyOf(a) == KeyOf(b)
    ensures Collision(cfg, a, b)
  {
  }

  lemma CollisionSymmetric(cfg: Config, a: PairSpec, b: PairSpec)
    requires SpecsCollide(cfg, a, b)
    ensures SpecsCollide(cfg, b, a)
  {
    var i, j :| 0 <= i < 2 && 0 <= j < 2 && LegsCollide(cfg, a, b, i, j);
    assert LegsCollide(cfg, b, a, j, i);
  }

  /**
    A pair that collides with no live pair and not with itself finds its keys
    unused: install's duplicate-key branch cannot be taken.
  */
  lemma FreshKeys(cfg: Config, specs: map<PairId, PairSpec>, inverses: map<Key, LegId>, spec: PairSpec)
    requires cfg.Valid() && IndexInv(cfg, specs, inverses) && SpecValid(cfg, spec)
    requires Admissible(cfg, spec, specs)
    ensures FreshIn(inverses, spec)
  {
    forall i | 0 <= i < 2 && spec.Requests(i)
      ensures KeyOf(spec.At(i)) !in inverses
    {
      if KeyOf(spec.At(i)) in inverses {
        var leg := inverses[KeyOf(spec.At(i))];
        var other := specs[PairId(leg.slot, leg.generation)];
        SameKeyCollides(cfg, spec.At(i), other.At(leg.direction));
        assert LegsCollide(cfg, spec, other, i, leg.direction);
        assert false;
      }
    }
    if spec.Requests(0) && spec.Requests(1) && KeyOf(spec.At(0)) == KeyOf(spec.At(1)) {
      SameKeyCollides(cfg, spec.At(0), spec.At(1));
      assert false;
    }
  }

  /** A pair's requested keys are distinct and unused. */
  ghost predicate FreshIn(inverses: map<Key, LegId>, spec: PairSpec) {
    && (forall i :: 0 <= i < 2 && spec.Requests(i) ==> KeyOf(spec.At(i)) !in inverses)
    && (spec.Requests(0) && spec.Requests(1) ==> KeyOf(spec.At(0)) != KeyOf(spec.At(1)))
  }

  lemma CollisionsGrow(cfg: Config, specs: map<PairId, PairSpec>, id: PairId, spec: PairSpec)
    requires NoCollisions(cfg, specs) && id !in specs
    requires Admissible(cfg, spec, specs)
    ensures NoCollisions(cfg, specs[id := spec])
  {
    forall other | other in specs ensures !SpecsCollide(cfg, specs[other], spec) {
      if SpecsCollide(cfg, specs[other], spec) {
        CollisionSymmetric(cfg, specs[other], spec);
        assert false;
      }
    }
  }

  lemma AgreementGrows(specs: map<PairId, PairSpec>, inverses: map<Key, LegId>, id: PairId, spec: PairSpec)
    requires IndexAgrees(specs, inverses) && id !in specs
    requires FreshIn(inverses, spec)
    ensures IndexAgrees(specs[id := spec], Indexed(inverses, id, spec))
    ensures Kept(inverses, Indexed(inverses, id, spec))
  {
    var specs', inverses' := specs[id := spec], Indexed(inverses, id, spec);
    assert spec.Requests(0) ==> KeyOf(spec.At(0)) !in inverses;
    assert spec.Requests(1) ==> KeyOf(spec.At(1)) !in inverses;
    forall key | key in inverses' ensures IsLeg(specs', key, inverses'[key]) {
      if key in inverses {
        assert IsLeg(specs, key, inverses[key]);
      }
    }
  }

  lemma IndexGrows(cfg: Config, specs: map<PairId, PairSpec>, inverses: map<Key, LegId>, id: PairId, spec: PairSpec)
    requires cfg.Valid() && IndexInv(cfg, specs, inverses) && SpecValid(cfg, spec) && id !in specs
    requires Admissible(cfg, spec, specs)
    ensures IndexInv(cfg, specs[id := spec], Indexed(inverses, id, spec))
    ensures Kept(inverses, Indexed(inverses, id, spec))
  {
    FreshKeys(cfg, specs, inverses, spec);
    CollisionsGrow(cfg, specs, id, spec);
    AgreementGrows(specs, inverses, id, spec);
  }

  /** Two specifications of one connection, which may differ in their policy generation only. */
  predicate SameConnection(a: PairSpec, b: PairSpec) {
    b == a.(policyGeneration := b.policyGeneration)
  }

  lemma CollisionIgnoresPolicy(cfg: Config, a: PairSpec, b: PairSpec, a': PairSpec, b': PairSpec)
    requires SameConnection(a, a') && SameConnection(b, b') && SpecsCollide(cfg, a', b')
    ensures SpecsCollide(cfg, a, b)
  {
    var i, j :| 0 <= i < 2 && 0 <= j < 2 && LegsCollide(cfg, a', b', i, j);
    assert LegsCollide(cfg, a, b, i, j);
  }

  lemma CollisionsIgnorePolicy(cfg: Config, specs: map<PairId, PairSpec>, id: PairId, spec: PairSpec)
    requires NoCollisions(cfg, specs) && id in specs && SameConnection(specs[id], spec)
    ensures NoCollisions(cfg, specs[id := spec])
  {
    var specs' := specs[id := spec];
    forall a, b | a in specs' && b in specs' && a != b
      ensures !SpecsCollide(cfg, specs'[a], specs'[b])
    {
      if SpecsCollide(cfg, specs'[a], specs'[b]) {
        CollisionIgnoresPolicy(cfg, specs[a], specs[b], specs'[a], specs'[b]);
        assert false;
      }
    }
  }

  lemma AgreementIgnoresPolicy(specs: map<PairId, PairSpec>, inverses: map<Key, LegId>, id: PairId, spec: PairSpec)
    requires IndexAgrees(specs, inverses) && id in specs && SameConnection(specs[id], spec)
    ensures IndexAgrees(specs[id := spec], inverses)
  {
    var specs' := specs[id := spec];
    forall key | key in inverses ensures IsLeg(specs', key, inverses[key]) {
      assert IsLeg(specs, key, inverses[key]);
    }
    forall a, i | a in specs' && 0 <= i < 2 && specs'[a].Requests(i)
      ensures KeyOf(specs'[a].At(i)) in inverses
      ensures inverses[KeyOf(specs'[a].At(i))] == LegId(a.slot, a.generation, i)
    {
      assert specs[a].Requests(i) && specs[a].At(i) == specs'[a].At(i);
    }
  }

  lemma ValidityIgnoresPolicy(cfg: Config, a: PairSpec, b: PairSpec)
    requires cfg.Valid() && SpecValid(cfg, a) && SameConnection(a, b)
    ensures SpecValid(cfg, b)
  {
    assert forall i :: b.Requests(i) == a.Requests(i) && b.At(i) == a.At(i);
  }

  lemma IndexIgnoresPolicy(cfg: Config, specs: map<PairId, PairSpec>, inverses: map<Key, LegId>, id: PairId,
                           spec: PairSpec)
    requires cfg.Valid() && IndexInv(cfg, specs, inverses) && id in specs && SameConnection(specs[id], spec)
    ensures IndexInv(cfg, specs[id := spec], inverses)
  {
    hide NoCollisions, IndexAgrees, SelfCollides;
    CollisionsIgnorePolicy(cfg, specs, id, spec);
    AgreementIgnoresPolicy(specs, inverses, id, spec);
    assert SpecValid(cfg, spec) by {
      ValidityIgnoresPolicy(cfg, specs[id], spec);
    }
  }

  // The table invariant.

  ghost predicate PairOk(p: Pair) {
    && p.generation <= MAX_GENERATION
    && (p.state == Absent ==> p.leg0 == NO_LEG && p.leg1 == NO_LEG)
    && (p.state != Absent ==> p.generation > 0 && p.leg0.inverse == p.spec.Requests(0)
                              && p.leg1.inverse == p.spec.Requests(1))
    && (p.state == Draining ==> p.Clean())
    && (p.state == Installed ==> p.HasFlows())
  }

  ghost predicate RetainedOk(t: Table, id: PairId)
    requires id in t.retained
  {
    && id.slot < |t.pairs| && 0 < id.generation < t.pairs[id.slot].generation
    && t.retained[id].generation == id.generation && t.retained[id].state == Draining && PairOk(t.retained[id])
  }

  ghost predicate TableShape(cfg: Config, t: Table) {
    && |t.pairs| == cfg.pairCapacity
    && |t.retained| <= cfg.pairCapacity
    && (forall s :: 0 <= s < |t.pairs| ==> PairOk(t.pairs[s]))
    && (forall id :: id in t.retained ==> RetainedOk(t, id))
  }

  ghost predicate TableInv(cfg: Config, t: Table, specs: map<PairId, PairSpec>)
    requires cfg.Valid()
  {
    TableShape(cfg, t) && Names(t, specs) && IndexInv(cfg, specs, t.inverses)
  }

  lemma TableInvIntro(cfg: Config, t: Table, specs: map<PairId, PairSpec>)
    requires cfg.Valid() && TableShape(cfg, t) && Names(t, specs) && IndexInv(cfg, specs, t.inverses)
    ensures TableInv(cfg, t, specs)
  {
  }

  /** A present primary and a retained pair are the live pairs their ids name. */
  lemma PrimaryNamed(cfg: Config, t: Table, specs: map<PairId, PairSpec>, s: nat)
    requires cfg.Valid() && TableInv(cfg, t, specs) && s < |t.pairs| && t.pairs[s].state != Absent
    ensures IdOf(t.pairs, s) in specs && specs[IdOf(t.pairs, s)] == t.pairs[s].spec && PairOk(t.pairs[s])
    ensures Live(t, IdOf(t.pairs, s)) && LivePair(t, IdOf(t.pairs, s)) == t.pairs[s]
  {
    assert Live(t, IdOf(t.pairs, s));
  }

  lemma NamedLive(cfg: Config, t: Table, specs: map<PairId, PairSpec>, id: PairId)
    requires cfg.Valid() && TableInv(cfg, t, specs) && id in specs
    ensures Live(t, id)
  {
  }

  lemma RetainedNamed(cfg: Config, t: Table, specs: map<PairId, PairSpec>, id: PairId)
    requires cfg.Valid() && TableInv(cfg, t, specs) && id in t.retained
    ensures id in specs && specs[id] == t.retained[id].spec && PairOk(t.retained[id])
            && t.retained[id].state == Draining
    ensures Live(t, id) && LivePair(t, id) == t.retained[id]
    ensures id.slot < |t.pairs| && 0 < id.generation < t.pairs[id.slot].generation
  {
    assert Live(t, id) && RetainedOk(t, id);
  }

  /** A change of state or legs renames nothing. */
  lemma NamesIgnoreState(t: Table, specs: map<PairId, PairSpec>, s: nat, p: Pair)
    requires Names(t, specs) && s < |t.pairs| && t.pairs[s].state != Absent && p.state != Absent
    requires p.generation == t.pairs[s].generation
    ensures Names(t.(pairs := t.pairs[s := p]), specs[PairId(s, p.generation) := p.spec])
  {
    var t', specs' := t.(pairs := t.pairs[s := p]), specs[PairId(s, p.generation) := p.spec];
    forall id ensures id in specs' <==> Live(t', id) {
      assert id in specs <==> Live(t, id);
    }
  }

  /** The table once a new generation of a slot is admitted; a draining pair is retained first. */
  function Admitted(t: Table, s: nat, spec: PairSpec, guards: Option<(Guard, Guard)>): Table
    requires s < |t.pairs|
  {
    var p := t.pairs[s];
    var generation := p.generation + 1;
    var admitted := Pair(generation, Draining, spec, guards,
                         NO_LEG.(inverse := spec.Requests(0)), NO_LEG.(inverse := spec.Requests(1)));
    Table(t.pairs[s := admitted],
          if p.state == Draining then t.retained[PairId(s, p.generation) := p] else t.retained,
          Indexed(t.inverses, PairId(s, generation), spec))
  }

  lemma AdmittedSlot(t: Table, s: nat, spec: PairSpec, guards: Option<(Guard, Guard)>)
    requires s < |t.pairs|
    ensures var t' := Admitted(t, s, spec, guards);
            && |t'.pairs| == |t.pairs| && t'.pairs == t.pairs[s := t'.pairs[s]]
            && t'.pairs[s].generation == t.pairs[s].generation + 1 && t'.pairs[s].state == Draining
  {
  }

  lemma NamesGrow(cfg: Config, t: Table, specs: map<PairId, PairSpec>, s: nat, spec: PairSpec,
                  guards: Option<(Guard, Guard)>)
    requires TableShape(cfg, t) && Names(t, specs) && s < |t.pairs|
    requires t.pairs[s].state == Absent || t.pairs[s].state == Draining
    ensures PairId(s, t.pairs[s].generation + 1) !in specs
    ensures Names(Admitted(t, s, spec, guards), specs[PairId(s, t.pairs[s].generation + 1) := spec])
  {
    var t', new' := Admitted(t, s, spec, guards), PairId(s, t.pairs[s].generation + 1);
    var specs' := specs[new' := spec];
    assert !Live(t, new') by {
      assert new' in t.retained ==> RetainedOk(t, new');
    }
    forall id ensures id in specs' <==> Live(t', id) {
      assert id in specs <==> Live(t, id);
    }
  }

  lemma ShapeGrows(cfg: Config, t: Table, s: nat, spec: PairSpec, guards: Option<(Guard, Guard)>)
    requires TableShape(cfg, t) && s < |t.pairs| && t.pairs[s].generation < MAX_GENERATION
    requires t.pairs[s].state == Absent || (t.pairs[s].state == Draining && |t.retained| < cfg.pairCapacity)
    ensures TableShape(cfg, Admitted(t, s, spec, guards))
  {
    var t' := Admitted(t, s, spec, guards);
    forall id | id in t'.retained ensures RetainedOk(t', id) {
      if id in t.retained {
        assert RetainedOk(t, id);
      }
    }
  }

  /** Admission keeps the table invariant, and every earlier index entry with it. */
  lemma AdmissionKeepsTable(cfg: Config, t: Table, t': Table, specs: map<PairId, PairSpec>, s: nat, spec: PairSpec,
                            guards: Option<(Guard, Guard)>)
    requires cfg.Valid() && TableInv(cfg, t, specs) && SpecValid(cfg, spec)
    requires s < |t.pairs| && t.pairs[s].generation < MAX_GENERATION
    requires t.pairs[s].state == Absent || (t.pairs[s].state == Draining && |t.retained| < cfg.pairCapacity)
    requires Admissible(cfg, spec, specs)
    requires t' == Admitted(t, s, spec, guards)
    ensures PairId(s, t.pairs[s].generation + 1) !in specs
    ensures TableInv(cfg, t', specs[PairId(s, t.pairs[s].generation + 1) := spec])
    ensures Kept(t.inverses, t'.inverses)
  {
    var id := PairId(s, t.pairs[s].generation + 1);
    assert TableShape(cfg, t') by {
      ShapeGrows(cfg, t, s, spec, guards);
    }
    assert id !in specs && Names(t', specs[id := spec]) by {
      NamesGrow(cfg, t, specs, s, spec, guards);
    }
    assert IndexInv(cfg, specs[id := spec], t'.inverses) && Kept(t.inverses, t'.inverses) by {
      IndexGrows(cfg, specs, t.inverses, id, spec);
    }
    TableInvIntro(cfg, t', specs[id := spec]);
  }

  /** A present pair may change state, legs, guards and policy without breaking the table. */
  lemma ReplacementKeepsTable(cfg: Config, t: Table, t': Table, specs: map<PairId, PairSpec>, s: nat, p: Pair)
    requires cfg.Valid() && TableInv(cfg, t, specs) && s < |t.pairs|
    requires t.pairs[s].state != Absent && p.state != Absent && PairOk(p)
    requires p.generation == t.pairs[s].generation && SameConnection(t.pairs[s].spec, p.spec)
    requires t' == t.(pairs := t.pairs[s := p])
    ensures TableInv(cfg, t', specs[PairId(s, p.generation) := p.spec])
  {
    var id := PairId(s, p.generation);
    assert id in specs && specs[id] == t.pairs[s].spec by {
      assert Live(t, id);
    }
    assert TableShape(cfg, t') by {
      forall other | other in t'.retained ensures RetainedOk(t', other) {
        assert RetainedOk(t, other);
      }
    }
    assert Names(t', specs[id := p.spec]) by {
      NamesIgnoreState(t, specs, s, p);
    }
    assert IndexInv(cfg, specs[id := p.spec], t'.inverses) by {
      IndexIgnoresPolicy(cfg, specs, t.inverses, id, p.spec);
    }
    TableInvIntro(cfg, t', specs[id := p.spec]);
  }

  // Flow handles and names.

  function FlowAt(pairs: seq<Pair>, s: nat, i: nat): Option<nat> {
    if s < |pairs| && i < 2 then pairs[s].LegAt(i).flow else None
  }

  /** Live flow handles are distinct, issued, and not yet destroyed. */
  ghost predicate FlowsSound(pairs: seq<Pair>, destroyed: set<nat>, nextFlow: nat) {
    && (forall s, i :: FlowAt(pairs, s, i).Some? ==>
          FlowAt(pairs, s, i).value < nextFlow && FlowAt(pairs, s, i).value !in destroyed)
    && (forall s, i, r, j :: FlowAt(pairs, s, i).Some? && FlowAt(pairs, s, i) == FlowAt(pairs, r, j) ==>
              s == r && i == j)
    && (forall f :: f in destroyed ==> f < nextFlow)
  }

  /** Every generation a slot has had names one connection. */
  ghost predicate NamesSound(pairs: seq<Pair>, retained: map<PairId, Pair>, named: map<PairId, PairSpec>) {
    && (forall s :: 0 <= s < |pairs| && pairs[s].generation > 0 ==>
          IdOf(pairs, s) in named && named[IdOf(pairs, s)] == pairs[s].spec)
    && (forall id :: id in retained ==> id in named && named[id] == retained[id].spec)
    && (forall id :: id in named ==> id.slot < |pairs| && 0 < id.generation <= pairs[id.slot].generation)
  }

  /** Handing one leg's flow to the SDK takes it off the leg. */
  lemma FlowDestroyed(pairs: seq<Pair>, s: nat, i: nat, leg: Leg, destroyed: set<nat>, nextFlow: nat)
    requires FlowsSound(pairs, destroyed, nextFlow) && s < |pairs| && i < 2 && FlowAt(pairs, s, i).Some?
             && leg.flow.None?
    ensures FlowAt(pairs, s, i).value < nextFlow && FlowAt(pairs, s, i).value !in destroyed
    ensures FlowsSound(pairs[s := pairs[s].WithLeg(i, leg)], destroyed + {FlowAt(pairs, s, i).value}, nextFlow)
  {
    var pairs' := pairs[s := pairs[s].WithLeg(i, leg)];
    assert forall r, j :: FlowAt(pairs', r, j) == if r == s && j == i then None else FlowAt(pairs, r, j);
  }

  /** A created flow is a new handle. */
  lemma FlowCreated(pairs: seq<Pair>, s: nat, i: nat, leg: Leg, destroyed: set<nat>, nextFlow: nat)
    requires FlowsSound(pairs, destroyed, nextFlow) && s < |pairs| && i < 2 && leg.flow == Some(nextFlow)
    ensures FlowsSound(pairs[s := pairs[s].WithLeg(i, leg)], destroyed, nextFlow + 1)
  {
    var pairs' := pairs[s := pairs[s].WithLeg(i, leg)];
    assert forall r, j :: FlowAt(pairs', r, j) == if r == s && j == i then Some(nextFlow) else FlowAt(pairs, r, j);
  }

  /** A pair that changes no flow changes nothing about them. */
  lemma FlowsUnchanged(pairs: seq<Pair>, s: nat, p: Pair, destroyed: set<nat>, nextFlow: nat)
    requires FlowsSound(pairs, destroyed, nextFlow) && s < |pairs|
    requires forall i :: 0 <= i < 2 ==> p.LegAt(i).flow == pairs[s].LegAt(i).flow || p.LegAt(i).flow.None?
    ensures FlowsSound(pairs[s := p], destroyed, nextFlow)
  {
    var pairs' := pairs[s := p];
    assert forall r, j :: FlowAt(pairs', r, j).Some? ==> FlowAt(pairs', r, j) == FlowAt(pairs, r, j);
    forall r, i, q, j | FlowAt(pairs', r, i).Some? && FlowAt(pairs', r, i) == FlowAt(pairs', q, j) ensures r == q
      && i == j {
      assert FlowAt(pairs, r, i) == FlowAt(pairs, q, j);
    }
  }

  /** Every slot keeps its generation, specification and guards. */
  ghost predicate SameRecords(a: seq<Pair>, b: seq<Pair>) {
    |a| == |b| && forall s :: 0 <= s < |a| ==>
      b[s].generation == a[s].generation && b[s].spec == a[s].spec && b[s].guards == a[s].guards
  }

  lemma SameRecordsSelf(a: seq<Pair>)
    ensures SameRecords(a, a)
  {
  }

  lemma SameRecordsAt(a: seq<Pair>, b: seq<Pair>, s: nat)
    requires s < |a| == |b| && b == a[s := b[s]]
    requires b[s].generation == a[s].generation && b[s].spec == a[s].spec && b[s].guards == a[s].guards
    ensures SameRecords(a, b)
  {
  }

  /** A faulted pair means a faulted owner. */
  ghost predicate FaultsKnown(pairs: seq<Pair>, faulted: bool) {
    forall s :: 0 <= s < |pairs| && pairs[s].state == Faulted ==> faulted
  }

  lemma FaultsElsewhere(pairs: seq<Pair>, pairs': seq<Pair>, s: nat, faulted: bool)
    requires FaultsKnown(pairs, faulted) && s < |pairs| == |pairs'| && pairs' == pairs[s := pairs'[s]]
    requires pairs'[s].state == Faulted ==> faulted
    ensures FaultsKnown(pairs', faulted)
  {
  }

  lemma FaultsRecords(pairs: seq<Pair>, pairs': seq<Pair>, s: nat, faulted: bool)
    requires FaultsKnown(pairs, faulted) && s < |pairs| == |pairs'| && pairs' == pairs[s := pairs'[s]]
    requires pairs'[s].state == pairs[s].state
    ensures FaultsKnown(pairs', faulted)
  {
  }

  // A slot in the middle of a change.

  /** The table is sound but for what the state of one slot promises about its legs. */
  ghost predicate LooseTable(cfg: Config, t: Table, specs: map<PairId, PairSpec>, s: nat)
    requires cfg.Valid()
  {
    && s < |t.pairs| && t.pairs[s].state != Absent
    && TableInv(cfg, t.(pairs := t.pairs[s := t.pairs[s].(state := Faulted)]), specs)
  }

  lemma Loosen(cfg: Config, t: Table, specs: map<PairId, PairSpec>, s: nat)
    requires cfg.Valid() && TableInv(cfg, t, specs) && s < |t.pairs| && t.pairs[s].state != Absent
    ensures LooseTable(cfg, t, specs, s)
  {
    var p := t.pairs[s].(state := Faulted);
    PrimaryNamed(cfg, t, specs, s);
    ReplacementKeepsTable(cfg, t, t.(pairs := t.pairs[s := p]), specs, s, p);
    assert specs[PairId(s, p.generation) := p.spec] == specs;
  }

  lemma Tighten(cfg: Config, t: Table, specs: map<PairId, PairSpec>, s: nat)
    requires cfg.Valid() && LooseTable(cfg, t, specs, s) && PairOk(t.pairs[s])
    ensures TableInv(cfg, t, specs)
  {
    hide TableInv, PairOk;
    var loose := t.(pairs := t.pairs[s := t.pairs[s].(state := Faulted)]);
    PrimaryNamed(cfg, loose, specs, s);
    assert t == loose.(pairs := loose.pairs[s := t.pairs[s]]);
    ReplacementKeepsTable(cfg, loose, t, specs, s, t.pairs[s]);
    assert specs[PairId(s, t.pairs[s].generation) := t.pairs[s].spec] == specs;
  }

  /** A loose slot may change its state, flows, guards and policy. */
  lemma LooseReplacement(cfg: Config, t: Table, t': Table, specs: map<PairId, PairSpec>, s: nat, p: Pair)
    requires cfg.Valid() && LooseTable(cfg, t, specs, s) && p.state != Absent
    requires p.generation == t.pairs[s].generation && SameConnection(t.pairs[s].spec, p.spec)
    requires p.leg0.inverse == t.pairs[s].leg0.inverse && p.leg1.inverse == t.pairs[s].leg1.inverse
    requires t' == t.(pairs := t.pairs[s := p])
    ensures LooseTable(cfg, t', specs[PairId(s, p.generation) := p.spec], s)
    ensures p.spec == t.pairs[s].spec ==> specs[PairId(s, p.generation) := p.spec] == specs
  {
    var loose := t.(pairs := t.pairs[s := t.pairs[s].(state := Faulted)]);
    var q := p.(state := Faulted);
    PrimaryNamed(cfg, loose, specs, s);
    var loose' := loose.(pairs := loose.pairs[s := q]);
    ReplacementKeepsTable(cfg, loose, loose', specs, s, q);
    assert loose' == t'.(pairs := t'.pairs[s := t'.pairs[s].(state := Faulted)]);
  }

  // The whole of the owner's bookkeeping.

  /** The live and all past specifications, the destroyed flows and the next flow handle. */
  datatype Book = Book(specs: map<PairId, PairSpec>, named: map<PairId, PairSpec>, destroyed: set<nat>, nextFlow: nat)

  ghost predicate Sound(cfg: Config, t: Table, b: Book) {
    && cfg.Valid() && TableInv(cfg, t, b.specs)
    && FlowsSound(t.pairs, b.destroyed, b.nextFlow) && NamesSound(t.pairs, t.retained, b.named)
  }

  ghost predicate LooseSound(cfg: Config, t: Table, b: Book, s: nat) {
    && cfg.Valid() && LooseTable(cfg, t, b.specs, s)
    && FlowsSound(t.pairs, b.destroyed, b.nextFlow) && NamesSound(t.pairs, t.retained, b.named)
  }

  lemma LooseSoundIntro(cfg: Config, t: Table, b: Book, s: nat)
    requires cfg.Valid() && LooseTable(cfg, t, b.specs, s)
    requires FlowsSound(t.pairs, b.destroyed, b.nextFlow) && NamesSound(t.pairs, t.retained, b.named)
    ensures LooseSound(cfg, t, b, s)
  {
  }

  lemma LoosenSound(cfg: Config, t: Table, b: Book, s: nat)
    requires Sound(cfg, t, b) && s < |t.pairs| && t.pairs[s].state != Absent
    ensures LooseSound(cfg, t, b, s)
  {
    Loosen(cfg, t, b.specs, s);
  }

  lemma TightenSound(cfg: Config, t: Table, b: Book, s: nat)
    requires LooseSound(cfg, t, b, s) && PairOk(t.pairs[s])
    ensures Sound(cfg, t, b)
  {
    Tighten(cfg, t, b.specs, s);
  }

  /** Between its deletions a slot is always loosely sound; clean and draining it is sound again. */
  lemma CleanedSound(cfg: Config, t: Table, b: Book, s: nat)
    requires LooseSound(cfg, t, b, s) && t.pairs[s].state == Draining && t.pairs[s].Clean()
    ensures Sound(cfg, t, b)
  {
    assert PairOk(t.pairs[s]) by {
      LoosePairOk(cfg, t, b, s);
    }
    TightenSound(cfg, t, b, s);
  }

  lemma LoosePairOk(cfg: Config, t: Table, b: Book, s: nat)
    requires LooseSound(cfg, t, b, s)
    ensures PairOk(t.pairs[s].(state := Faulted)) && PairId(s, t.pairs[s].generation) !in t.retained
  {
    var loose := t.(pairs := t.pairs[s := t.pairs[s].(state := Faulted)]);
    PrimaryNamed(cfg, loose, b.specs, s);
    if PairId(s, t.pairs[s].generation) in loose.retained {
      RetainedNamed(cfg, loose, b.specs, PairId(s, t.pairs[s].generation));
      assert false;
    }
  }

  lemma FaultedSound(cfg: Config, t: Table, b: Book, s: nat)
    requires LooseSound(cfg, t, b, s) && t.pairs[s].state == Faulted
    ensures Sound(cfg, t, b)
  {
    LoosePairOk(cfg, t, b, s);
    TightenSound(cfg, t, b, s);
  }

  lemma InstalledSound(cfg: Config, t: Table, b: Book, s: nat)
    requires LooseSound(cfg, t, b, s) && t.pairs[s].state == Installed && t.pairs[s].HasFlows()
    ensures Sound(cfg, t, b)
  {
    assert PairOk(t.pairs[s]) by {
      LoosePairOk(cfg, t, b, s);
    }
    TightenSound(cfg, t, b, s);
  }

  /** A draining pair of a sound table has no flow and records exactly its requested legs. */
  lemma DrainingClean(cfg: Config, t: Table, b: Book, s: nat)
    requires Sound(cfg, t, b) && s < |t.pairs| && t.pairs[s].state == Draining
    ensures t.pairs[s].Clean() && LooseSound(cfg, t, b, s) && t.pairs[s].generation > 0
    ensures IdOf(t.pairs, s) in b.specs && b.specs[IdOf(t.pairs, s)] == t.pairs[s].spec
    ensures forall i :: 0 <= i < 2 ==> t.pairs[s].LegAt(i).inverse == t.pairs[s].spec.Requests(i)
  {
    PrimaryNamed(cfg, t, b.specs, s);
    LoosenSound(cfg, t, b, s);
  }

  /** A pair of the same connection renames nothing but its policy generation. */
  lemma NamesReplaced(pairs: seq<Pair>, retained: map<PairId, Pair>, named: map<PairId, PairSpec>, s: nat, p: Pair)
    requires NamesSound(pairs, retained, named) && s < |pairs| && 0 < p.generation == pairs[s].generation
    requires PairId(s, p.generation) !in retained
    ensures NamesSound(pairs[s := p], retained, named[PairId(s, p.generation) := p.spec])
  {
  }

  /** One leg changes: its flow is handed to the SDK. */
  lemma LegDestroyed(cfg: Config, t: Table, b: Book, s: nat, i: nat, leg: Leg)
    requires LooseSound(cfg, t, b, s) && i < 2 && FlowAt(t.pairs, s, i).Some?
    requires leg.flow.None? && leg.inverse == t.pairs[s].LegAt(i).inverse
    ensures FlowAt(t.pairs, s, i).value < b.nextFlow && FlowAt(t.pairs, s, i).value !in b.destroyed
    ensures LooseSound(cfg, t.(pairs := t.pairs[s := t.pairs[s].WithLeg(i, leg)]),
                       b.(destroyed := b.destroyed + {FlowAt(t.pairs, s, i).value}), s)
  {
    var p := t.pairs[s].WithLeg(i, leg);
    FlowDestroyed(t.pairs, s, i, leg, b.destroyed, b.nextFlow);
    LooseLegs(cfg, t, b, s, p);
    LooseSoundIntro(cfg, t.(pairs := t.pairs[s := p]), b.(destroyed := b.destroyed + {FlowAt(t.pairs, s, i).value}), s);
  }

  /** One leg changes: it gets a created flow. */
  lemma LegCreated(cfg: Config, t: Table, b: Book, s: nat, i: nat, leg: Leg)
    requires LooseSound(cfg, t, b, s) && i < 2
    requires leg.flow == Some(b.nextFlow) && leg.inverse == t.pairs[s].LegAt(i).inverse
    ensures LooseSound(cfg, t.(pairs := t.pairs[s := t.pairs[s].WithLeg(i, leg)]), b.(nextFlow := b.nextFlow + 1), s)
  {
    var p := t.pairs[s].WithLeg(i, leg);
    FlowCreated(t.pairs, s, i, leg, b.destroyed, b.nextFlow);
    LooseLegs(cfg, t, b, s, p);
    LooseSoundIntro(cfg, t.(pairs := t.pairs[s := p]), b.(nextFlow := b.nextFlow + 1), s);
  }

  lemma LooseLegs(cfg: Config, t: Table, b: Book, s: nat, p: Pair)
    requires LooseSound(cfg, t, b, s) && p.state != Absent
    requires p.generation == t.pairs[s].generation && p.spec == t.pairs[s].spec
    requires p.leg0.inverse == t.pairs[s].leg0.inverse && p.leg1.inverse == t.pairs[s].leg1.inverse
    ensures LooseTable(cfg, t.(pairs := t.pairs[s := p]), b.specs, s)
    ensures NamesSound(t.pairs[s := p], t.retained, b.named)
  {
    hide TableInv;
    LooseReplacement(cfg, t, t.(pairs := t.pairs[s := p]), b.specs, s, p);
  }

  /** A loose pair changes its state. */
  lemma StateChanged(cfg: Config, t: Table, b: Book, s: nat, state: PairState)
    requires LooseSound(cfg, t, b, s) && state != Absent
    ensures LooseSound(cfg, t.(pairs := t.pairs[s := t.pairs[s].(state := state)]), b, s)
  {
    var p := t.pairs[s].(state := state);
    FlowsUnchanged(t.pairs, s, p, b.destroyed, b.nextFlow);
    LooseLegs(cfg, t, b, s, p);
    LooseSoundIntro(cfg, t.(pairs := t.pairs[s := p]), b, s);
  }

  /** A new generation is a new name. */
  lemma NamesAdmitted(pairs: seq<Pair>, retained: map<PairId, Pair>, named: map<PairId, PairSpec>, s: nat, p: Pair,
                      retained': map<PairId, Pair>)
    requires NamesSound(pairs, retained, named) && s < |pairs| && p.generation == pairs[s].generation + 1
    requires retained' == retained || (pairs[s].generation > 0 && retained' == retained[IdOf(pairs, s) := pairs[s]])
    ensures PairId(s, p.generation) !in named
    ensures NamesSound(pairs[s := p], retained', named[PairId(s, p.generation) := p.spec])
  {
    assert PairId(s, p.generation) !in named;
  }

  /** The book once a new generation is admitted. */
  function Registered(b: Book, id: PairId, spec: PairSpec): Book {
    b.(specs := b.specs[id := spec], named := b.named[id := spec])
  }

  /** What a sound table promises before an admission. */
  lemma AdmissionReady(cfg: Config, t: Table, b: Book, s: nat, spec: PairSpec)
    requires Sound(cfg, t, b) && SpecValid(cfg, spec) && Admissible(cfg, spec, b.specs) && s < |t.pairs|
    ensures t.pairs[s].generation <= MAX_GENERATION && (t.pairs[s].state == Draining ==> t.pairs[s].Clean())
    ensures FreshIn(t.inverses, spec)
  {
    assert PairOk(t.pairs[s]);
    FreshKeys(cfg, b.specs, t.inverses, spec);
  }

  lemma AdmissionSound(cfg: Config, t: Table, t': Table, b: Book, s: nat, spec: PairSpec, guards: Option<(Guard,
                       Guard)>)
    requires Sound(cfg, t, b) && SpecValid(cfg, spec) && s < |t.pairs| && t.pairs[s].generation < MAX_GENERATION
    requires t.pairs[s].state == Absent || (t.pairs[s].state == Draining && |t.retained| < cfg.pairCapacity)
    requires Admissible(cfg, spec, b.specs) && t' == Admitted(t, s, spec, guards)
    ensures PairId(s, t.pairs[s].generation + 1) !in b.named
    ensures Sound(cfg, t', Registered(b, PairId(s, t.pairs[s].generation + 1), spec))
    ensures Kept(t.inverses, t'.inverses)
  {
    hide TableInv, FlowsSound, NamesSound, IndexInv;
    AdmissionKeepsTable(cfg, t, t', b.specs, s, spec, guards);
    FlowsUnchanged(t.pairs, s, t'.pairs[s], b.destroyed, b.nextFlow);
    if t.pairs[s].state == Draining {
      DrainingClean(cfg, t, b, s);
    }
    NamesAdmitted(t.pairs, t.retained, b.named, s, t'.pairs[s], t'.retained);
  }

  /** A present pair takes a new policy generation and new guards. */
  lemma PolicyChanged(cfg: Config, t: Table, b: Book, s: nat, p: Pair)
    requires Sound(cfg, t, b) && s < |t.pairs| && t.pairs[s].state != Absent
    requires SameConnection(t.pairs[s].spec, p.spec) && p == t.pairs[s].(spec := p.spec, guards := p.guards)
    ensures Sound(cfg, t.(pairs := t.pairs[s := p]), Registered(b, IdOf(t.pairs, s), p.spec))
    ensures IdOf(t.pairs, s) in b.named && b.named[IdOf(t.pairs, s)] == t.pairs[s].spec
  {
    hide TableInv, FlowsSound, IndexInv;
    PrimaryNamed(cfg, t, b.specs, s);
    ReplacementKeepsTable(cfg, t, t.(pairs := t.pairs[s := p]), b.specs, s, p);
    FlowsUnchanged(t.pairs, s, p, b.destroyed, b.nextFlow);
    LoosenSound(cfg, t, b, s);
    LoosePairOk(cfg, t, b, s);
    NamesReplaced(t.pairs, t.retained, b.named, s, p);
  }

  /** The index owns every requested leg of a present pair. */
  lemma InverseOwned(cfg: Config, t: Table, b: Book, s: nat, i: nat)
    requires Sound(cfg, t, b) && s < |t.pairs| && t.pairs[s].state != Absent && i < 2 && t.pairs[s].spec.Requests(i)
    ensures t.pairs[s].LegAt(i).inverse && KeyOf(t.pairs[s].spec.At(i)) in t.inverses
    ensures t.inverses[KeyOf(t.pairs[s].spec.At(i))] == LegId(s, t.pairs[s].generation, i)
  {
    PrimaryNamed(cfg, t, b.specs, s);
  }

  /** The table after every slot is forgotten. */
  lemma ForgottenTable(cfg: Config, t: Table)
    requires cfg.Valid() && |t.pairs| == cfg.pairCapacity && t.retained == map[] && t.inverses == map[]
    requires forall s :: 0 <= s < |t.pairs| ==> PairOk(t.pairs[s]) && t.pairs[s].state == Absent
    ensures TableInv(cfg, t, map[])
  {
  }

  /** The tables of a new owner are sound. */
  lemma NewTable(cfg: Config, t: Table, b: Book)
    requires cfg.Valid() && |t.pairs| == cfg.pairCapacity && t.retained == map[] && t.inverses == map[]
    requires forall s :: 0 <= s < |t.pairs| ==> t.pairs[s] == Blank(0)
    requires b == Book(map[], map[], {}, 0)
    ensures Sound(cfg, t, b) && FaultsKnown(t.pairs, false)
  {
    hide TableInv;
    ForgottenTable(cfg, t);
  }

  /** Every slot is empty or drained. */
  ghost predicate Drained(pairs: seq<Pair>) {
    forall s :: 0 <= s < |pairs| ==> pairs[s].state == Absent || pairs[s].state == Draining
  }

  ghost predicate AllForgotten(before: seq<Pair>, after: seq<Pair>) {
    |after| == |before| && forall s :: 0 <= s < |after| ==> after[s] == Forgotten(before[s])
  }

  /** Forgetting a drained table leaves nothing but generations and names. */
  lemma ForgottenSound(cfg: Config, t: Table, b: Book, pairs': seq<Pair>)
    requires Sound(cfg, t, b) && Drained(t.pairs) && AllForgotten(t.pairs, pairs')
    ensures Sound(cfg, Table(pairs', map[], map[]), b.(specs := map[]))
    ensures SameRecords(t.pairs, pairs')
    ensures forall s :: 0 <= s < |pairs'| ==>
              pairs'[s].state == Absent && pairs'[s].leg0 == NO_LEG && pairs'[s].leg1 == NO_LEG
  {
    hide TableInv;
    forall s | 0 <= s < |pairs'|
      ensures PairOk(pairs'[s]) && pairs'[s].state == Absent && pairs'[s].leg0 == NO_LEG && pairs'[s].leg1 == NO_LEG
    {
      assert PairOk(t.pairs[s]) by {
        SlotOk(cfg, t, b.specs, s);
      }
    }
    assert |pairs'| == cfg.pairCapacity by {
      SlotOk(cfg, t, b.specs, 0);
    }
    ForgottenTable(cfg, Table(pairs', map[], map[]));
    assert forall r, j :: FlowAt(pairs', r, j).None?;
    ForgottenNames(t.pairs, pairs', t.retained, b.named);
  }

  lemma SlotOk(cfg: Config, t: Table, specs: map<PairId, PairSpec>, s: nat)
    requires cfg.Valid() && TableInv(cfg, t, specs)
    ensures |t.pairs| == cfg.pairCapacity && (s < |t.pairs| ==> PairOk(t.pairs[s]))
  {
  }

  lemma ForgottenNames(pairs: seq<Pair>, pairs': seq<Pair>, retained: map<PairId, Pair>, named: map<PairId, PairSpec>)
    requires NamesSound(pairs, retained, named) && AllForgotten(pairs, pairs')
    ensures NamesSound(pairs', map[], named) && SameRecords(pairs, pairs')
  {
    assert forall s :: 0 <= s < |pairs'| ==> IdOf(pairs', s) == IdOf(pairs, s);
  }

  // The size of the index.

  ghost function PrimaryIds(pairs: seq<Pair>, n: nat): (ids: set<PairId>)
    requires n <= |pairs|
    ensures |ids| <= n
    ensures forall s :: 0 <= s < n ==> IdOf(pairs, s) in ids
  {
    if n == 0 then {} else PrimaryIds(pairs, n - 1) + {IdOf(pairs, n - 1)}
  }

  lemma {:induction false} InjectionBound(keys: set<Key>, owner: map<Key, PairId>, targets: set<PairId>)
    requires forall k :: k in keys ==> k in owner && owner[k] in targets
    requires forall a, b :: a in keys && b in keys && owner[a] == owner[b] ==> a == b
    ensures |keys| <= |targets|
    decreases |keys|
  {
    if k :| k in keys {
      InjectionBound(keys - {k}, owner, targets - {owner[k]});
    }
  }

  lemma DirectionBound(t: Table, specs: map<PairId, PairSpec>, keys: set<Key>, i: nat)
    requires Names(t, specs) && IndexAgrees(specs, t.inverses)
    requires forall k :: k in keys ==> k in t.inverses && t.inverses[k].direction == i
    ensures |keys| <= |t.pairs| + |t.retained|
  {
    var owner := map k | k in keys :: PairId(t.inverses[k].slot, t.inverses[k].generation);
    var primaries := PrimaryIds(t.pairs, |t.pairs|);
    var targets := primaries + t.retained.Keys;
    forall k | k in keys ensures owner[k] in targets && KeyOf(specs[owner[k]].At(i)) == k {
      assert IsLeg(specs, k, t.inverses[k]);
      assert Live(t, owner[k]);
      if IsPrimary(t, owner[k]) {
        assert IdOf(t.pairs, owner[k].slot) == owner[k];
      }
    }
    InjectionBound(keys, owner, targets);
    assert |targets| <= |primaries| + |t.retained|;
  }

  /** The index never outgrows the four entries per slot that are reserved for it. */
  lemma IndexBound(cfg: Config, t: Table, specs: map<PairId, PairSpec>)
    requires cfg.Valid() && TableInv(cfg, t, specs)
    ensures |t.inverses| <= 4 * cfg.pairCapacity
  {
    hide SpecValid, NoCollisions, RetainedOk, PairOk;
    assert |t.pairs| == cfg.pairCapacity && |t.retained| <= cfg.pairCapacity;
    DirectionSplit(t, specs);
    DirectionBound(t, specs, DirectionKeys(t, 0), 0);
    DirectionBound(t, specs, DirectionKeys(t, 1), 1);
  }

  /** The keys that undo one direction. */
  ghost function DirectionKeys(t: Table, i: nat): set<Key> {
    set k | k in t.inverses && t.inverses[k].direction == i
  }

  lemma DirectionSplit(t: Table, specs: map<PairId, PairSpec>)
    requires IndexAgrees(specs, t.inverses)
    ensures |t.inverses| <= |DirectionKeys(t, 0)| + |DirectionKeys(t, 1)|
  {
    var first, second := DirectionKeys(t, 0), DirectionKeys(t, 1);
    forall k | k in t.inverses ensures k in first + second {
      assert IsLeg(specs, k, t.inverses[k]);
    }
    assert t.inverses.Keys == first + second;
    assert |t.inverses| == |t.inverses.Keys|;
  }
}
