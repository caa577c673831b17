/**
  The offload worker: one owner thread that installs hardware NAT pairs, polls
  rewritten packets from the DATA ports, forwards the eligible ones and returns
  the others to the kernel with the rewrite undone. The SDK is nondeterministic:
  flow creation and deletion, port stops, TX counts and RX bursts are arbitrary.
*/
module Worker {
  import opened Wire
  import opened Packet
  import opened PacketEdit
  import opened Directions
  import opened PairTable
  import opened PacketQueue
  import opened FragmentTheorems

  /** Packets in and out. */
  datatype Stats = Stats(received: nat, forwarded: nat, returned: nat, discarded: nat)

  /** The calls of the owner's interface. */
  datatype Call =
    | Install(spec: PairSpec, guards: Option<(Guard, Guard)>)
    | Resume(handle: Handle, spec: PairSpec, reguards: (Guard, Guard))
    | Reobserve(handle: Handle, spec: PairSpec, reguards: (Guard, Guard))
    | Remove(handle: Handle)
    | PollFor(budget: nat)
    | CloseFor(final: bool)
    | ReopenWith(config: Config)

  datatype Handle = Handle(instance: nat, generation: nat, slot: nat, reserved: nat)

  /** What a lookup says of a leg; only a lookup by ports names its pair. */
  datatype PacketLeg = PacketLeg(direction: Direction, guard: Option<Guard>, pair: Option<PairId>, installed: bool)

  function GuardAt(pair: Pair, i: nat): Option<Guard> {
    if pair.guards.None? then None else Some(if i == 0 then pair.guards.value.0 else pair.guards.value.1)
  }

  /** A packet the worker may forward has ports and a live hop count. */
  lemma PortsNeeded(frame: Bytes, view: View, outputMtu: word)
    requires Eligible(frame, view, outputMtu)
    ensures view.ports && view.ttl > 0 && !view.fragment
  {
  }

  /** The checks on an observed selector guard. */
  predicate GuardValid(d: Direction, g: Guard) {
    IsZero(g.reserved) && g.flowLabel <= 0xfffff && (d.original.family == FAMILY_IPV4 ==> g.flowLabel == 0)
  }

  /** No packet is shut out by the checks on a guard: one it matches is a guard that passes them. */
  lemma GuardsOfPackets(f: Bytes, d: Direction, g: Guard)
    requires Decode(f).Ok? && Decode(f).value.tuple.family == d.original.family && IsZero(g.reserved)
    ensures GuardMatches(Decode(f).value, g) ==> GuardValid(d, g)
  {
  }

  ghost predicate GuardFits(spec: PairSpec, guards: Option<(Guard, Guard)>, i: nat) {
    guards.Some? ==> GuardValid(spec.At(i), if i == 0 then guards.value.0 else guards.value.1)
  }

  /** The checks on one requested leg and its guard. */
  function CheckLeg(cfg: Config, spec: PairSpec, guards: Option<(Guard, Guard)>, i: nat): (r: Outcome)
    requires cfg.Valid()
    ensures r.Done? && spec.Requests(i) ==> DirectionValid(cfg, spec.At(i))
    ensures r.Failed? ==> r.fault == EINVAL || r.fault == ENOTSUP
    ensures r.Done? <==> (spec.Requests(i) ==> DirectionValid(cfg, spec.At(i)) && GuardFits(spec, guards, i))
  {
    if !spec.Requests(i) then Done
    else
      var checked := CheckDirection(cfg, spec.At(i));
      if checked.Failed? then checked
      else if guards.Some?
        && !GuardValid(spec.At(i), if i == 0 then guards.value.0 else guards.value.1) then Failed(EINVAL)
      else Done
  }

  /** The origin that receives on a DATA port, if one does. */
  function OriginOf(origins: seq<Origin>, data: nat): (r: Option<nat>)
    ensures r.Some? ==> r.value < |origins| && origins[r.value].data == data
    ensures r.None? ==> forall i :: 0 <= i < |origins| ==> origins[i].data != data
  {
    if origins == [] then None
    else if origins[|origins| - 1].data == data then Some(|origins| - 1)
    else OriginOf(origins[..|origins| - 1], data)
  }

  /** What a draining owner sees when a poll returns. */
  datatype Reading = Reading(at: nat, received: nat, idle: bool)

  /** In nanoseconds: how long the ports must stay quiet, and how long a sleep lasts at least. */
  const DRAIN_QUIET: nat := 1_000_000
  const DRAIN_SLEEP: nat := 50_000

  /** Since one poll nothing was received and nothing was left to do. */
  ghost predicate QuietFrom(polls: seq<Reading>, since: nat) {
    since < |polls| && forall k :: since <= k < |polls| ==> polls[k].idle && polls[k].received == polls[since].received
  }

  ghost predicate QuietLongEnough(polls: seq<Reading>, since: nat)
    requires since < |polls|
  {
    polls[|polls| - 1].at >= polls[since].at + DRAIN_QUIET
  }

  lemma QuietStarts(polls: seq<Reading>)
    requires polls != [] && polls[|polls| - 1].idle
    ensures QuietFrom(polls, |polls| - 1)
  {
  }

  lemma QuietGoesOn(polls: seq<Reading>, since: nat)
    requires |polls| > 1 && QuietFrom(polls[..|polls| - 1], since)
    requires polls[|polls| - 1].idle && polls[|polls| - 1].received == polls[|polls| - 2].received
    ensures QuietFrom(polls, since) && polls[since] == polls[..|polls| - 1][since]
  {
    assert polls[..|polls| - 1][|polls| - 2] == polls[|polls| - 2];
  }

  /** A failure that only the SDK brings about. */
  ghost predicate SdkFault(o: Outcome) {
    o.Failed? && o.fault in {ESDK, EIO, ENODEV}
  }

  /** Every flow of the pair went to the SDK's destroy call. */
  ghost predicate HandedOver(p: Pair, destroyed: set<nat>) {
    && (p.leg0.flow.Some? ==> p.leg0.flow.value in destroyed) && (p.leg1.flow.Some? ==> p.leg1.flow.value in destroyed)
  }

  /** The first flush of a poll, and the turns of what it sent after. */
  datatype PollTrace = PollTrace(queue: seq<Pending>, taken: nat, offers: seq<Burst>, visits: seq<nat>)

  /** TX took the whole burst. */
  ghost predicate IsFull(call: Burst) {
    call.Tx? && call.accepted == call.count
  }

  ghost predicate NoneStarted(started: seq<bool>) {
    forall i :: 0 <= i < |started| ==> !started[i]
  }

  ghost predicate NoneInstalled(pairs: seq<Pair>) {
    forall s :: 0 <= s < |pairs| ==> pairs[s].state != Installed
  }

  /** At most one trail was added, of a packet received on an origin. */
  ghost predicate OneMore(before: seq<Trail>, after: seq<Trail>, origin: nat) {
    after == before || (|after| == |before| + 1 && before <= after && after[|before|].origin == origin)
  }

  class Owner {
    const cfg: Config
    const instance: nat
    var pairs: seq<Pair>
    var retained: map<PairId, Pair>
    var inverses: map<Key, LegId>
    var pending: seq<Pending>
    var received: seq<Received>
    var quarantined: Option<Received>
    var nextRx: nat
    var stats: Stats
    /** Which DATA ports are started, by index; the index also names the port. */
    var started: seq<bool>
    /** Which controllers hand a packet that no flow takes to their receiver. */
    var misses: seq<bool>
    /** The failure after which only `close` is attempted. */
    var terminal: Option<Fault>
    var ealReady: bool
    var pool: bool
    var active: bool
    var quiescing: bool
    var faulted: bool
    /** The SDK's next flow handle. */
    var nextFlow: nat

    /** The live specifications, and every specification a handle ever named. */
    ghost var specs: map<PairId, PairSpec>
    ghost var named: map<PairId, PairSpec>
    /** The flow handles passed to the SDK's destroy call. */
    ghost var destroyed: set<nat>
    /** Where each pending packet came from, and everything transmitted so far. */
    ghost var trails: seq<Trail>
    ghost var sent: seq<Sent>
    /** Null entries in RX bursts, which the receive counter counts. */
    ghost var nulls: nat
    /** Every packet received, and those discarded. */
    ghost var ledger: Ledger
    /** Every call of RX and TX. */
    ghost var bursts: seq<Burst>

    ghost function T(): Table
      reads this`pairs, this`retained, this`inverses
    {
      Table(pairs, retained, inverses)
    }

    ghost function B(): Book
      reads this`specs, this`named, this`destroyed, this`nextFlow
    {
      Book(specs, named, destroyed, nextFlow)
    }

    ghost predicate Conserved()
      reads this`stats, this`pending, this`received, this`quarantined, this`nulls, this`sent
    {
      && stats.received == stats.forwarded + stats.returned + stats.discarded + |pending| + |received|
                           + (if quarantined.Some? then 1 else 0) + nulls
      && stats.returned == Count(sent, true) && stats.forwarded == Count(sent, false)
    }

    /** Every packet received is accounted for, by origin and octets. */
    ghost predicate Tracked()
      reads this`stats, this`received, this`quarantined, this`nulls, this`sent, this`trails, this`ledger
    {
      && Accounted(ledger, sent, trails, received, quarantined)
      && stats.received == |ledger.arrived| + nulls && stats.discarded == |ledger.dropped|
    }

    ghost predicate PacketsOk()
      reads this`stats, this`pending, this`received, this`quarantined, this`nulls, this`sent, this`trails, this`named,
        this`ledger
    {
      && cfg.Valid()
      && QueueOk(cfg, named, pending, trails)
      && AllSentOk(cfg, named, sent)
      && (forall i :: 0 <= i < |received| ==> received[i].origin < |cfg.origins|)
      && Conserved() && Tracked()
    }

    ghost predicate TablesOk()
      reads this`pairs, this`retained, this`inverses, this`specs, this`named, this`destroyed, this`nextFlow
    {
      Sound(cfg, T(), B())
    }

    ghost predicate FaultsOk()
      reads this`pairs, this`quarantined, this`faulted
    {
      && (quarantined.Some? ==> faulted)
      && FaultsKnown(pairs, faulted)
    }

    /** A packet is prepared only under an installed pair. */
    ghost predicate Armed()
      reads this`pairs, this`pending
    {
      ArmedUnder(pairs, pending)
    }

    /** What holds inside calls too. */
    ghost predicate Core()
      reads this
    {
      cfg.Valid() && TablesOk() && PacketsOk() && FaultsOk() && Armed() && |started| == cfg.dataCount
        && |misses| == cfg.controllerCount && |pending| <= Limit(cfg)
    }

    /** No pair, restoration record or packet is left. */
    ghost predicate Empty()
      reads this`pairs, this`retained, this`inverses, this`pending, this`received, this`quarantined
    {
      && (forall s :: 0 <= s < |pairs| ==>
                pairs[s].state == Absent && pairs[s].leg0 == NO_LEG && pairs[s].leg1 == NO_LEG)
      && retained == map[] && inverses == map[] && pending == [] && received == [] && quarantined.None?
    }

    /** What holds between calls. */
    ghost predicate Valid()
      reads this
    {
      && Core()
      && (received != [] ==> quarantined.Some? || terminal.Some?)
      && (active ==> pool) && (pool ==> ealReady) && (!pool ==> Empty()) && (ealReady && !pool ==> faulted)
      && nulls <= Limit(cfg) && (terminal.None? ==> nulls == 0)
    }

    constructor (cfg: Config, instance: nat)
      requires cfg.Valid()
      ensures Valid() && this.cfg == cfg && this.instance == instance
      ensures !active && !quiescing && !faulted && terminal.None? && !ealReady && Empty() && named == map[]
              && sent == []
    {
      this.cfg, this.instance := cfg, instance;
      pairs, retained, inverses := seq(cfg.pairCapacity, _ => Blank(0)), map[], map[];
      pending, received, quarantined, nextRx := [], [], None, 0;
      stats := Stats(0, 0, 0, 0);
      started, misses := seq(cfg.dataCount, _ => false), seq(cfg.controllerCount, _ => false);
      terminal, ealReady, pool, active, quiescing, faulted, nextFlow := None, false, false, false, false, false, 0;
      specs, named, destroyed, trails, sent, nulls := map[], map[], {}, [], [], 0;
      ledger, bursts := Ledger(multiset{}, multiset{}), [];
      new;
      hide TableInv, PendingOk, SentOk, Accounted, FlowsSound, NamesSound, FaultsKnown, Sound;
      NothingAccounted();
      NewTable(cfg, T(), B());
    }

    // The packet path.

    ghost function Now(): Moment
      reads this`pairs, this`quiescing, this`faulted
    {
      Moment(pairs, quiescing, faulted)
    }

    /**
      Retires every prepared packet whose pair no longer forwards. The source's
      restoration failure cannot happen.
    */
    method RestorePending()
      requires PacketsOk()
      modifies this`pending
      ensures PacketsOk() && IsRetired(Now(), old(pending), pending) && Settled(Now(), pending)
      ensures |pending| == |old(pending)|
    {
      hide PendingOk, RestoreForwarded, AllSentOk, Tracked;
      for index := 0 to |pending|
        invariant PacketsOk() && |pending| == |old(pending)|
        invariant IsRetired(Now(), old(pending)[..index], pending[..index]) && Settled(Now(), pending[..index])
        invariant pending[index..] == old(pending)[index..]
      {
        var entry := pending[index];
        if entry.prepared.Some? && !(IsInstalled(pairs, entry.prepared.value.pair) && !quiescing && !faulted) {
          var prepared := entry.prepared.value;
          RetiredOk(cfg, named, entry, trails[index]);
          var restored := RestoreForwarded(entry.packet.bytes, prepared.view, prepared.direction);
          if !entry.packet.Readable() || restored.Err? {
            assert false;
          }
          pending := pending[index := Pending(entry.packet.(bytes := restored.value), prepared.returnPort, true, None)];
        }
      }
    }

    /** TX took the first entry of the queue. */
    method TakeFront()
      requires PacketsOk() && pending != [] && (pending[0].prepared.Some? ==> Forwards(Now(), pending[0]))
      modifies this`pending, this`stats, this`trails, this`sent
      ensures PacketsOk() && stats.received == old(stats.received)
      ensures pending == old(pending)[1..] && trails == old(trails)[1..]
      ensures sent == old(sent) + [old(Transmission(Now(), pending[0], trails[0]))]
    {
      hide Decode, Restore, Forward, Eligible, Inverts, Count, Accounted;
      var front := pending[0];
      assert PendingOk(cfg, named, front, trails[0]);
      CountNext(sent, Transmission(Now(), front, trails[0]), true);
      CountNext(sent, Transmission(Now(), front, trails[0]), false);
      AccountSent(ledger, sent, Transmission(Now(), front, trails[0]), trails, received, quarantined);
      sent := sent + [Transmission(Now(), front, trails[0])];
      pending, trails := pending[1..], trails[1..];
      if front.kernel {
        stats := stats.(returned := stats.returned + 1);
      } else {
        stats := stats.(forwarded := stats.forwarded + 1);
      }
    }

    /** TX took the next `count` entries of a queue: they leave in order, as they stand. */
    method TakeBurst(count: nat, ghost queue: seq<Pending>, ghost trail: seq<Trail>, ghost before: seq<Sent>,
                     ghost taken: nat)
      requires PacketsOk() && taken + count <= |queue| == |trail| && Settled(Now(), queue)
      requires pending == queue[taken..] && trails == trail[taken..] && sent == before + Log(Now(), queue, trail, taken)
      modifies this`pending, this`stats, this`trails, this`sent
      ensures PacketsOk() && stats.received == old(stats.received)
      ensures pending == queue[taken + count..] && trails == trail[taken + count..]
      ensures sent == before + Log(Now(), queue, trail, taken + count)
    {
      hide PacketsOk, Transmission;
      for n := 0 to count
        invariant PacketsOk() && stats.received == old(stats.received)
        invariant pending == queue[taken + n..] && trails == trail[taken + n..]
        invariant sent == before + Log(Now(), queue, trail, taken + n)
      {
        assert pending[0] == queue[taken + n];
        TakeFront();
        assert pending == queue[taken + n + 1..] && trails == trail[taken + n + 1..];
      }
    }

    /** How many leading entries leave through one port in one burst. */
    method BurstLength() returns (count: nat)
      requires pending != []
      ensures IsBurst(pending, count)
    {
      count := 1;
      while count < |pending| && count < BURST && pending[count].port == pending[0].port
        invariant 0 < count <= |pending| && count <= BURST
        invariant forall i :: 0 <= i < count ==> pending[i].port == pending[0].port
      {
        count := count + 1;
      }
    }

    /** One TX burst: the SDK takes a prefix of it, and reporting more than was offered is a terminal fault. */
    method SendBurst(ghost queue: seq<Pending>, ghost trail: seq<Trail>, ghost before: seq<Sent>, ghost taken: nat)
      returns (o: Outcome, full: bool, ghost taken': nat, ghost reported: nat, ghost burst: nat)
      requires PacketsOk() && taken < |queue| == |trail| && Settled(Now(), queue)
      requires pending == queue[taken..] && trails == trail[taken..] && sent == before + Log(Now(), queue, trail, taken)
      modifies this`pending, this`stats, this`trails, this`sent, this`faulted, this`terminal, this`bursts
      ensures PacketsOk() && stats.received == old(stats.received)
      ensures IsBurst(old(pending), burst) && taken' == taken + Min(reported, burst) <= |queue|
      ensures pending == queue[taken'..] && trails == trail[taken'..]
      ensures sent == before + Log(old(Now()), queue, trail, taken')
      ensures bursts == old(bursts) + [Tx(old(pending)[0].port, burst, reported)] && (full <==> reported == burst)
      ensures o == if reported > burst then Failed(EIO) else Done
      ensures if o.Done? then faulted == old(faulted) && terminal == old(terminal) else faulted && terminal == Some(EIO)
    {
      hide PacketsOk, Log, Settled;
      var count := BurstLength();
      var accepted: nat :| 0 <= accepted;
      bursts := bursts + [Tx(pending[0].port, count, accepted)];
      TakeBurst(Min(accepted, count), queue, trail, before, taken);
      o, full, taken', reported, burst := Done, accepted == count, taken + Min(accepted, count), accepted, count;
      if accepted > count {
        faulted, terminal, o := true, Some(EIO), Failed(EIO);
      }
    }

    /**
      Offers the queue to TX burst by burst until one is not taken whole; the
      first `taken` entries leave, in order. TX reports any count, and one above
      the burst is a terminal fault.
    */
    method OfferAll(ghost queue: seq<Pending>, ghost trail: seq<Trail>, ghost before: seq<Sent>)
      returns (o: Outcome, ghost taken: nat, ghost offers: seq<Burst>)
      requires PacketsOk() && Settled(Now(), queue) && |queue| == |trail|
      requires pending == queue && trails == trail && sent == before
      modifies this`pending, this`stats, this`trails, this`sent, this`faulted, this`terminal, this`bursts
      ensures PacketsOk() && stats.received == old(stats.received) && taken <= |queue|
      ensures pending == queue[taken..] && trails == trail[taken..]
      ensures sent == before + Log(old(Now()), queue, trail, taken)
      ensures o.Done? ==> faulted == old(faulted) && terminal == old(terminal)
      ensures o.Failed? ==> o.fault == EIO && faulted && terminal == Some(EIO)
      ensures bursts == old(bursts) + offers && Offers(queue, offers, taken)
      ensures o.Done? && pending != [] ==> offers != [] && !IsFull(offers[|offers| - 1])
    {
      hide PacketsOk, Settled, Log, Offers;
      ghost var now := Now();
      OffersNothing(queue);
      LogStarts(now, queue, trail, before);
      taken, offers := 0, [];
      var full := true;
      o := Done;
      while o.Done? && full && pending != []
        invariant PacketsOk() && taken <= |queue| && stats.received == old(stats.received)
        invariant pending == queue[taken..] && trails == trail[taken..]
        invariant sent == before + Log(now, queue, trail, taken)
        invariant bursts == old(bursts) + offers && Offers(queue, offers, taken)
        invariant o.Done? && full ==> forall i :: 0 <= i < |offers| ==> IsFull(offers[i])
        invariant o.Done? && !full ==> offers != [] && !IsFull(offers[|offers| - 1])
        invariant o.Done? ==> Now() == now && terminal == old(terminal)
        invariant o.Failed? ==> o.fault == EIO && faulted && terminal == Some(EIO)
        decreases o.Done?, |queue| - taken, full
      {
        ghost var reported, burst, at := 0, 0, taken;
        o, full, taken, reported, burst := SendBurst(queue, trail, before, taken);
        ghost var call := Tx(queue[at].port, burst, reported);
        OffersMore(queue, offers, at, call, taken);
        offers := offers + [call];
      }
    }

    /**
      Sends what TX accepts, after retiring every packet that may not be
      forwarded any more: the first `taken` entries of the retired queue leave,
      in order.
    */
    method FlushPending() returns (o: Outcome, ghost queue: seq<Pending>, ghost taken: nat, ghost offers: seq<Burst>)
      requires PacketsOk()
      modifies this`pending, this`stats, this`trails, this`sent, this`faulted, this`terminal, this`bursts
      ensures PacketsOk() && taken <= |queue| == |old(trails)| && stats.received == old(stats.received)
      ensures |pending| <= |old(pending)| && Armed()
      ensures IsRetired(old(Now()), old(pending), queue)
      ensures pending == queue[taken..] && trails == old(trails)[taken..]
      ensures sent == old(sent) + Log(old(Now()), queue, old(trails), taken)
      ensures o.Done? ==> faulted == old(faulted) && terminal == old(terminal)
      ensures o.Failed? ==> o.fault == EIO && faulted && terminal == Some(EIO)
      ensures bursts == old(bursts) + offers && Offers(queue, offers, taken)
      ensures o.Done? && pending != [] ==> offers != [] && !IsFull(offers[|offers| - 1])
    {
      hide PacketsOk, IsRetired, Settled, Log, Offers;
      RestorePending();
      queue := pending;
      SettledArmed(Now(), queue);
      SameLengths();
      o, taken, offers := OfferAll(queue, trails, sent);
    }

    lemma SameLengths()
      requires PacketsOk()
      ensures |trails| == |pending|
    {
    }

    // Finding the leg a received packet belongs to.

    /** The pair a handle's slot and generation name, if it still resolves. */
    function Resolve(id: PairId): (r: Option<Pair>)
      reads this`pairs, this`retained
    {
      if id.slot >= |pairs| || id.generation == 0 then None
      else if pairs[id.slot].generation == id.generation then Some(pairs[id.slot])
      else if id in retained then Some(retained[id]) else None
    }

    /** What a handle resolves to is the connection it was issued for; a live pair always resolves. */
    lemma ResolveNames(id: PairId)
      requires TablesOk()
      ensures Resolve(id).Some? ==> id in named && named[id] == Resolve(id).value.spec
      ensures id in specs ==>
                Live(T(), id) && Resolve(id) == Some(LivePair(T(), id)) && Resolve(id).value.spec == specs[id]
    {
      if id in specs {
        assert Live(T(), id);
        if !IsPrimary(T(), id) {
          RetainedNamed(cfg, T(), specs, id);
        } else {
          PrimaryNamed(cfg, T(), specs, id.slot);
        }
      }
    }

    /** A live leg that a packet's addresses, and its ports if it has them, belong to. */
    ghost predicate Matches(origin: nat, view: View, id: PairId, i: nat)
      reads this`specs
    {
      && LiveLeg(specs, id, i) && specs[id].At(i).originId == origin
      && if view.ports then specs[id].At(i).translated == view.tuple
         else view.fragment && SameAddresses(specs[id].At(i).translated, view.tuple)
    }

    /** Whichever matching leg a scan picks, a port-less fragment is restored to the same octets. */
    lemma MatchesRestoreAlike(origin: nat, frame: Bytes, a: PairId, i: nat, b: PairId, j: nat)
      requires TablesOk() && cfg.Valid() && Decode(frame).Ok? && !Decode(frame).value.ports
      requires Matches(origin, Decode(frame).value, a, i) && Matches(origin, Decode(frame).value, b, j)
      ensures Restore(frame, Decode(frame).value, specs[a].At(i)) == Restore(frame, Decode(frame).value, specs[b].At(j))
    {
      hide Decode, Restore, FlowsSound, NamesSound, SpecsCollide, SameAddresses;
      FragmentResultUnique(cfg, specs, frame, origin, a, i, b, j);
    }

    /** The first recorded leg of a pair that matches a port-less packet. */
    method ScanPair(pair: Pair, origin: nat, tuple: Tuple) returns (r: Option<nat>)
      ensures r.Some? ==> r.value < 2 && pair.LegAt(r.value).inverse && pair.spec.At(r.value).originId == origin
                          && SameAddresses(pair.spec.At(r.value).translated, tuple)
      ensures r.None? ==> forall i :: 0 <= i < 2 && pair.LegAt(i).inverse && pair.spec.At(i).originId == origin ==>
                            !SameAddresses(pair.spec.At(i).translated, tuple)
    {
      for index := 0 to 2
        invariant forall i :: 0 <= i < index && pair.LegAt(i).inverse && pair.spec.At(i).originId == origin ==>
                    !SameAddresses(pair.spec.At(i).translated, tuple)
      {
        var d := pair.spec.At(index);
        if pair.LegAt(index).inverse && d.originId == origin && SameAddresses(d.translated, tuple) {
          return Some(index);
        }
      }
      r := None;
    }

    ghost predicate IsFound(leg: PacketLeg, origin: nat, view: View, id: PairId, i: nat)
      reads this`pairs, this`retained, this`inverses, this`specs
    {
      && Matches(origin, view, id, i) && Live(T(), id)
      && var pair := LivePair(T(), id);
      && leg.direction == specs[id].At(i) && leg.installed == (pair.state == Installed)
      && leg.pair == (if view.ports then Some(id) else None)
      && leg.guard == (if pair.guards.None? then None
                       else Some(if i == 0 then pair.guards.value.0 else pair.guards.value.1))
    }

    /** The scan for a port-less fragment: primaries in order, then retained pairs in any order. */
    method ScanFragment(origin: nat, view: View) returns (r: Option<PacketLeg>, ghost id: PairId, ghost i: nat)
      requires TablesOk() && !view.ports && view.fragment
      ensures r.Some? ==> IsFound(r.value, origin, view, id, i)
      ensures r.None? ==> forall id, i :: !Matches(origin, view, id, i)
    {
      hide TableInv, FlowsSound, NamesSound, SameAddresses;
      id, i := PairId(0, 0), 0;
      for slot := 0 to |pairs|
        invariant forall s, i :: 0 <= s < slot && pairs[s].state != Absent ==> !Matches(origin, view, IdOf(pairs, s), i)
      {
        if pairs[slot].state != Absent {
          PrimaryNamed(cfg, T(), specs, slot);
          var index := ScanPair(pairs[slot], origin, view.tuple);
          if index.Some? {
            return Some(PacketLeg(pairs[slot].spec.At(index.value), GuardAt(pairs[slot], index.value), None,
                                  pairs[slot].state == Installed)), IdOf(pairs, slot), index.value;
          }
        }
      }
      var left := retained.Keys;
      while left != {}
        invariant left <= retained.Keys
        invariant forall id, i :: id in retained && id !in left ==> !Matches(origin, view, id, i)
      {
        var next :| next in left;
        RetainedNamed(cfg, T(), specs, next);
        var index := ScanPair(retained[next], origin, view.tuple);
        if index.Some? {
          return Some(PacketLeg(retained[next].spec.At(index.value), GuardAt(retained[next], index.value), None,
                                retained[next].state == Installed)), next, index.value;
        }
        left := left - {next};
      }
      forall id, i ensures !Matches(origin, view, id, i) {
        if id in specs {
          NamedLive(cfg, T(), specs, id);
          if IsPrimary(T(), id) {
            assert IdOf(pairs, id.slot) == id;
          }
        }
      }
      r := None;
    }

    /**
      The leg a packet belongs to: by its exact key when it has ports, by
      addresses when it is a fragment without them. A miss means no live leg
      matches, and an indexed handle always resolves.
    */
    method FindLeg(origin: nat, view: View) returns (r: Option<PacketLeg>, ghost id: PairId, ghost i: nat)
      requires TablesOk()
      ensures r.Some? ==> IsFound(r.value, origin, view, id, i)
      ensures r.None? ==> forall id, i :: !Matches(origin, view, id, i)
    {
      hide FlowsSound, NamesSound, NoCollisions, SpecValid;
      if !view.ports {
        if !view.fragment {
          return None, PairId(0, 0), 0;
        }
        r, id, i := ScanFragment(origin, view);
        return;
      }
      var key := Key(origin, view.tuple);
      if key !in inverses {
        return None, PairId(0, 0), 0;
      }
      var leg := inverses[key];
      id, i := PairId(leg.slot, leg.generation), leg.direction;
      assert IsLeg(specs, key, leg);
      ResolveNames(id);
      var pair := Resolve(PairId(leg.slot, leg.generation));
      if pair.None? {
        assert false;
      }
      r := Some(PacketLeg(pair.value.spec.At(leg.direction), GuardAt(pair.value, leg.direction),
                          Some(PairId(leg.slot, leg.generation)), pair.value.state == Installed));
    }

    // Processing received packets.

    /** Keeps the front packet, untouched, for recovery and stops admissions. */
    method Quarantine(fault: Fault) returns (o: Outcome)
      requires PacketsOk()
      modifies this`received, this`quarantined, this`faulted
      ensures PacketsOk() && faulted && o == Failed(fault)
      ensures if old(quarantined).None? && old(received) != []
              then quarantined == Some(old(received)[0]) && received == old(received)[1..]
              else quarantined == old(quarantined) && received == old(received)
    {
      hide QueueOk, SentOk, Accounted;
      if quarantined.None? && received != [] {
        AccountFront(ledger, sent, trails, received, quarantined);
        quarantined, received := Some(received[0]), received[1..];
      }
      faulted := true;
      o := Failed(fault);
    }

    /** Frees a group frame. */
    method DiscardFront()
      requires PacketsOk() && received != [] && received[0].packet.IsGroup()
      modifies this`received, this`stats, this`ledger
      ensures PacketsOk() && received == old(received)[1..]
      ensures stats == old(stats).(discarded := old(stats).discarded + 1)
      ensures ledger == old(ledger).(dropped := old(ledger).dropped + multiset{Held(old(received)[0])})
    {
      hide QueueOk, SentOk, Accounted;
      AccountFront(ledger, sent, trails, received, quarantined);
      ledger := ledger.(dropped := ledger.dropped + multiset{Held(received[0])});
      received, stats := received[1..], stats.(discarded := stats.discarded + 1);
    }

    /** Linearizes and decodes the front packet; its octets do not change. */
    method ReadFront() returns (r: Option<View>, fault: Fault)
      requires PacketsOk() && received != []
      modifies this`received
      ensures PacketsOk() && |received| == |old(received)| && received[1..] == old(received)[1..]
      ensures received[0].origin == old(received)[0].origin
      ensures received[0].packet == old(received)[0].packet.(contiguous := received[0].packet.contiguous)
      ensures r.Some? ==> received[0].packet.Readable() && Decode(received[0].packet.bytes) == Ok(r.value)
      ensures r.None? ==> var packet := received[0].packet;
                          !packet.linearizable || !packet.bounded || Decode(packet.bytes).Err?
    {
      hide QueueOk, SentOk, Decode, Accounted;
      var front := received[0];
      if !front.packet.linearizable {
        var shared: bool := *;
        return None, if shared then ENOTSUP else ENOBUFS;
      }
      AccountSame(ledger, sent, trails, received, front.(packet := front.packet.(contiguous := true)), quarantined);
      received := received[0 := front.(packet := front.packet.(contiguous := true))];
      if !front.packet.bounded {
        return None, EPACKET(EBADMSG);
      }
      var decoded := Decode(front.packet.bytes);
      match decoded
      case Ok(view) => r, fault := Some(view), ESDK;
      case Err(code) => r, fault := None, EPACKET(code);
    }

    /** Moves the front packet, edited, to the pending queue. */
    method Enqueue(entry: Pending, ghost trail: Trail)
      requires PacketsOk() && received != [] && PendingOk(cfg, named, entry, trail) && Came(trail) == Held(received[0])
      modifies this`received, this`pending, this`trails
      ensures PacketsOk() && received == old(received)[1..]
      ensures pending == old(pending) + [entry] && trails == old(trails) + [trail]
    {
      hide PendingOk, SentOk, Accounted;
      AccountQueued(ledger, sent, trails, trail, received, quarantined);
      received, pending, trails := received[1..], pending + [entry], trails + [trail];
    }

    /** A found leg whose MACs the packet carries inverts it. */
    lemma FoundInverts(leg: PacketLeg, origin: nat, frame: Bytes, id: PairId, i: nat)
      requires TablesOk() && Decode(frame).Ok? && IsFound(leg, origin, Decode(frame).value, id, i)
      requires Decode(frame).value.sourceMac == leg.direction.originalSourceMac
      requires Decode(frame).value.destinationMac == leg.direction.originalDestinationMac
      ensures TrailOk(cfg, Trail(origin, frame, leg.direction))
    {
      hide Decode, FlowsSound, NamesSound, NoCollisions, IndexAgrees, TableShape, Names, SelfCollides, CheckDirection;
      assert SpecValid(cfg, specs[id]);
    }

    lemma FoundInstalled(leg: PacketLeg, origin: nat, view: View, id: PairId, i: nat)
      requires TablesOk() && IsFound(leg, origin, view, id, i) && leg.installed
      ensures IsInstalled(pairs, id)
    {
      if !IsPrimary(T(), id) {
        RetainedNamed(cfg, T(), specs, id);
      }
    }

    lemma FoundLeg(leg: PacketLeg, origin: nat, view: View, id: PairId, i: nat)
      requires TablesOk() && IsFound(leg, origin, view, id, i)
      ensures IsLegOf(named, id, leg.direction)
    {
      ResolveNames(id);
    }

    /** Everything that must hold for the worker to forward a packet itself, but its output link. */
    predicate MayForward(frame: Bytes, view: View, leg: PacketLeg)
      reads this`quiescing, this`faulted
    {
      && !quiescing && !faulted && leg.installed
      && (leg.guard.Some? ==> GuardMatches(view, leg.guard.value))
      && Eligible(frame, view, leg.direction.outputMtu)
    }

    /** Whether the packet goes to the kernel; link states are asked for once per poll. */
    method ChooseKernel(frame: Bytes, view: View, leg: PacketLeg, links: map<nat, bool>)
      returns (kernel: bool, links': map<nat, bool>)
      ensures var egress := leg.direction.egressDataId;
              kernel <==> !(MayForward(frame, view, leg) && egress in links' && links'[egress])
      ensures Kept(links, links')
    {
      kernel, links' := quiescing || faulted || !leg.installed, links;
      if leg.guard.Some? && !GuardMatches(view, leg.guard.value) {
        kernel := true;
      }
      if !kernel {
        kernel := !Eligible(frame, view, leg.direction.outputMtu);
      }
      if !kernel {
        var egress := leg.direction.egressDataId;
        if egress !in links' {
          var up: bool := *;
          links' := links'[egress := up];
        }
        kernel := !links'[egress];
      }
    }

    /**
      Edits the front packet for its leg and queues it. The source's capacity,
      stale-handle and edit failures cannot happen.
    */
    method Dispatch(view: View, leg: PacketLeg, kernel: bool, ghost trail: Trail, ghost id: PairId, ghost i: nat)
      requires TablesOk() && PacketsOk() && Armed() && |pending| < Limit(cfg)
      requires received != [] && received[0].packet.Readable() && IsFound(leg, received[0].origin, view, id, i)
      requires trail == Trail(received[0].origin, received[0].packet.bytes, leg.direction) && TrailOk(cfg, trail)
      requires Decode(trail.arrival) == Ok(view)
      requires !kernel ==> MayForward(trail.arrival, view, leg)
      modifies this`received, this`pending, this`trails
      ensures PacketsOk() && Armed() && received == old(received)[1..]
      ensures |pending| == |old(pending)| + 1 && old(pending) <= pending && trails == old(trails) + [trail]
      ensures var entry := pending[|pending| - 1];
              entry.kernel == kernel && (!kernel ==> entry.prepared.Some? && entry.prepared.value.pair == id)
    {
      hide Decode, Restore, Forward, Eligible, Inverts, SentOk, QueueOk, TablesOk, Matches;
      var front := received[0];
      RestoreSucceeds(cfg, trail);
      if !kernel {
        PortsNeeded(trail.arrival, view, leg.direction.outputMtu);
        ForwardSucceeds(cfg, trail);
        FoundInstalled(leg, front.origin, view, id, i);
        FoundLeg(leg, front.origin, view, id, i);
      }
      if |pending| >= Limit(cfg) || (!kernel && leg.pair.None?) {
        assert false;
      }
      var returnPort := ReturnPort(cfg, front.origin);
      var edited := if kernel then Restore(front.packet.bytes, view, leg.direction)
                    else Forward(front.packet.bytes, view, leg.direction);
      if edited.Err? {
        assert false;
      }
      var entry := Pending(front.packet.(bytes := edited.value),
                           if kernel then returnPort else leg.direction.egressDataId, kernel,
                           if kernel then None else Some(Prepared(leg.pair.value, view, leg.direction, returnPort)));
      assert PendingOk(cfg, named, entry, trail);
      Enqueue(entry, trail);
      ArmedGrows(pairs, old(pending), pending);
    }

    /** The last queued entry is what the found leg makes of a frame received on an origin. */
    ghost predicate Dispatched(front: Received, leg: PacketLeg, id: PairId, i: nat, links: map<nat, bool>)
      reads this`pairs, this`retained, this`inverses, this`specs, this`pending, this`trails, this`quiescing,
        this`faulted
    {
      && pending != [] && trails != [] && Decode(front.packet.bytes).Ok?
      && var view, frame, entry := Decode(front.packet.bytes).value, front.packet.bytes, pending[|pending| - 1];
      && IsFound(leg, front.origin, view, id, i)
      && trails[|trails| - 1] == Trail(front.origin, frame, leg.direction)
      && var egress := leg.direction.egressDataId;
      && entry.kernel == !(MayForward(frame, view, leg) && egress in links && links[egress])
      && (!entry.kernel ==> entry.prepared.Some? && entry.prepared.value.pair == id)
    }

    /** The frame has no verified inverse: it cannot be read, or no live leg matches it with these MACs. */
    ghost predicate Unverified(front: Received, leg: Option<PacketLeg>, id: PairId, i: nat)
      reads this`pairs, this`retained, this`inverses, this`specs
    {
      var frame := front.packet.bytes;
      || !front.packet.linearizable || !front.packet.bounded || Decode(frame).Err?
      || (leg.None? && forall id, i :: !Matches(front.origin, Decode(frame).value, id, i))
      || (&& leg.Some? && IsFound(leg.value, front.origin, Decode(frame).value, id, i)
          && (|| Decode(frame).value.sourceMac != leg.value.direction.originalSourceMac
              || Decode(frame).value.destinationMac != leg.value.direction.originalDestinationMac))
    }

    /** What becomes of a front packet that was not discarded. */
    twostate predicate Handled(new o: Outcome, new front: Received, new leg: Option<PacketLeg>, new id: PairId, i: nat,
                               new links: map<nat, bool>)
      reads this
    {
      if o.Done? then
        && |pending| == |old(pending)| + 1 && quarantined.None? && faulted == old(faulted)
        && leg.Some? && Dispatched(front, leg.value, id, i, links)
      else
        && pending == old(pending) && faulted && Unverified(front, leg, id, i)
        && quarantined.Some? && quarantined.value.origin == front.origin
        && quarantined.value.packet.bytes == front.packet.bytes
    }

    /** Routes a decoded front packet by the leg it belongs to. */
    method RouteFront(view: View, links: map<nat, bool>)
      returns (o: Outcome, links': map<nat, bool>, ghost leg: Option<PacketLeg>, ghost id: PairId, ghost i: nat)
      requires TablesOk() && PacketsOk() && Armed() && quarantined.None? && |pending| < Limit(cfg)
      requires received != [] && received[0].packet.Readable() && Decode(received[0].packet.bytes) == Ok(view)
      modifies this`received, this`pending, this`trails, this`quarantined, this`faulted
      ensures PacketsOk() && Armed() && received == old(received)[1..]
      ensures old(pending) <= pending && OneMore(old(trails), trails, old(received)[0].origin)
      ensures Handled(o, old(received)[0], leg, id, i, links')
    {
      hide TablesOk, PacketsOk, Decode, Eligible, Matches, IsFound, MayForward;
      var origin := received[0].origin;
      var found;
      found, id, i := FindLeg(origin, view);
      leg, links' := found, links;
      if || found.None?
         || view.sourceMac != found.value.direction.originalSourceMac
         || view.destinationMac != found.value.direction.originalDestinationMac {
        o := Quarantine(ENOENT);
        return;
      }
      FoundInverts(found.value, origin, received[0].packet.bytes, id, i);
      var kernel;
      kernel, links' := ChooseKernel(received[0].packet.bytes, view, found.value, links);
      Dispatch(view, found.value, kernel, Trail(origin, received[0].packet.bytes, found.value.direction), id, i);
      o := Done;
    }

    /**
      Handles the front packet: a group frame is discarded, one without a
      verified inverse is quarantined with its octets unchanged, and any other
      joins the pending queue, forwarded exactly when everything allows it.
    */
    method ProcessFront(links: map<nat, bool>)
      returns (o: Outcome, links': map<nat, bool>, ghost leg: Option<PacketLeg>, ghost id: PairId, ghost i: nat)
      requires TablesOk() && PacketsOk() && Armed() && quarantined.None?
      requires received != [] && |pending| + |received| <= Limit(cfg)
      modifies this`received, this`pending, this`trails, this`stats, this`quarantined, this`faulted, this`ledger
      ensures PacketsOk() && Armed() && received == old(received)[1..] && stats.received == old(stats.received)
      ensures old(pending) <= pending && |pending| <= |old(pending)| + 1
      ensures OneMore(old(trails), trails, old(received)[0].origin)
      ensures ledger == if !old(received)[0].packet.IsGroup() then old(ledger) else
                old(ledger).(dropped := old(ledger).dropped + multiset{Held(old(received)[0])})
      ensures var front := old(received)[0];
              if front.packet.IsGroup() then
                o.Done? && pending == old(pending) && quarantined.None? && faulted == old(faulted)
              else
                Handled(o, front, leg, id, i, links')
    {
      hide TablesOk, PacketsOk, Armed, Decode, Matches, IsFound, MayForward;
      links', leg, id, i := links, None, PairId(0, 0), 0;
      if received[0].packet.IsGroup() {
        DiscardFront();
        o := Done;
        return;
      }
      var view, fault := ReadFront();
      if view.None? {
        o := Quarantine(fault);
        return;
      }
      o, links', leg, id, i := RouteFront(view.value, links);
    }

    /** Handles every received packet, stopping at the first that is quarantined. */
    method ProcessReceived(links: map<nat, bool>, ghost origin: nat) returns (o: Outcome, links': map<nat, bool>)
      requires TablesOk() && PacketsOk() && FaultsOk() && Armed() && quarantined.None?
      requires |pending| + |received| <= Limit(cfg) && AllFrom(trails, origin)
      requires forall i :: 0 <= i < |received| ==> received[i].origin == origin
      modifies this`received, this`pending, this`trails, this`stats, this`quarantined, this`faulted, this`ledger
      ensures PacketsOk() && FaultsOk() && Armed() && |pending| <= Limit(cfg) && stats.received == old(stats.received)
      ensures o.Done? ==> received == [] && quarantined.None? && faulted == old(faulted)
      ensures o.Failed? ==> quarantined.Some?
      ensures AllFrom(trails, origin) && Grows(old(ledger), ledger) && ledger.arrived == old(ledger).arrived
    {
      hide TablesOk, PacketsOk, Armed, Limit, Dispatched, Unverified;
      o, links' := Done, links;
      while o.Done? && received != []
        invariant PacketsOk() && FaultsOk() && Armed() && stats.received == old(stats.received)
        invariant |pending| + |received| <= Limit(cfg) && AllFrom(trails, origin)
        invariant Grows(old(ledger), ledger) && ledger.arrived == old(ledger).arrived
        invariant forall i :: 0 <= i < |received| ==> received[i].origin == origin
        invariant o.Done? ==> quarantined.None? && faulted == old(faulted)
        invariant o.Failed? ==> quarantined.Some?
        decreases |received|
      {
        ghost var leg, id, i;
        o, links', leg, id, i := ProcessFront(links');
      }
    }

    /** Counts a burst before its entries are looked at. */
    method CountBurst(count: nat)
      requires PacketsOk()
      modifies this`stats, this`nulls
      ensures PacketsOk() && nulls == old(nulls) + count
      ensures stats == old(stats).(received := old(stats).received + count)
    {
      hide QueueOk, AllSentOk, Accounted;
      stats := stats.(received := stats.received + count);
      nulls := nulls + count;
    }

    /** Records one received packet. */
    method Hold(r: Received)
      requires PacketsOk() && nulls > 0 && r.origin < |cfg.origins|
      modifies this`received, this`nulls, this`ledger
      ensures PacketsOk() && received == old(received) + [r] && nulls == old(nulls) - 1
      ensures ledger == old(ledger).(arrived := old(ledger).arrived + multiset{Held(r)})
    {
      hide QueueOk, AllSentOk, Accounted, Held, Count;
      ghost var arrived := ledger.arrived + multiset{Held(r)};
      AccountReceived(ledger, sent, trails, received, r, quarantined);
      assert |arrived| == |ledger.arrived| + 1;
      received, nulls, ledger := received + [r], nulls - 1, ledger.(arrived := arrived);
    }

    /**
      One RX burst into an empty queue. The SDK may report any count and leave
      any entry null; an excess or a null entry is a terminal fault.
    */
    method ReceiveBurst(origin: nat, budget: nat) returns (o: Outcome, count: nat, ghost reported: nat)
      requires PacketsOk() && received == [] && origin < |cfg.origins|
      modifies this`received, this`stats, this`nulls, this`faulted, this`terminal, this`ledger, this`bursts
      ensures PacketsOk() && stats == old(stats).(received := old(stats).received + count)
      ensures count == Min(reported, Min(budget, Limit(cfg))) && |received| <= count
      ensures o.Done? <==> reported == count == |received|
      ensures forall i :: 0 <= i < |received| ==> received[i].origin == origin && !received[i].packet.contiguous
      ensures nulls == old(nulls) + (count - |received|)
      ensures ledger == old(ledger).(arrived := old(ledger).arrived + OfReceived(received))
      ensures bursts == old(bursts) + [Rx(cfg.origins[origin].data, Min(budget, Limit(cfg)), reported)]
      ensures o.Done? ==> faulted == old(faulted) && terminal == old(terminal)
      ensures o.Failed? ==> o.fault == EIO && faulted && terminal == Some(EIO)
    {
      hide PacketsOk, OfReceived;
      NothingHeld();
      var requested := Min(budget, Limit(cfg));
      var returned: nat :| 0 <= returned;
      reported, count := returned, Min(returned, requested);
      bursts := bursts + [Rx(cfg.origins[origin].data, requested, returned)];
      CountBurst(count);
      var invalid := returned > requested;
      for n := 0 to count
        invariant PacketsOk() && |received| <= n
        invariant forall i :: 0 <= i < |received| ==> received[i].origin == origin && !received[i].packet.contiguous
        invariant nulls + |received| == old(nulls) + count
        invariant ledger == old(ledger).(arrived := old(ledger).arrived + OfReceived(received))
        invariant invalid <==> returned > requested || |received| < n
        modifies this`received, this`nulls, this`ledger
      {
        var entry: Option<Buffer> := *;
        if entry.Some? {
          var packet := Received(origin, entry.value.(contiguous := false));
          OfReceivedNext(received, packet);
          Hold(packet);
        } else {
          invalid := true;
        }
      }
      if invalid {
        faulted, terminal := true, Some(EIO);
        return Failed(EIO), count, reported;
      }
      o := Done;
    }

    /** What a poll leaves behind, whatever the SDK does. */
    twostate predicate Polled(o: Outcome)
      reads this
    {
      && PacketsOk() && FaultsOk() && Armed() && |pending| <= Limit(cfg) && old(sent) <= sent
      && (received != [] ==> quarantined.Some? || terminal.Some?)
      && (old(faulted) ==> faulted) && (old(terminal).Some? ==> terminal.Some?)
      && (o.Done? ==> received == [] && quarantined.None? && faulted == old(faulted) && terminal == old(terminal))
      && (o.Done? || terminal.None? ==> nulls == old(nulls)) && nulls <= old(nulls) + Limit(cfg)
      && (o.Failed? ==> faulted) && Grows(old(ledger), ledger)
    }

    /** Serves one DATA port: receives within the budget, handles the packets and flushes. */
    method ServePort(origin: nat, budget: nat, links: map<nat, bool>)
      returns (o: Outcome, count: nat, links': map<nat, bool>)
      requires TablesOk() && PacketsOk() && FaultsOk() && origin < |cfg.origins|
      requires pending == [] && received == [] && quarantined.None?
      modifies this`received, this`pending, this`trails, this`stats, this`quarantined, this`faulted,
               this`sent, this`terminal, this`nulls, this`ledger, this`bursts
      ensures Polled(o) && count <= budget && stats.received == old(stats).received + count
      ensures SentFrom(sent, |old(sent)|, origin)
      ensures old(bursts) <= bursts && Asked(bursts[|old(bursts)|..]) == [cfg.origins[origin].data]
    {
      hide TablesOk, PacketsOk, Limit, IsRetired, Log, AllFrom, SentFrom, OfReceived, Offers, Asked;
      NoTrails(origin);
      links' := links;
      ghost var reported;
      o, count, reported := ReceiveBurst(origin, budget);
      ghost var asked := [Rx(cfg.origins[origin].data, Min(budget, Limit(cfg)), reported)];
      AskedOnce(old(bursts), asked[0]);
      if o.Failed? {
        return;
      }
      o, links' := ProcessReceived(links', origin);
      if o.Failed? {
        return;
      }
      ghost var now, from, before := Now(), trails, sent;
      ghost var queue, taken, offers;
      o, queue, taken, offers := FlushPending();
      LogFrom(now, queue, from, taken, origin, before);
      AskedThenOffered(old(bursts), asked, queue, offers, taken);
    }

    lemma NoTrails(origin: nat)
      requires PacketsOk() && pending == []
      ensures AllFrom(trails, origin) && SentFrom(sent, |sent|, origin)
    {
    }

    /** One turn: the DATA port whose turn it is is served if it has an origin and is started. */
    method ServeTurn(budget: nat, links: map<nat, bool>, ghost start: nat, ghost visited: nat)
      returns (o: Outcome, count: nat, links': map<nat, bool>, ghost origin: Option<nat>)
      requires cfg.Valid() && TablesOk() && PacketsOk() && FaultsOk() && |started| == cfg.dataCount
      requires pending == [] && received == [] && quarantined.None? && nextRx == start + visited
      modifies this`received, this`pending, this`trails, this`stats, this`quarantined, this`faulted,
               this`sent, this`terminal, this`nulls, this`nextRx, this`ledger, this`bursts
      ensures nextRx == old(nextRx) + 1 && old(bursts) <= bursts && |old(sent)| <= |sent|
      ensures if origin.Some? then
                SentFrom(sent, |old(sent)|, origin.value) && IsTurn(cfg, origin.value, start + visited)
              else sent == old(sent)
      ensures Turns(cfg, started, start, visited + 1)
              == Turns(cfg, started, start, visited) + Asked(bursts[|old(bursts)|..])
      ensures Polled(o) && count <= budget && stats.received == old(stats).received + count
    {
      hide TablesOk, PacketsOk, FaultsOk, Limit, Wrapped, OriginOf, SentFrom, Asked, Turns;
      NothingAsked(cfg, started, bursts, start);
      o, count, links', origin := Done, 0, links, None;
      var data := Wrapped(nextRx, cfg.dataCount);
      nextRx := nextRx + 1;
      var received := OriginOf(cfg.origins, data);
      if received.Some? && started[data] {
        origin := received;
        o, count, links' := ServePort(received.value, budget, links);
      }
      NextPort(cfg, started, start, visited, data, received.Some?);
    }

    /**
      Visits the DATA ports in turn from where the last poll stopped, serving the
      started ones, until one leaves packets pending or the budget is spent.
    */
    method ServePorts(budget: nat) returns (o: Outcome, ghost visits: seq<nat>)
      requires cfg.Valid() && TablesOk() && PacketsOk() && FaultsOk() && |started| == cfg.dataCount
      requires pending == [] && received == [] && quarantined.None?
      modifies this`received, this`pending, this`trails, this`stats, this`quarantined, this`faulted,
               this`sent, this`terminal, this`nulls, this`nextRx, this`ledger, this`bursts
      ensures Polled(o) && stats.received <= old(stats).received + budget
      ensures nextRx <= old(nextRx) + cfg.dataCount
      ensures o.Done? && pending == [] && stats.received < old(stats).received + budget ==>
                nextRx == old(nextRx) + cfg.dataCount
      ensures nextRx >= old(nextRx)
      ensures InTurn(cfg, sent, |old(sent)|, old(nextRx), visits, nextRx - old(nextRx))
      ensures old(bursts) <= bursts
      ensures Asked(bursts[|old(bursts)|..]) == Turns(cfg, started, old(nextRx), nextRx - old(nextRx))
    {
      hide TablesOk, PacketsOk, FaultsOk, Limit, IsTurn, InTurn, SentFrom, Asked, Turns;
      visits := [];
      NothingAsked(cfg, started, bursts, nextRx);
      NothingSent(cfg, sent, nextRx);
      var left: nat, links, visited := budget, map[], 0;
      o := Done;
      while visited < cfg.dataCount && o.Done? && pending == [] && left > 0
        invariant Polled(o) && left <= budget && stats.received == old(stats).received + (budget - left)
        invariant visited <= cfg.dataCount && nextRx == old(nextRx) + visited
        invariant InTurn(cfg, sent, |old(sent)|, old(nextRx), visits, visited)
        invariant old(bursts) <= bursts && Asked(bursts[|old(bursts)|..]) == Turns(cfg, started, old(nextRx), visited)
      {
        var count;
        ghost var before, made, origin := sent, bursts, None;
        o, count, links, origin := ServeTurn(left, links, old(nextRx), visited);
        left := left - count;
        AskedNext(old(bursts), made, bursts);
        if origin.Some? {
          visits := NextTurn(cfg, before, sent, |old(sent)|, old(nextRx), visits, visited, origin.value);
        } else {
          TurnPasses(cfg, sent, |old(sent)|, old(nextRx), visits, visited);
        }
        visited := visited + 1;
      }
    }

    /** What a poll of the ports did, beyond what it leaves behind. */
    twostate predicate PortsPolled(budget: nat, new o: Outcome, new t: PollTrace)
      requires cfg.Valid() && |started| == cfg.dataCount
      reads this
    {
      && nextRx >= old(nextRx) && old(bursts) <= bursts
      && if old(quarantined).Some? then
           o == Failed(EIO) && sent == old(sent) && pending == old(pending) && nextRx == old(nextRx)
         else
           var flushed, made := |old(sent)| + t.taken, old(bursts) + t.offers;
           && IsRetired(old(Now()), old(pending), t.queue) && t.taken <= |t.queue| == |old(trails)|
           && old(sent) + Log(old(Now()), t.queue, old(trails), t.taken) <= sent
           && made <= bursts && Offers(t.queue, t.offers, t.taken)
           && if t.taken < |t.queue| then
                && pending == t.queue[t.taken..] && |sent| == flushed && bursts == made && nextRx == old(nextRx)
                && (o.Done? ==> t.offers != [] && !IsFull(t.offers[|t.offers| - 1]))
              else
                && InTurn(cfg, sent, flushed, old(nextRx), t.visits, nextRx - old(nextRx))
                && Asked(bursts[|made|..]) == Turns(cfg, started, old(nextRx), nextRx - old(nextRx))
                && nextRx <= old(nextRx) + cfg.dataCount
                && (o.Done? && pending == [] && stats.received < old(stats).received + budget ==>
                      nextRx == old(nextRx) + cfg.dataCount)
    }

    /**
      One poll: flush, then serve the DATA ports if nothing is left pending. It
      receives no more than its budget and transmits nothing the invariant does
      not allow. The first flush sends the retired queue in order; after it, RX is
      asked on the started ports in turn, what is sent was received on them in
      turn, and no port is left out unless packets are pending, the budget is
      spent or the poll fails.
    */
    method PollPorts(budget: nat) returns (o: Outcome, ghost t: PollTrace)
      requires cfg.Valid() && TablesOk() && PacketsOk() && FaultsOk() && |started| == cfg.dataCount
      requires Armed() && |pending| <= Limit(cfg) && (received != [] ==> quarantined.Some?)
      modifies this`received, this`pending, this`trails, this`stats, this`quarantined, this`faulted,
               this`sent, this`terminal, this`nulls, this`nextRx, this`ledger, this`bursts
      ensures Polled(o) && stats.received <= old(stats).received + budget
      ensures PortsPolled(budget, o, t)
    {
      hide TablesOk, PacketsOk, Limit, IsRetired, Log, InTurn, Offers, Asked, Turns;
      t := PollTrace([], 0, [], []);
      if quarantined.Some? {
        return Failed(EIO), t;
      }
      ghost var queue, taken, offers;
      o, queue, taken, offers := FlushPending();
      t := PollTrace(queue, taken, offers, []);
      NothingSent(cfg, sent, nextRx);
      NothingAsked(cfg, started, bursts, nextRx);
      if o.Done? && pending == [] {
        ghost var visits;
        o, visits := ServePorts(budget);
        t := t.(visits := visits);
      }
    }

    // The hardware flows of a pair.

    /** The tables are sound but for what one slot's state promises about its legs. */
    ghost predicate LooseAt(s: nat)
      reads this`pairs, this`retained, this`inverses, this`specs, this`named, this`destroyed, this`nextFlow
    {
      LooseSound(cfg, T(), B(), s)
    }

    /** The SDK consumes the handle, whatever it answers; it may be handed over once only. */
    method DestroyFlow(flow: nat) returns (ok: bool)
      requires flow < nextFlow && flow !in destroyed
      modifies this`destroyed
      ensures destroyed == old(destroyed) + {flow}
    {
      destroyed := destroyed + {flow};
      ok := *;
    }

    /** A slot whose pair changes in state and legs only. */
    twostate predicate OnlyLegs(s: nat)
      reads this`pairs
    {
      && s < |pairs| == |old(pairs)| && pairs == old(pairs)[s := pairs[s]]
      && var p, q := old(pairs[s]), pairs[s];
      && q.generation == p.generation && q.spec == p.spec && q.guards == p.guards
      && q.leg0.inverse == p.leg0.inverse && q.leg1.inverse == p.leg1.inverse
    }

    /** Deletes one leg's flow; a failed deletion marks the consumed handle, which is never retried. */
    method DestroyLeg(s: nat, i: nat) returns (o: Outcome)
      requires LooseAt(s) && i < 2
      modifies this`pairs, this`destroyed
      ensures LooseAt(s) && OnlyLegs(s) && pairs[s] == old(pairs[s]).WithLeg(i, pairs[s].LegAt(i))
      ensures o.Done? ==> pairs[s].LegAt(i) == Leg(None, old(pairs[s]).LegAt(i).inverse, false)
      ensures o.Done? && old(pairs[s]).LegAt(i).flow.Some? ==> old(pairs[s]).LegAt(i).flow.value in destroyed
      ensures o.Done? || SdkFault(o)
      ensures old(destroyed) <= destroyed
      ensures var leg := old(pairs[s]).LegAt(i);
              if destroyed == old(destroyed) then pairs[s].LegAt(i) == leg
              else
                && leg.flow.Some? && destroyed == old(destroyed) + {leg.flow.value}
                && pairs[s].LegAt(i) == Leg(None, leg.inverse, o.Failed?)
    {
      hide TableInv, FlowsSound, NamesSound;
      var leg := pairs[s].LegAt(i);
      if leg.deleteFailed {
        return Failed(EIO);
      }
      if leg.flow.None? {
        return Done;
      }
      var unavailable: bool := *;
      if unavailable {
        return Failed(ENODEV);
      }
      ghost var t, b := T(), B();
      LegDestroyed(cfg, t, b, s, i, Leg(None, leg.inverse, false));
      var ok := DestroyFlow(leg.flow.value);
      pairs := pairs[s := pairs[s].WithLeg(i, Leg(None, leg.inverse, !ok))];
      LegDestroyed(cfg, t, b, s, i, Leg(None, leg.inverse, !ok));
      o := if ok then Done else Failed(ESDK);
    }

    /** Deletes both legs' flows; the first failure is reported after both were tried. */
    method DestroyLegs(s: nat) returns (o: Outcome)
      requires LooseAt(s)
      modifies this`pairs, this`destroyed
      ensures LooseAt(s) && OnlyLegs(s) && pairs[s].state == old(pairs[s]).state && old(destroyed) <= destroyed
      ensures o.Done? ==> pairs[s] == Cleaned(old(pairs[s])).(state := pairs[s].state)
      ensures o.Done? ==> HandedOver(old(pairs[s]), destroyed)
      ensures o.Done? || SdkFault(o)
    {
      hide LooseAt;
      o := DestroyLeg(s, 0);
      var second := DestroyLeg(s, 1);
      if o.Done? {
        o := second;
      }
    }

    /** A pair stops forwarding: the packets prepared under it become returns to the kernel. */
    method DrainPair(s: nat)
      requires PacketsOk() && FaultsOk() && LooseAt(s)
      modifies this`pairs, this`pending
      ensures PacketsOk() && FaultsOk() && Armed() && LooseAt(s) && |pending| == |old(pending)|
      ensures pairs == old(pairs)[s := old(pairs[s]).(state := Draining)]
    {
      hide PacketsOk, LooseSound, IsRetired, Settled, ArmedUnder;
      LooseBound(s);
      StateChanged(cfg, T(), B(), s, Draining);
      pairs := pairs[s := pairs[s].(state := Draining)];
      RestorePending();
      SettledArmed(Now(), pending);
    }

    lemma LooseBound(s: nat)
      requires LooseAt(s)
      ensures s < |pairs| && pairs[s].state != Absent
    {
    }

    /** A pair whose cleanup failed keeps its records and stops the owner. */
    method FaultPair(s: nat)
      requires FaultsOk() && Armed() && LooseAt(s) && pairs[s].state == Draining
      modifies this`pairs, this`faulted
      ensures FaultsOk() && Armed() && TablesOk() && faulted
      ensures pairs == old(pairs)[s := old(pairs[s]).(state := Faulted)]
    {
      hide LooseSound, Sound, ArmedUnder;
      LooseBound(s);
      StateChanged(cfg, T(), B(), s, Faulted);
      pairs, faulted := pairs[s := pairs[s].(state := Faulted)], true;
      FaultedSound(cfg, T(), B(), s);
      ArmedElsewhere(old(pairs), pairs, pending, s);
    }

    /**
      Deletes a pair's hardware: it drains first, so every packet prepared under
      it goes back to the kernel, and a failed deletion faults the owner.
    */
    method DeletePair(s: nat) returns (o: Outcome)
      requires s < |pairs| && PacketsOk() && FaultsOk() && Armed()
      requires if pairs[s].state == Absent then TablesOk() else LooseAt(s)
      modifies this`pairs, this`destroyed, this`pending, this`faulted
      ensures TablesOk() && PacketsOk() && FaultsOk() && Armed() && OnlyLegs(s)
      ensures |pending| == |old(pending)| && old(destroyed) <= destroyed
      ensures old(pairs[s]).state == Absent ==> o.Done? && pairs == old(pairs) && pending == old(pending)
      ensures old(pairs[s]).state != Absent && o.Done? ==>
                pairs[s] == Cleaned(old(pairs[s])) && HandedOver(old(pairs[s]), destroyed)
      ensures o.Done? ==> faulted == old(faulted)
      ensures o.Failed? ==> pairs[s].state == Faulted && faulted && SdkFault(o)
    {
      hide PacketsOk, Sound, LooseSound, ArmedUnder;
      if pairs[s].state == Absent {
        return Done;
      }
      DrainPair(s);
      ghost var drained := pairs;
      o := DestroyLegs(s);
      ArmedElsewhere(drained, pairs, pending, s);
      if o.Failed? {
        FaultPair(s);
      } else {
        CleanedSound(cfg, T(), B(), s);
      }
    }

    /** Asks the SDK for a leg's flow; a created flow is a new handle. */
    method CreateFlow(s: nat, i: nat) returns (ok: bool)
      requires LooseAt(s) && i < 2
      modifies this`pairs, this`nextFlow
      ensures LooseAt(s) && old(nextFlow) <= nextFlow
      ensures if ok then pairs == old(pairs)[s := old(pairs[s]).WithLeg(i,
              old(pairs[s]).LegAt(i).(flow := Some(old(nextFlow))))]
              else pairs == old(pairs)
    {
      hide LooseSound;
      LooseBound(s);
      ok := *;
      if ok {
        var leg := pairs[s].LegAt(i).(flow := Some(nextFlow));
        LegCreated(cfg, T(), B(), s, i, leg);
        pairs, nextFlow := pairs[s := pairs[s].WithLeg(i, leg)], nextFlow + 1;
      }
    }

    /** Creates the flows of the requested legs in order, stopping at the first failure. */
    method CreateFlows(s: nat) returns (ok: bool)
      requires LooseAt(s) && pairs[s].Clean() && pairs[s].state == Draining
      modifies this`pairs, this`nextFlow
      ensures LooseAt(s) && old(nextFlow) <= nextFlow && OnlyLegs(s) && pairs[s].state == Draining
      ensures ok ==> pairs[s].HasFlows()
    {
      hide LooseAt;
      LooseBound(s);
      ok := true;
      if pairs[s].spec.Requests(0) {
        ok := CreateFlow(s, 0);
      }
      if ok && pairs[s].spec.Requests(1) {
        ok := CreateFlow(s, 1);
      }
    }

    /** Installs a draining pair's flows, or cleans up what was created. */
    method ActivatePair(s: nat) returns (o: Outcome)
      requires TablesOk() && PacketsOk() && FaultsOk() && Armed() && s < |pairs| && pairs[s].state == Draining
      modifies this`pairs, this`nextFlow, this`destroyed, this`pending, this`faulted
      ensures TablesOk() && PacketsOk() && FaultsOk() && Armed() && OnlyLegs(s)
      ensures |pending| == |old(pending)| && old(destroyed) <= destroyed && old(nextFlow) <= nextFlow
      ensures old(faulted) ==> faulted
      ensures o.Done? ==>
                          pairs[s].state == Installed && pairs[s].HasFlows() && pending == old(pending)
                          && faulted == old(faulted)
      ensures o.Failed? ==>
                if faulted then pairs[s].state == Draining || pairs[s].state == Faulted
                else pairs[s] == old(pairs[s])
      ensures o.Done? || SdkFault(o)
    {
      hide PacketsOk, Sound, LooseSound, ArmedUnder;
      DrainingClean(cfg, T(), B(), s);
      var ok := CreateFlows(s);
      ArmedElsewhere(old(pairs), pairs, pending, s);
      if !ok {
        o := DeletePair(s);
        if o.Done? {
          o := Failed(ESDK);
        }
        return;
      }
      ghost var created := pairs;
      StateChanged(cfg, T(), B(), s, Installed);
      pairs := pairs[s := pairs[s].(state := Installed)];
      InstalledSound(cfg, T(), B(), s);
      ArmedElsewhere(created, pairs, pending, s);
      o := Done;
    }

    // Admission.

    /** A slot that could take a new generation without retaining a pair, or after retaining one. */
    predicate Usable(s: nat, state: PairState)
      requires s < |pairs|
      reads this`pairs
    {
      pairs[s].state == state && pairs[s].generation != MAX_GENERATION
    }

    /** Looks for a collision with a present primary, and for the first slots that could take the pair. */
    method ScanSlots(spec: PairSpec) returns (o: Outcome, free: Option<nat>, draining: Option<nat>)
      ensures o.Failed? ==> o.fault == EEXIST && exists s :: 0 <= s < |pairs| && pairs[s].state != Absent
                                                             && SpecsCollide(cfg, spec, pairs[s].spec)
      ensures o.Done? ==> forall s :: 0 <= s < |pairs| && pairs[s].state != Absent ==>
              !SpecsCollide(cfg, spec, pairs[s].spec)
      ensures o.Done? ==> IsFirst(free, Absent, |pairs|) && IsFirst(draining, Draining, |pairs|)
    {
      hide SpecsCollide;
      free, draining := None, None;
      for slot := 0 to |pairs|
        invariant forall s :: 0 <= s < slot && pairs[s].state != Absent ==> !SpecsCollide(cfg, spec, pairs[s].spec)
        invariant IsFirst(free, Absent, slot) && IsFirst(draining, Draining, slot)
      {
        var pair := pairs[slot];
        if pair.state == Absent {
          if free.None? && pair.generation != MAX_GENERATION {
            free := Some(slot);
          }
          continue;
        }
        if draining.None? && pair.state == Draining && pair.generation != MAX_GENERATION {
          draining := Some(slot);
        }
        if SpecsCollide(cfg, spec, pair.spec) {
          return Failed(EEXIST), free, draining;
        }
      }
      o := Done;
    }

    /** The lowest usable slot in a state among the first `n`, if there is one. */
    ghost predicate IsFirst(found: Option<nat>, state: PairState, n: nat)
      requires n <= |pairs|
      reads this`pairs
    {
      match found
      case None => forall s :: 0 <= s < n ==> !Usable(s, state)
      case Some(s) => s < n && Usable(s, state) && forall r :: 0 <= r < s ==> !Usable(r, state)
    }

    /** Looks for a collision with a retained restoration mapping. */
    method ScanRetained(spec: PairSpec) returns (o: Outcome)
      ensures o.Failed? ==>
                o.fault == EEXIST && exists id :: id in retained && SpecsCollide(cfg, spec, retained[id].spec)
      ensures o.Done? ==> forall id :: id in retained ==> !SpecsCollide(cfg, spec, retained[id].spec)
    {
      hide SpecsCollide;
      var left := retained.Keys;
      while left != {}
        invariant left <= retained.Keys
        invariant forall id :: id in retained && id !in left ==> !SpecsCollide(cfg, spec, retained[id].spec)
      {
        var id :| id in left;
        if SpecsCollide(cfg, spec, retained[id].spec) {
          return Failed(EEXIST);
        }
        left := left - {id};
      }
      o := Done;
    }

    /** A pair collides with a live one exactly when one of the two scans finds it. */
    lemma ScansDecide(spec: PairSpec)
      requires TablesOk()
      ensures Admissible(cfg, spec, specs) <==>
                && (forall s :: 0 <= s < |pairs| && pairs[s].state != Absent ==>
                  !SpecsCollide(cfg, spec, pairs[s].spec))
                && (forall id :: id in retained ==> !SpecsCollide(cfg, spec, retained[id].spec))
    {
      hide SpecsCollide, FlowsSound, NamesSound, IndexInv, TableShape;
      forall s | 0 <= s < |pairs| && pairs[s].state != Absent ensures IdOf(pairs, s) in specs
        && specs[IdOf(pairs, s)] == pairs[s].spec {
        PrimaryNamed(cfg, T(), specs, s);
      }
      forall id | id in retained ensures id in specs && specs[id] == retained[id].spec {
        RetainedNamed(cfg, T(), specs, id);
      }
      forall id | id in specs ensures Live(T(), id) && specs[id] == LivePair(T(), id).spec {
        NamedLive(cfg, T(), specs, id);
      }
    }

    /** The two scans together: the pair may be admitted exactly when it collides with no live one. */
    method CheckCollisions(spec: PairSpec) returns (o: Outcome, free: Option<nat>, draining: Option<nat>)
      requires TablesOk()
      ensures o.Done? <==> Admissible(cfg, spec, specs)
      ensures o.Failed? ==> o.fault == EEXIST
      ensures o.Done? ==> IsFirst(free, Absent, |pairs|) && IsFirst(draining, Draining, |pairs|)
    {
      hide SpecsCollide, TablesOk, Admissible;
      ScansDecide(spec);
      o, free, draining := ScanSlots(spec);
      if o.Done? {
        o := ScanRetained(spec);
      }
    }

    /** Moves a drained pair out of its slot; its records stay resolvable under its handle. */
    method RetainPair(s: nat) returns (o: Outcome)
      requires s < |pairs|
      modifies this`pairs, this`retained
      ensures o == if old(pairs[s]).state != Draining || !old(pairs[s]).Clean() then Failed(EBUSY)
                   else if |old(retained)| >= cfg.pairCapacity then Failed(ENOSPC) else Done
      ensures o.Failed? ==> pairs == old(pairs) && retained == old(retained)
      ensures o.Done? ==> && retained == old(retained)[old(IdOf(pairs, s)) := old(pairs[s])]
                          && |pairs| == |old(pairs)| && pairs == old(pairs)[s := pairs[s]]
                          && pairs[s].generation == old(pairs[s]).generation && pairs[s].state == Absent
    {
      if pairs[s].state != Draining || !pairs[s].Clean() {
        return Failed(EBUSY);
      }
      if |retained| >= cfg.pairCapacity {
        return Failed(ENOSPC);
      }
      retained := retained[IdOf(pairs, s) := pairs[s]];
      pairs := pairs[s := Blank(pairs[s].generation)];
      o := Done;
    }

    /** Records the inverses of a new pair's requested legs. */
    method RecordInverses(s: nat)
      requires s < |pairs| && pairs[s].leg0 == NO_LEG && pairs[s].leg1 == NO_LEG && FreshIn(inverses, pairs[s].spec)
      modifies this`pairs, this`inverses
      ensures inverses == Indexed(old(inverses), old(IdOf(pairs, s)), old(pairs[s]).spec)
      ensures var p := old(pairs[s]);
              pairs == old(pairs)[s := p.(leg0 := NO_LEG.(inverse := p.spec.Requests(0)),
                                          leg1 := NO_LEG.(inverse := p.spec.Requests(1)))]
    {
      var spec, generation := pairs[s].spec, pairs[s].generation;
      for index := 0 to 2
        invariant |pairs| == |old(pairs)|
        invariant pairs == old(pairs)[s := old(pairs[s]).(leg0 := NO_LEG.(inverse := index > 0 && spec.Requests(0)),
                                                         leg1 := NO_LEG.(inverse := index > 1 && spec.Requests(1)))]
        invariant inverses == if index == 0 then old(inverses)
                              else if index == 1 then
                                if spec.Requests(0) then old(inverses)[KeyOf(spec.At(0)) := LegId(s, generation,
                                  0)] else old(inverses)
                              else Indexed(old(inverses), PairId(s, generation), spec)
      {
        if spec.Requests(index) {
          var key := KeyOf(spec.At(index));
          assert key !in inverses;
          inverses := inverses[key := LegId(s, generation, index)];
          pairs := pairs[s := pairs[s].WithLeg(index, pairs[s].LegAt(index).(inverse := true))];
        }
      }
    }

    /** Moves a drained pair aside and writes the new generation's records. */
    method PlacePair(s: nat, spec: PairSpec, guards: Option<(Guard, Guard)>) returns (o: Outcome)
      requires s < |pairs| && (pairs[s].state == Absent || (pairs[s].state == Draining && pairs[s].Clean()))
      requires FreshIn(inverses, spec)
      modifies this`pairs, this`retained, this`inverses
      ensures o == if old(pairs[s]).state == Draining
              && |old(retained)| >= cfg.pairCapacity then Failed(ENOSPC) else Done
      ensures o.Failed? ==> T() == old(T())
      ensures o.Done? ==> T() == old(Admitted(T(), s, spec, guards))
    {
      hide KeyOf, Indexed, FreshIn;
      if pairs[s].state == Draining {
        o := RetainPair(s);
        if o.Failed? {
          return;
        }
      }
      pairs := pairs[s := Pair(pairs[s].generation + 1, Draining, spec, guards, NO_LEG, NO_LEG)];
      RecordInverses(s);
      o := Done;
    }

    /**
      Gives a slot to a new pair generation, retaining the drained pair it held.
      Only a full retained table refuses it: the duplicate-key and the
      unfinished-cleanup branches of the source cannot be taken.
    */
    method AdmitPair(s: nat, spec: PairSpec, guards: Option<(Guard, Guard)>) returns (o: Outcome)
      requires TablesOk() && FaultsOk() && Armed() && SpecValid(cfg, spec) && Admissible(cfg, spec, specs)
      requires s < |pairs| && pairs[s].generation != MAX_GENERATION
      requires pairs[s].state == Absent || pairs[s].state == Draining
      modifies this`pairs, this`retained, this`inverses, this`specs, this`named
      ensures TablesOk() && FaultsOk() && Armed()
      ensures o == if old(pairs[s]).state == Draining
              && |old(retained)| >= cfg.pairCapacity then Failed(ENOSPC) else Done
      ensures o.Failed? ==> T() == old(T()) && B() == old(B())
      ensures o.Done? ==> && T() == old(Admitted(T(), s, spec, guards)) && Kept(old(inverses), inverses)
                          && B() == old(Registered(B(), PairId(s, pairs[s].generation + 1), spec))
                          && PairId(s, pairs[s].generation) !in old(named)
    {
      hide Sound, SpecValid, ArmedUnder, FaultsKnown, Admissible, Admitted, Kept, FreshIn;
      ghost var t, b := T(), B();
      AdmissionReady(cfg, t, b, s, spec);
      AdmittedSlot(t, s, spec, guards);
      o := PlacePair(s, spec, guards);
      if o.Done? {
        AdmissionSound(cfg, t, T(), b, s, spec, guards);
        ghost var id := PairId(s, pairs[s].generation);
        specs, named := specs[id := spec], named[id := spec];
        ArmedElsewhere(t.pairs, pairs, pending, s);
        FaultsElsewhere(t.pairs, pairs, s, faulted);
      }
    }

    // The owner's calls.

    /**
      What no call ever takes back: a handle keeps naming its connection, with a
      policy generation that never decreases; receptions, transmissions, destroyed
      flows, faults and a terminal failure stay. A null entry is never received without
      a terminal failure, nor after one.
    */
    twostate predicate Evolves()
      reads this
    {
      && SameNames(old(named), named)
      && (forall id :: id in old(named) ==> old(named)[id].policyGeneration <= named[id].policyGeneration)
      && old(sent) <= sent && old(destroyed) <= destroyed && old(nextFlow) <= nextFlow && (old(faulted) ==> faulted)
      && Grows(old(ledger), ledger) && (terminal.None? ==> nulls == old(nulls))
      && (old(terminal).Some? ==> terminal == old(terminal) && nulls == old(nulls))
    }

    /** What stays as it is has not gone back. */
    lemma Unmoved()
      ensures Grows(ledger, ledger) && SameNames(named, named)
    {
    }

    /** A failed owner answers every call but `close` with its terminal failure. */
    function Refusal(): Outcome
      reads this`terminal, this`ealReady
    {
      if terminal.Some? then Failed(terminal.value) else if !ealReady then Failed(ENODEV) else Done
    }

    /** Nothing but the SDK stands against installing the pair. */
    ghost predicate MayInstall(spec: PairSpec, guards: Option<(Guard, Guard)>)
      requires cfg.Valid()
      reads this
    {
      && active && !faulted && !quiescing && spec.reserved == 0 && SpecValid(cfg, spec)
      && (forall i :: 0 <= i < 2 && spec.Requests(i) ==> GuardFits(spec, guards, i))
      && Admissible(cfg, spec, specs) && !(IsFirst(None, Absent, |pairs|) && IsFirst(None, Draining, |pairs|))
    }

    /** The checks before a pair may be admitted, and the slot it may take. */
    method CheckInstall(spec: PairSpec, guards: Option<(Guard, Guard)>) returns (o: Outcome, s: nat)
      requires TablesOk()
      ensures o.Done? ==> && active && !faulted && !quiescing && SpecValid(cfg, spec) && Admissible(cfg, spec, specs)
                          && s < |pairs| && pairs[s].generation != MAX_GENERATION
                          && (IsFirst(Some(s), Absent, |pairs|)
                              || (IsFirst(None, Absent, |pairs|) && IsFirst(Some(s), Draining, |pairs|)))
      ensures o == Failed(EEXIST) ==> !Admissible(cfg, spec, specs) || SelfCollides(cfg, spec)
      ensures o == Failed(ENOSPC) ==> IsFirst(None, Absent, |pairs|) && IsFirst(None, Draining, |pairs|)
      ensures cfg.Valid() && (o.Done? || o == Failed(ESDK) <==> MayInstall(spec, guards))
    {
      hide FlowsSound, NamesSound, TableInv, Collision, Admissible, GuardFits, DirectionValid, SelfCollides;
      s := 0;
      if !active || faulted || quiescing || spec.mask == 0 || spec.mask > 3 || spec.reserved != 0 {
        return Failed(EINVAL), s;
      }
      var first := CheckLeg(cfg, spec, guards, 0);
      if first.Failed? {
        return first, s;
      }
      var second := CheckLeg(cfg, spec, guards, 1);
      if second.Failed? {
        return second, s;
      }
      var free, draining;
      o, free, draining := CheckCollisions(spec);
      if o.Failed? {
        return;
      }
      if free.None? && draining.None? {
        return Failed(ENOSPC), s;
      }
      s := if free.Some? then free.value else draining.value;
      if SelfCollides(cfg, spec) {
        return Failed(EEXIST), s;
      }
      var refused: bool := *;
      o := if refused then Failed(ESDK) else Done;
    }

    lemma ValidParts()
      requires Valid()
      ensures TablesOk() && (active ==> pool)
    {
    }

    /** The packets stay right while handles are added and policies advance. */
    twostate lemma NamesAdvance()
      requires old(PacketsOk()) && SameNames(old(named), named)
      requires unchanged(this`stats, this`pending, this`received, this`quarantined, this`nulls, this`sent, this`trails,
                         this`ledger)
      ensures PacketsOk()
    {
      PacketsKeep(cfg, old(named), named, pending, trails, sent);
    }

    /** Admits a pair between calls. */
    method AdmitSlot(s: nat, spec: PairSpec, guards: Option<(Guard, Guard)>) returns (o: Outcome)
      requires Valid() && pool && SpecValid(cfg, spec) && Admissible(cfg, spec, specs)
      requires s < |pairs| && pairs[s].generation != MAX_GENERATION
      requires pairs[s].state == Absent || pairs[s].state == Draining
      modifies this`pairs, this`retained, this`inverses, this`specs, this`named
      ensures Valid() && Kept(old(inverses), inverses)
      ensures o.Failed? ==> o.fault == ENOSPC && T() == old(T()) && B() == old(B()) && |retained| >= cfg.pairCapacity
      ensures o.Done? ==>
                && s < |pairs| && pairs[s].state == Draining && pairs[s].spec == spec && pairs[s].guards == guards
                && IdOf(pairs, s) !in old(named) && named == old(named)[IdOf(pairs, s) := spec]
    {
      hide Sound, PacketsOk, FaultsOk, ArmedUnder, Empty, SpecValid, Admissible;
      o := AdmitPair(s, spec, guards);
      NamesAdvance();
    }

    /** Activates a drained pair between calls. */
    method ActivateSlot(s: nat) returns (o: Outcome)
      requires Valid() && s < |pairs| && pairs[s].state == Draining
      modifies this`pairs, this`nextFlow, this`destroyed, this`pending, this`faulted
      ensures Valid() && old(destroyed) <= destroyed && old(nextFlow) <= nextFlow && (old(faulted) ==> faulted)
      ensures SameRecords(old(pairs), pairs)
      ensures o.Done? ==> pairs[s].state == Installed && pairs[s].HasFlows() && pending == old(pending)
      ensures o.Done? || SdkFault(o)
    {
      hide Sound, PacketsOk, FaultsOk, ArmedUnder, Empty, SameRecords;
      PresentPool(s);
      o := ActivatePair(s);
      SameRecordsAt(old(pairs), pairs, s);
    }

    /** The slot holds a pair under a handle never used before, with its flows. */
    twostate predicate NewlyInstalled(new s: nat, spec: PairSpec, guards: Option<(Guard, Guard)>)
      reads this
    {
      && s < |pairs| && pairs[s].state == Installed && pairs[s].HasFlows() && pairs[s].spec == spec
      && pairs[s].guards == guards && IdOf(pairs, s) !in old(named)
    }

    /**
      Admits and activates a new pair. `admitted` says whether it got a slot: a
      pair that collides with a live one, or with itself, never does, and a
      refused pair changes nothing.
    */
    method InstallPair(spec: PairSpec, guards: Option<(Guard, Guard)>) returns (o: Outcome, s: nat,
                       ghost admitted: bool)
      requires Valid()
      modifies this
      ensures Valid() && Evolves() && Kept(old(inverses), inverses) && sent == old(sent)
      ensures o.Done? ==> admitted && NewlyInstalled(s, spec, guards)
      ensures admitted ==> && s < |pairs| && pairs[s].spec == spec && pairs[s].guards == guards
                           && IdOf(pairs, s) !in old(named) && Admissible(cfg, spec, old(specs)) && SpecValid(cfg, spec)
                           && old(active && !faulted && !quiescing && terminal.None?)
      ensures !admitted ==> o.Failed? && T() == old(T()) && B() == old(B()) && pending == old(pending)
      ensures admitted ==> o.Done? || SdkFault(o)
      ensures cfg.Valid() && (old(Refusal()).Failed? ==> o == old(Refusal()))
      ensures old(Refusal()).Done? && old(MayInstall(spec, guards)) && !admitted ==>
                o == Failed(ESDK) || (o == Failed(ENOSPC) && |old(retained)| >= cfg.pairCapacity)
      ensures o == Failed(EEXIST) && old(terminal).None? && !admitted ==>
                !Admissible(cfg, spec, old(specs)) || SelfCollides(cfg, spec)
    {
      hide Valid, TablesOk, Admissible, SpecValid, SelfCollides, Grows, SameNames, MayInstall;
      Unmoved();
      s, admitted := 0, false;
      ValidParts();
      ValidShape();
      if Refusal().Failed? {
        return Refusal(), s, false;
      }
      o, s := CheckInstall(spec, guards);
      if o.Failed? {
        return;
      }
      o := AdmitSlot(s, spec, guards);
      if o.Failed? {
        return;
      }
      admitted := true;
      NameAdded(old(named), IdOf(pairs, s), spec);
      o := ActivateSlot(s);
    }

    /** The handle names the pair that its slot holds now. */
    predicate Current(h: Handle)
      reads this`pairs
    {
      && h.reserved == 0 && h.instance == instance && h.generation > 0
      && h.slot < |pairs| && pairs[h.slot].generation == h.generation
    }

    /** What stands against reusing a handle: stale, then busy, then another connection. */
    ghost function ReuseAnswer(h: Handle, spec: PairSpec): Outcome
      reads this
    {
      if !Current(h) then Failed(ESTALE)
      else if !active || faulted || quiescing || pairs[h.slot].state != Draining then Failed(EBUSY)
      else if spec != pairs[h.slot].spec.(policyGeneration := spec.policyGeneration)
              || spec.policyGeneration < pairs[h.slot].spec.policyGeneration then Failed(EINVAL)
      else Done
    }

    /** The checks shared by resumption and reobservation. */
    method CheckReuse(h: Handle, spec: PairSpec) returns (o: Outcome)
      requires TablesOk()
      ensures o == ReuseAnswer(h, spec)
    {
      hide Sound;
      if h.reserved != 0 || h.instance != instance {
        return Failed(ESTALE);
      }
      var found := Resolve(PairId(h.slot, h.generation));
      if found.None? || pairs[h.slot].generation != h.generation {
        return Failed(ESTALE);
      }
      var pair := found.value;
      if pair.state == Draining {
        DrainingClean(cfg, T(), B(), h.slot);
      }
      if !active || faulted || quiescing || pair.state != Draining || !pair.Clean() {
        return Failed(EBUSY);
      }
      if spec.policyGeneration < pair.spec.policyGeneration || !SameConnection(pair.spec, spec) {
        return Failed(EINVAL);
      }
      o := Done;
    }

    /** The index still owns every leg: the source's ownership check never fails. */
    method CheckOwned(s: nat, i: nat) returns (o: Outcome)
      requires TablesOk() && s < |pairs| && pairs[s].state == Draining && i < 2
      ensures o.Done? || SdkFault(o)
    {
      hide Sound;
      if pairs[s].spec.Requests(i) {
        InverseOwned(cfg, T(), B(), s, i);
        var key := KeyOf(pairs[s].spec.At(i));
        if !(pairs[s].LegAt(i).inverse && key in inverses && inverses[key] == LegId(s, pairs[s].generation, i)) {
          assert false;
        }
        var refused: bool := *;
        return if refused then Failed(ESDK) else Done;
      }
      o := Done;
    }

    /** Writes a present pair's new policy generation and guards. */
    method WritePolicy(s: nat, spec: PairSpec, guards: Option<(Guard, Guard)>)
      requires TablesOk() && FaultsOk() && Armed()
      requires s < |pairs| && pairs[s].state != Absent && SameConnection(pairs[s].spec, spec)
      modifies this`pairs, this`specs, this`named
      ensures TablesOk() && FaultsOk() && Armed()
      ensures pairs == old(pairs)[s := old(pairs)[s].(spec := spec, guards := guards)]
      ensures IdOf(pairs, s) in old(named) && old(named)[IdOf(pairs, s)] == old(pairs)[s].spec
      ensures named == old(named)[IdOf(pairs, s) := spec]
    {
      hide Sound, FaultsKnown, ArmedUnder;
      var p := pairs[s].(spec := spec, guards := guards);
      PolicyChanged(cfg, T(), B(), s, p);
      pairs := pairs[s := p];
      specs, named := specs[IdOf(pairs, s) := spec], named[IdOf(pairs, s) := spec];
      ArmedRecords(old(pairs), pairs, pending, s);
      FaultsRecords(old(pairs), pairs, s, faulted);
    }

    /** Records a present pair's new policy generation and guards between calls. */
    method RecordPolicy(s: nat, spec: PairSpec, guards: Option<(Guard, Guard)>)
      requires Valid() && s < |pairs| && pairs[s].state != Absent && SameConnection(pairs[s].spec, spec)
      modifies this`pairs, this`specs, this`named
      ensures Valid() && pairs == old(pairs)[s := old(pairs)[s].(spec := spec, guards := guards)]
      ensures IdOf(pairs, s) in old(named) && old(named)[IdOf(pairs, s)] == old(pairs)[s].spec
      ensures named == old(named)[IdOf(pairs, s) := spec]
    {
      hide PacketsOk, Sound, FaultsOk, ArmedUnder, Empty;
      PresentPool(s);
      WritePolicy(s, spec, guards);
      NamesAdvance();
    }

    /** Reinstalls a drained pair's flows; only success records the new policy generation and guards. */
    method Reactivate(s: nat, spec: PairSpec, guards: Option<(Guard, Guard)>) returns (o: Outcome)
      requires Valid() && s < |pairs| && pairs[s].state == Draining && SameConnection(pairs[s].spec, spec)
      requires pairs[s].spec.policyGeneration <= spec.policyGeneration
      modifies this`pairs, this`nextFlow, this`destroyed, this`pending, this`faulted, this`specs, this`named
      ensures Valid() && Evolves()
      ensures o.Failed? ==> SameRecords(old(pairs), pairs) && named == old(named) && SdkFault(o)
      ensures o.Done? ==> && s < |pairs| == |old(pairs)| && pairs[s].state == Installed
                          && pairs[s].generation == old(pairs[s]).generation
                          && pairs[s].spec == spec && pairs[s].guards == guards
                          && named == old(named)[IdOf(pairs, s) := spec]
    {
      hide Valid;
      o := ActivateSlot(s);
      if o.Done? {
        RecordPolicy(s, spec, guards);
      }
    }

    /** What a resumption or reobservation leaves: a failed one keeps every record. */
    twostate predicate Reused(h: Handle, spec: PairSpec, guards: (Guard, Guard), new o: Outcome)
      reads this
    {
      && Evolves() && inverses == old(inverses) && retained == old(retained) && sent == old(sent)
      && (if old(Refusal()).Failed? then o == old(Refusal())
          else old(ReuseAnswer(h, spec)).Failed? ==> o == old(ReuseAnswer(h, spec)))
      && if o.Failed? then SameRecords(old(pairs), pairs) && named == old(named)
         else
           && h.slot < |pairs| && pairs[h.slot].generation == h.generation && pairs[h.slot].state == Installed
           && pairs[h.slot].spec == spec && pairs[h.slot].guards == Some(guards)
           && named == old(named)[IdOf(pairs, h.slot) := spec]
    }

    /** Reinstalls a drained pair under its own handle, with the same selectors. */
    method ResumePair(h: Handle, spec: PairSpec, guards: (Guard, Guard)) returns (o: Outcome)
      requires Valid()
      modifies this
      ensures Valid() && Reused(h, spec, guards, o)
      ensures old(Refusal()).Done? && old(ReuseAnswer(h, spec)).Done? ==>
                if old(pairs[h.slot].guards != Some(guards)) then o == Failed(EINVAL) else o.Done? || SdkFault(o)
    {
      hide Valid, TablesOk, SameRecords, Grows, SameNames;
      Unmoved();
      SameRecordsSelf(pairs);
      ValidParts();
      if Refusal().Failed? {
        return Refusal();
      }
      o := CheckReuse(h, spec);
      if o.Failed? {
        return;
      }
      if pairs[h.slot].guards != Some(guards) {
        return Failed(EINVAL);
      }
      o := CheckOwned(h.slot, 0);
      if o.Failed? {
        return;
      }
      o := CheckOwned(h.slot, 1);
      if o.Failed? {
        return;
      }
      o := Reactivate(h.slot, spec, Some(guards));
    }

    /** Retires what may not be forwarded any more, between calls. */
    method RetirePending()
      requires Valid()
      modifies this`pending
      ensures Valid()
    {
      hide PacketsOk, Sound, ArmedUnder, FaultsOk, Settled, IsRetired;
      RestorePending();
      SettledArmed(Now(), pending);
    }

    /** Reinstalls a drained pair under its own handle, with newly observed selectors. */
    method ReobservePair(h: Handle, spec: PairSpec, guards: (Guard, Guard)) returns (o: Outcome)
      requires Valid()
      modifies this
      ensures Valid() && Reused(h, spec, guards, o)
      ensures old(Refusal()).Done? && old(ReuseAnswer(h, spec)).Done? ==>
                if && (spec.Requests(0) ==> GuardValid(spec.first, guards.0))
                   && (spec.Requests(1) ==> GuardValid(spec.second, guards.1))
                then o.Done? || SdkFault(o) else o.Failed? && (o == Failed(EINVAL) || SdkFault(o))
    {
      hide Valid, TablesOk, SameRecords, GuardValid, Grows, SameNames;
      Unmoved();
      SameRecordsSelf(pairs);
      ValidParts();
      if Refusal().Failed? {
        return Refusal();
      }
      o := CheckReuse(h, spec);
      if o.Failed? {
        return;
      }
      if spec.Requests(0) && !GuardValid(spec.first, guards.0) {
        return Failed(EINVAL);
      }
      o := CheckOwned(h.slot, 0);
      if o.Failed? {
        return;
      }
      if spec.Requests(1) && !GuardValid(spec.second, guards.1) {
        return Failed(EINVAL);
      }
      o := CheckOwned(h.slot, 1);
      if o.Failed? {
        return;
      }
      RetirePending();
      o := Reactivate(h.slot, spec, Some(guards));
    }

    lemma PresentPool(s: nat)
      requires Valid() && s < |pairs| && pairs[s].state != Absent
      ensures pool
    {
    }

    /**
      What a deletion leaves of a slot: success leaves no flow and no consumed
      handle, and every flow there was went to the SDK; failure leaves it faulted.
    */
    twostate predicate Deleted(s: nat, new o: Outcome)
      requires s < |old(pairs)|
      reads this
    {
      && |pairs| == |old(pairs)| && pairs == old(pairs)[s := pairs[s]]
      && if old(pairs)[s].state == Absent then o.Done? && pairs == old(pairs)
         else if o.Done? then
           && pairs[s].state == Draining && pairs[s].Clean() && HandedOver(old(pairs)[s], destroyed)
           && pairs[s].generation == old(pairs)[s].generation && pairs[s].spec == old(pairs)[s].spec
         else pairs[s].state == Faulted && faulted && SdkFault(o)
    }

    /** Deletes a slot's hardware between calls. */
    method DeleteSlot(s: nat) returns (o: Outcome)
      requires Valid() && s < |pairs|
      modifies this`pairs, this`destroyed, this`pending, this`faulted
      ensures Valid() && old(destroyed) <= destroyed && (old(faulted) ==> faulted)
      ensures SameRecords(old(pairs), pairs) && |pairs| == |old(pairs)| && pairs == old(pairs)[s := pairs[s]]
      ensures Deleted(s, o)
    {
      hide Sound, PacketsOk, FaultsOk, ArmedUnder, SameRecords, Empty;
      if pairs[s].state != Absent {
        LoosenSound(cfg, T(), B(), s);
        PresentPool(s);
      }
      o := DeletePair(s);
      SameRecordsAt(old(pairs), pairs, s);
    }

    /** Between calls, a pair that is not installed has no prepared packet. */
    lemma ValidUnprepared(id: PairId)
      requires Valid() && !IsInstalled(pairs, id)
      ensures Unprepared(pending, id)
    {
      NotInstalledUnprepared(pairs, pending, id);
    }

    /**
      What a removal answers, and does: a refused or stale handle changes nothing,
      nor does one whose pair was retained since; a current one deletes its slot.
    */
    twostate predicate Removed(h: Handle, new o: Outcome)
      reads this
    {
      var id := PairId(h.slot, h.generation);
      if old(Refusal()).Failed? then o == old(Refusal()) && Idle()
      else if h.reserved != 0 || h.instance != instance || old(Resolve(id)).None? then o == Failed(ESTALE) && Idle()
      else if h.slot >= |old(pairs)| || old(pairs)[h.slot].generation != h.generation then o.Done? && Idle()
      else Deleted(h.slot, o)
    }

    /**
      Removes a pair's hardware. On success no packet is prepared under the
      handle any more; its restoration records stay.
    */
    method RemovePair(h: Handle) returns (o: Outcome)
      requires Valid()
      modifies this`pairs, this`destroyed, this`pending, this`faulted
      ensures Valid() && Evolves() && SameRecords(old(pairs), pairs) && Removed(h, o)
      ensures o.Done? ==> Unprepared(pending, PairId(h.slot, h.generation))
    {
      hide Valid, SameRecords, Unprepared;
      SameRecordsSelf(pairs);
      if Refusal().Failed? {
        return Refusal();
      }
      if h.reserved != 0 || h.instance != instance || Resolve(PairId(h.slot, h.generation)).None? {
        return Failed(ESTALE);
      }
      o := Done;
      if pairs[h.slot].generation == h.generation {
        o := DeleteSlot(h.slot);
      }
      if o.Done? {
        ValidUnprepared(PairId(h.slot, h.generation));
      }
    }

    /** No packet moved and RX and TX were not called. */
    twostate predicate Idle()
      reads this
    {
      && sent == old(sent) && pending == old(pending) && received == old(received) && stats == old(stats)
      && nextRx == old(nextRx) && bursts == old(bursts) && pairs == old(pairs) && destroyed == old(destroyed)
    }

    /** What a polling call answers, and does. */
    twostate predicate PollAnswer(budget: nat, new o: Outcome, new t: PollTrace)
      requires cfg.Valid() && |started| == cfg.dataCount
      reads this
    {
      if old(Refusal()).Failed? then o == old(Refusal()) && Idle()
      else if budget == 0 then o == Failed(EINVAL) && Idle()
      else if !old(active) then o.Done? && Idle()
      else PortsPolled(budget, o, t)
    }

    /** Polls an active owner. It receives at most its budget. */
    method Poll(budget: nat) returns (o: Outcome, ghost t: PollTrace)
      requires Valid()
      modifies this`received, this`pending, this`trails, this`stats, this`quarantined, this`faulted,
               this`sent, this`terminal, this`nulls, this`nextRx, this`ledger, this`bursts
      ensures Valid() && Evolves() && stats.received <= old(stats).received + budget
      ensures PollAnswer(budget, o, t)
    {
      hide Sound, PacketsOk, FaultsOk, ArmedUnder, PortsPolled;
      t := PollTrace([], 0, [], []);
      if Refusal().Failed? {
        return Refusal(), t;
      }
      if budget == 0 {
        return Failed(EINVAL), t;
      }
      if !active {
        return Done, t;
      }
      o, t := PollPorts(budget);
    }

    // Closing.

    /** Deletes every slot's hardware, reporting the first failure after all were tried. */
    method DeleteSlots(failure: Outcome) returns (o: Outcome)
      requires Valid()
      modifies this`pairs, this`destroyed, this`pending, this`faulted
      ensures Valid() && old(destroyed) <= destroyed && (old(faulted) ==> faulted)
      ensures o.Done? ==> failure.Done? && Drained(pairs)
      ensures o.Done? || o == failure || SdkFault(o)
      ensures NoneInstalled(pairs)
    {
      hide Valid, TablesOk, SameRecords;
      o := failure;
      for slot := 0 to |pairs|
        invariant Valid() && old(destroyed) <= destroyed && (old(faulted) ==> faulted) && |pairs| == |old(pairs)|
        invariant o.Done? ==> failure.Done? && Drained(pairs[..slot])
        invariant NoneInstalled(pairs[..slot]) && (o.Done? || o == failure || SdkFault(o))
      {
        var deleted := DeleteSlot(slot);
        if o.Done? {
          o := deleted;
        }
      }
      assert pairs[..|pairs|] == pairs;
    }

    /**
      Polls until the ports stay quiet for the quiet interval or the deadline is
      over. The clock is arbitrary but for what a sleep promises. `polls` tells
      when each poll returned, what had been received by then and whether the
      owner was idle.
    */
    method Drain() returns (o: Outcome, ghost polls: seq<Reading>, ghost began: nat, ghost ended: nat)
      requires Valid() && terminal.None? && pool
      modifies this`received, this`pending, this`trails, this`stats, this`quarantined, this`faulted,
               this`sent, this`terminal, this`nulls, this`nextRx, this`ledger, this`bursts
      ensures Valid() && old(sent) <= sent && (old(faulted) ==> faulted) && (terminal.None? ==> nulls == old(nulls))
      ensures Grows(old(ledger), ledger)
      ensures o.Done? ==> pending == [] && received == [] && quarantined.None? && terminal.None?
      ensures o.Done? ==> polls != [] && polls[|polls| - 1] == Reading(ended, stats.received, true)
      ensures o.Done? ==> exists since :: QuietFrom(polls, since) && QuietLongEnough(polls, since)
      ensures o.Failed? ==> faulted || ended >= began + cfg.drainTimeout
    {
      hide Sound, PacketsOk, FaultsOk, ArmedUnder, QuietFrom, Empty, PortsPolled;
      var start: nat :| 0 <= start;
      var now, quiet: Option<nat> := start, None;
      began, ended, polls := start, start, [];
      ghost var since: nat := 0;
      while true
        invariant Valid() && old(sent) <= sent && (old(faulted) ==> faulted) && terminal.None?
        invariant Grows(old(ledger), ledger)
        invariant quiet.Some? ==> && since < |polls| && QuietFrom(polls, since) && polls[since].at == quiet.value
                                  && polls[|polls| - 1].received == stats.received
        decreases start + cfg.drainTimeout - now
      {
        var before := stats.received;
        ghost var trace;
        o, trace := PollPorts(BURST * cfg.dataCount);
        if o.Failed? {
          return;
        }
        var returned: nat :| now <= returned;
        ghost var polls0 := polls;
        polls := polls + [Reading(returned, stats.received, pending == [] && received == [])];
        if before == stats.received && pending == [] && received == [] {
          if quiet.None? {
            quiet, since := Some(returned), |polls| - 1;
            QuietStarts(polls);
          } else {
            assert polls[..|polls| - 1] == polls0;
            QuietGoesOn(polls, since);
          }
          if returned >= quiet.value + DRAIN_QUIET {
            return Done, polls, began, returned;
          }
        } else {
          quiet := None;
        }
        var woken: nat :| returned + DRAIN_SLEEP <= woken;
        now, ended := woken, woken;
        if woken >= start + cfg.drainTimeout {
          return Failed(ETIMEDOUT), polls, began, ended;
        }
      }
    }

    ghost predicate AllStopped()
      reads this`started
    {
      NoneStarted(started)
    }

    /** Stops the started ports in order, up to the first that will not stop. */
    method StopPorts() returns (o: Outcome)
      requires Valid()
      modifies this`started, this`faulted
      ensures Valid() && (old(faulted) ==> faulted)
      ensures if o.Done? then AllStopped() else faulted
    {
      hide Sound, PacketsOk, ArmedUnder;
      for i := 0 to |started|
        invariant |started| == |old(started)| && faulted == old(faulted)
        invariant forall j :: 0 <= j < i ==> !started[j]
      {
        if started[i] {
          var refused: bool := *;
          if refused {
            faulted := true;
            return Failed(ESDK);
          }
          started := started[i := false];
        }
      }
      o := Done;
    }

    /** Drops one slot's restoration records. */
    method ForgetPair(s: nat)
      requires s < |pairs|
      modifies this`pairs, this`inverses
      ensures pairs == old(pairs)[s := Forgotten(old(pairs)[s])]
      ensures Kept(inverses, old(inverses))
      ensures forall i :: 0 <= i < 2 && old(pairs)[s].LegAt(i).inverse ==> KeyOf(old(pairs)[s].spec.At(i)) !in inverses
    {
      var pair := pairs[s];
      for i := 0 to 2
        invariant pairs == old(pairs) && Kept(inverses, old(inverses))
        invariant forall j :: 0 <= j < i && pair.LegAt(j).inverse ==> KeyOf(pair.spec.At(j)) !in inverses
      {
        if pair.LegAt(i).inverse {
          inverses := inverses - {KeyOf(pair.spec.At(i))};
        }
      }
      pairs := pairs[s := Forgotten(pair)];
    }

    /** Drops every restoration record of a drained owner. */
    method ForgetAll()
      requires TablesOk() && Drained(pairs)
      modifies this`pairs, this`retained, this`inverses, this`specs
      ensures TablesOk() && SameRecords(old(pairs), pairs) && retained == map[] && inverses == map[]
      ensures forall s :: 0 <= s < |pairs| ==>
                pairs[s].state == Absent && pairs[s].leg0 == NO_LEG && pairs[s].leg1 == NO_LEG
    {
      hide Sound, Drained;
      for slot := 0 to |pairs|
        invariant |pairs| == |old(pairs)|
        invariant AllForgotten(old(pairs)[..slot], pairs[..slot]) && pairs[slot..] == old(pairs)[slot..]
      {
        ForgetPair(slot);
      }
      retained, inverses := map[], map[];
      assert pairs[..|pairs|] == pairs && old(pairs)[..|pairs|] == old(pairs);
      ForgottenSound(cfg, old(T()), old(B()), pairs);
      specs := map[];
    }

    /** From now on nothing is admitted or forwarded. */
    method StopAdmissions()
      requires Valid()
      modifies this`quiescing
      ensures Valid() && quiescing
    {
      hide Sound, PacketsOk, ArmedUnder, FaultsOk;
      quiescing := true;
    }

    /** Deletes the hardware and waits until every packet has left. */
    method Retire() returns (o: Outcome)
      requires Valid()
      modifies this
      ensures Valid() && Evolves() && inverses == old(inverses) && named == old(named) && ealReady == old(ealReady)
      ensures quiescing && NoneInstalled(pairs)
      ensures o.Done? ==> && Drained(pairs) && terminal.None?
                          && pending == [] && received == [] && quarantined.None?
    {
      hide Valid, Drained, Grows, SameNames, NoneInstalled;
      Unmoved();
      StopAdmissions();
      o := if terminal.Some? then Failed(terminal.value) else Done;
      var contexts: bool := *;
      if !contexts && o.Done? {
        o := Failed(ESDK);
      }
      o := DeleteSlots(o);
      if o.Done? {
        if pool {
          ghost var polls, began, ended;
          o, polls, began, ended := Drain();
        } else {
          PoolNeeded();
        }
      }
    }

    lemma PoolNeeded()
      requires Valid() && !pool
      ensures pending == [] && received == [] && quarantined.None?
    {
    }

    /** The part of closing that may leave the owner running: hardware, packets, ports. */
    method Quiesce() returns (o: Outcome)
      requires Valid()
      modifies this
      ensures Valid() && Evolves() && inverses == old(inverses) && named == old(named) && ealReady == old(ealReady)
      ensures quiescing && NoneInstalled(pairs)
      ensures o.Done? ==> && Drained(pairs) && AllStopped() && NoneStarted(misses) && terminal.None?
                          && pending == [] && received == [] && quarantined.None?
    {
      hide Valid, Drained, AllStopped;
      o := Retire();
      if o.Failed? {
        return;
      }
      o := RemoveMisses();
      if o.Done? {
        o := StopPorts();
      }
    }

    /** Removes each controller's miss rule, up to the first that stays; that faults the owner. */
    method RemoveMisses() returns (o: Outcome)
      requires Valid()
      modifies this`misses, this`faulted
      ensures Valid() && (old(faulted) ==> faulted)
      ensures if o.Done? then NoneStarted(misses) else faulted && SdkFault(o)
    {
      hide Sound, PacketsOk, ArmedUnder;
      for i := 0 to |misses|
        invariant |misses| == |old(misses)| && faulted == old(faulted)
        invariant forall j :: 0 <= j < i ==> !misses[j]
      {
        if misses[i] {
          var refused: bool := *;
          if refused {
            faulted := true;
            return Failed(ESDK);
          }
          misses := misses[i := false];
        }
      }
      o := Done;
    }

    /** Closes the ports and the EAL of an emptied owner; a failure here is terminal. */
    method Release() returns (o: Outcome)
      requires Valid() && Empty() && !active
      modifies this`pool, this`ealReady, this`terminal, this`faulted
      ensures Valid() && (old(faulted) ==> faulted)
      ensures o.Done? ==> !ealReady
      ensures o.Failed? ==> faulted && terminal == Some(ESDK)
    {
      hide Sound, PacketsOk;
      var closed: bool := *;
      if !closed {
        terminal, faulted := Some(ESDK), true;
        return Failed(ESDK);
      }
      pool, ealReady := false, false;
      var cleaned: bool := *;
      if !cleaned {
        terminal, faulted := Some(ESDK), true;
        return Failed(ESDK);
      }
      o := Done;
    }

    lemma NothingFaulted()
      requires pending == [] && quarantined.None? && forall s :: 0 <= s < |pairs| ==> pairs[s].state == Absent
      ensures FaultsOk() && Armed()
    {
    }

    /** Drops every record once the ports have stopped; the owner can be opened again. */
    method Deactivate()
      requires Valid() && Drained(pairs) && pending == [] && received == [] && quarantined.None?
      modifies this`active, this`pairs, this`retained, this`inverses, this`specs
      ensures Valid() && Empty() && !active && NoneInstalled(pairs)
    {
      hide Sound, PacketsOk, FaultsOk, ArmedUnder, Drained;
      active := false;
      ForgetAll();
      NothingFaulted();
    }

    /** An owner without an EAL holds nothing. */
    lemma NoEalEmpty()
      requires Valid() && !ealReady
      ensures !pool && !active && Empty()
    {
    }

    /** Closing an owner without an EAL; the source's check for resources that it holds never fires. */
    method CloseUnready() returns (o: Outcome)
      requires Valid() && !ealReady
      ensures o == if terminal.Some? then Failed(terminal.value) else Done
      ensures !active && Empty()
    {
      hide Core;
      NoEalEmpty();
      if terminal.Some? {
        return Failed(terminal.value);
      }
      if pool || inverses != map[] || retained != map[] || pending != [] || received != [] || quarantined.Some? {
        assert false;
      }
      return Done;
    }

    /**
      Closes the owner. Restoration records go only once every port has stopped,
      and a successful close leaves no flow, record or packet.
    */
    method Close(final: bool) returns (o: Outcome)
      requires Valid()
      modifies this
      ensures Valid() && Evolves() && named == old(named)
      ensures inverses == old(inverses) || AllStopped()
      ensures o.Done? ==> Empty() && !active && (final ==> !ealReady)
      ensures old(ealReady) ==> quiescing && NoneInstalled(pairs)
      ensures old(ealReady) && o.Done? ==> AllStopped() && NoneStarted(misses)
    {
      hide Valid, Drained, AllStopped, Grows, SameNames, NoneInstalled, NoneStarted;
      Unmoved();
      if !ealReady {
        o := CloseUnready();
        return;
      }
      o := Quiesce();
      if o.Failed? {
        return;
      }
      Deactivate();
      if final {
        o := Release();
      }
    }

    // Opening.

    /** Starts every port that is not started and sets every miss rule; success makes the owner active. */
    method Activate() returns (o: Outcome)
      requires Valid() && pool
      modifies this`started, this`misses, this`quiescing, this`active
      ensures Valid() && (o.Failed? ==> SdkFault(o) && active == old(active) && quiescing == old(quiescing))
      ensures o.Done? ==> && active && !quiescing && (forall i :: 0 <= i < |started| ==> started[i])
                          && forall i :: 0 <= i < |misses| ==> misses[i]
    {
      hide Sound, PacketsOk, FaultsOk, ArmedUnder;
      for i := 0 to |started|
        modifies this`started
        invariant |started| == |old(started)|
        invariant forall j :: 0 <= j < i ==> started[j]
      {
        if !started[i] {
          var ok: bool := *;
          if !ok {
            return Failed(ESDK);
          }
          started := started[i := true];
        }
      }
      for i := 0 to |misses|
        modifies this`misses
        invariant |misses| == |old(misses)|
        invariant forall j :: 0 <= j < i ==> misses[j]
      {
        var ok: bool := *;
        if !ok {
          return Failed(ESDK);
        }
        misses := misses[i := true];
      }
      quiescing, active := false, true;
      o := Done;
    }

    /** The first opening; any failure leaves a faulted owner that only `close` serves. */
    method Initialize() returns (o: Outcome)
      requires Valid() && !ealReady && !active && terminal.None?
      modifies this
      ensures Valid() && Evolves() && inverses == old(inverses) && named == old(named)
      ensures o.Done? ==> active && faulted == old(faulted)
      ensures o.Failed? ==> faulted && !active
    {
      hide Sound, PacketsOk, ArmedUnder, Grows, SameNames;
      Unmoved();
      var initialized: bool := *;
      if !initialized {
        faulted := true;
        return Failed(ESDK);
      }
      ealReady := true;
      var discovered: bool := *;
      if !discovered {
        faulted := true;
        return Failed(ESDK);
      }
      pool := true;
      o := Activate();
      if o.Failed? {
        faulted := true;
      }
    }

    /** Reopens an owner for the identical configuration unless it is faulted. */
    method Reopen(config: Config) returns (o: Outcome)
      requires Valid()
      modifies this
      ensures Valid() && Evolves() && inverses == old(inverses) && named == old(named)
      ensures o.Done? ==> active && !old(faulted) && config == cfg
    {
      hide Sound, PacketsOk, FaultsOk, ArmedUnder;
      if Refusal().Failed? {
        return Refusal();
      }
      if faulted || config != cfg {
        return Failed(EBUSY);
      }
      if active {
        return Done;
      }
      o := Activate();
    }

    lemma ValidShape()
      requires Valid()
      ensures cfg.Valid() && |started| == cfg.dataCount
    {
    }

    /** One call through the owner's interface; a call on a closed owner may open it again. */
    method Step(call: Call) returns (o: Outcome)
      requires Valid()
      modifies this
      ensures Valid() && Evolves() && (Kept(old(inverses), inverses) || (call.CloseFor? && AllStopped()))
      ensures call.Install? && o.Done? ==> exists s :: NewlyInstalled(s, call.spec, call.guards)
      ensures call.Resume? || call.Reobserve? ==> Reused(call.handle, call.spec, call.reguards, o)
      ensures call.Remove? ==> Removed(call.handle, o)
      ensures call.PollFor? ==> exists t :: PollAnswer(call.budget, o, t)
      ensures call.CloseFor? && o.Done? ==> Empty() && !active && (call.final ==> !ealReady)
      ensures call.CloseFor? && old(ealReady) ==> quiescing && NoneInstalled(pairs)
      ensures call.ReopenWith? && o.Done? ==> active
    {
      hide Sound, PacketsOk, FaultsOk, ArmedUnder, Valid, SameRecords, PortsPolled, Deleted;
      ValidShape();
      ghost var admitted;
      match call
      case Install(spec, guards) =>
        var slot;
        o, slot, admitted := InstallPair(spec, guards);
      case Resume(h, spec, guards) =>
        o := ResumePair(h, spec, guards);
      case Reobserve(h, spec, guards) =>
        o := ReobservePair(h, spec, guards);
      case Remove(h) =>
        o := RemovePair(h);
      case PollFor(budget) =>
        ghost var trace;
        o, trace := Poll(budget);
      case CloseFor(final) =>
        o := Close(final);
      case ReopenWith(config) =>
        o := Reopen(config);
    }

    /**
      Any run of calls, whatever the SDK does: at the end every transmission was
      allowed and carried the right octets, every packet received is accounted for,
      the counters but for the null entries of one terminal failure, no handle came to name another
      connection, and a restoration key is forgotten only if a close stopped
      every port. `ports` tells which ports were on after each call.
    */
    method Run(calls: seq<Call>) returns (ghost ports: seq<seq<bool>>)
      requires Valid()
      modifies this
      ensures Valid() && Evolves()
      ensures AllSentOk(cfg, named, sent)
      ensures Conserved() && Tracked() && nulls <= Limit(cfg) && (terminal.None? ==> nulls == 0)
      ensures |pending| <= Limit(cfg) && |inverses| <= 4 * cfg.pairCapacity
      ensures |ports| == |calls| && (calls != [] ==> ports[|calls| - 1] == started)
      ensures || Kept(old(inverses), inverses)
              || exists n :: 0 <= n < |calls| && calls[n].CloseFor? && NoneStarted(ports[n])
    {
      hide Sound, Conserved, QueueOk, AllSentOk, Tracked, FaultsOk, ArmedUnder, Empty, NoneStarted, TableInv;
      ports := [];
      for n := 0 to |calls|
        invariant Valid() && Evolves() && |ports| == n && (n > 0 ==> ports[n - 1] == started)
        invariant || Kept(old(inverses), inverses)
                  || exists k :: 0 <= k < n && calls[k].CloseFor? && NoneStarted(ports[k])
      {
        var o := Step(calls[n]);
        ports := ports + [started];
        assert ports[n] == started;
      }
      SoundBound();
    }

    lemma SoundBound()
      requires Valid()
      ensures |inverses| <= 4 * cfg.pairCapacity
    {
      IndexBound(cfg, T(), specs);
    }
  }

  /** A whole life of the worker: it is created, opened, and then called in any way. */
  method Serve(cfg: Config, instance: nat, calls: seq<Call>) returns (owner: Owner, start: Outcome)
    requires cfg.Valid()
    ensures fresh(owner) && owner.Valid() && owner.cfg == cfg && owner.instance == instance
    ensures AllSentOk(cfg, owner.named, owner.sent)
    ensures owner.Conserved() && owner.Tracked()
    ensures owner.nulls <= Limit(cfg) && (owner.terminal.None? ==> owner.nulls == 0)
    ensures |owner.pending| <= Limit(cfg) && |owner.inverses| <= 4 * cfg.pairCapacity
    ensures start.Failed? ==> owner.faulted
  {
    owner := new Owner(cfg, instance);
    start := owner.Initialize();
    ghost var ports := owner.Run(calls);
  }
}
