/**
  Packets the worker owns: received buffers, pending transmissions, and the
  record of what was transmitted. A trail remembers the frame as received and
  the direction that undoes its rewrite.
*/
module PacketQueue {
  import opened Wire
  import opened Packet
  import opened PacketEdit
  import opened RestoreValues
  import opened ForwardTheorems
  import opened NatTheorems
  import opened EligibilityTheorems
  import opened Directions
  import opened PairTable

  const BURST: nat := 32

  /**
    One received mbuf. `linearizable` is the SDK's answer to linearization and
    `bounded` whether its data range fits the allocation; both are fixed at RX.
  */
  datatype Buffer = Buffer(bytes: Bytes, linearizable: bool, bounded: bool, contiguous: bool) {
    predicate Readable() {
      contiguous && bounded
    }

    /** The destination's group bit, readable before linearization when a whole Ethernet header arrived. */
    predicate IsGroup() {
      |bytes| >= 14 && bytes[0] % 2 == 1
    }
  }

  datatype Received = Received(origin: nat, packet: Buffer)

  datatype Prepared = Prepared(pair: PairId, view: View, direction: Direction, returnPort: nat)

  datatype Pending = Pending(packet: Buffer, port: nat, kernel: bool, prepared: Option<Prepared>)

  /** The frame as received on an origin, and the direction whose rewrite it carries. */
  datatype Trail = Trail(origin: nat, arrival: Bytes, direction: Direction)

  /** The pair table and the owner's flags at one moment. */
  datatype Moment = Moment(pairs: seq<Pair>, quiescing: bool, faulted: bool)

  /** One transmission and the moment it happened. */
  datatype Sent = Sent(trail: Trail, bytes: Bytes, port: nat, kernel: bool, pair: Option<PairId>, at: Moment)

  /** The pending queue's reserved size. */
  function Limit(cfg: Config): (limit: nat)
    ensures limit == if cfg.mbufCount < 32 then cfg.mbufCount else 32
  {
    Min(BURST, cfg.mbufCount)
  }

  function ReturnPort(cfg: Config, origin: nat): nat
    requires origin < |cfg.origins|
  {
    cfg.origins[origin].data
  }

  /** The direction is an accepted one whose translated tuple and MACs the received frame carries. */
  ghost predicate Inverts(cfg: Config, origin: nat, v: View, d: Direction)
    requires cfg.Valid()
  {
    && DirectionValid(cfg, d) && d.originId == origin
    && v.sourceMac == d.originalSourceMac && v.destinationMac == d.originalDestinationMac
    && if v.ports then d.translated == v.tuple else SameAddresses(d.translated, v.tuple)
  }

  ghost predicate TrailOk(cfg: Config, t: Trail)
    requires cfg.Valid()
  {
    Decode(t.arrival).Ok? && Inverts(cfg, t.origin, Decode(t.arrival).value, t.direction)
  }

  /** The direction is a requested leg of the connection that the handle names. */
  ghost predicate IsLegOf(named: map<PairId, PairSpec>, id: PairId, d: Direction) {
    id in named && exists i :: 0 <= i < 2 && named[id].Requests(i) && named[id].At(i) == d
  }

  /** Every handle keeps naming the same connection. */
  ghost predicate SameNames(named: map<PairId, PairSpec>, named': map<PairId, PairSpec>) {
    forall id :: id in named ==> id in named' && SameConnection(named[id], named'[id])
  }

  /** What a direct return and a forward leave in the buffer, and whose leg a forward takes. */
  ghost predicate PendingOk(cfg: Config, named: map<PairId, PairSpec>, p: Pending, t: Trail)
    requires cfg.Valid()
  {
    && TrailOk(cfg, t) && p.packet.Readable()
    && var v := Decode(t.arrival).value;
       match p.prepared
       case None =>
         p.kernel && p.port == cfg.origins[t.origin].data && Restore(t.arrival, v, t.direction) == Ok(p.packet.bytes)
       case Some(prepared) =>
         && !p.kernel && p.port == t.direction.egressDataId
         && prepared.view == v && prepared.direction == t.direction
         && IsLegOf(named, prepared.pair, t.direction)
         && prepared.returnPort == cfg.origins[t.origin].data
         && Eligible(t.arrival, v, t.direction.outputMtu)
         && Forward(t.arrival, v, t.direction) == Ok(p.packet.bytes)
  }

  ghost predicate QueueOk(cfg: Config, named: map<PairId, PairSpec>, pending: seq<Pending>, trails: seq<Trail>)
    requires cfg.Valid()
  {
    |trails| == |pending| && forall i :: 0 <= i < |pending| ==> PendingOk(cfg, named, pending[i], trails[i])
  }

  /** The pair generation is installed in its slot. */
  predicate IsInstalled(pairs: seq<Pair>, id: PairId) {
    id.slot < |pairs| && pairs[id.slot].generation == id.generation && pairs[id.slot].state == Installed
  }

  /**
    The transmission carried the right octets; a forwarded one took a leg of
    its pair while that generation was installed and forwarding allowed.
  */
  ghost predicate SentOk(cfg: Config, named: map<PairId, PairSpec>, s: Sent)
    requires cfg.Valid()
  {
    && TrailOk(cfg, s.trail)
    && var v, d := Decode(s.trail.arrival).value, s.trail.direction;
       if s.kernel then
         s.port == cfg.origins[s.trail.origin].data && Restore(s.trail.arrival, v, d) == Ok(s.bytes)
       else
         && s.port == d.egressDataId && s.pair.Some? && IsLegOf(named, s.pair.value, d)
         && IsInstalled(s.at.pairs, s.pair.value) && !s.at.quiescing && !s.at.faulted
         && Eligible(s.trail.arrival, v, d.outputMtu) && Forward(s.trail.arrival, v, d) == Ok(s.bytes)
  }

  ghost predicate AllSentOk(cfg: Config, named: map<PairId, PairSpec>, sent: seq<Sent>)
    requires cfg.Valid()
  {
    forall i :: 0 <= i < |sent| ==> SentOk(cfg, named, sent[i])
  }

  lemma NameAdded(named: map<PairId, PairSpec>, id: PairId, spec: PairSpec)
    requires id !in named
    ensures SameNames(named, named[id := spec])
  {
  }

  lemma LegKept(named: map<PairId, PairSpec>, named': map<PairId, PairSpec>, id: PairId, d: Direction)
    requires SameNames(named, named') && IsLegOf(named, id, d)
    ensures IsLegOf(named', id, d)
  {
    var i :| 0 <= i < 2 && named[id].Requests(i) && named[id].At(i) == d;
    assert named'[id].Requests(i) && named'[id].At(i) == d;
  }

  /** What was queued and sent stays right while handles are added and policies advance. */
  lemma PacketsKeep(cfg: Config, named: map<PairId, PairSpec>, named': map<PairId, PairSpec>, pending: seq<Pending>,
                    trails: seq<Trail>, sent: seq<Sent>)
    requires cfg.Valid() && SameNames(named, named')
    requires QueueOk(cfg, named, pending, trails) && AllSentOk(cfg, named, sent)
    ensures QueueOk(cfg, named', pending, trails) && AllSentOk(cfg, named', sent)
  {
    hide SameNames, IsLegOf, TrailOk, Decode, Restore, Forward, Eligible, IsInstalled;
    forall i | 0 <= i < |pending| ensures PendingOk(cfg, named', pending[i], trails[i]) {
      if pending[i].prepared.Some? {
        LegKept(named, named', pending[i].prepared.value.pair, trails[i].direction);
      }
    }
    forall i | 0 <= i < |sent| ensures SentOk(cfg, named', sent[i]) {
      if !sent[i].kernel {
        LegKept(named, named', sent[i].pair.value, sent[i].trail.direction);
      }
    }
  }

  /** How many transmissions went to the kernel, or did not. */
  ghost function Count(sent: seq<Sent>, kernel: bool): nat {
    if sent == [] then 0
    else Count(sent[..|sent| - 1], kernel) + if sent[|sent| - 1].kernel == kernel then 1 else 0
  }

  lemma CountNext(sent: seq<Sent>, s: Sent, kernel: bool)
    ensures Count(sent + [s], kernel) == Count(sent, kernel) + if s.kernel == kernel then 1 else 0
  {
    assert (sent + [s])[..|sent|] == sent;
  }

  lemma InvertsCarries(cfg: Config, origin: nat, v: View, d: Direction)
    requires cfg.Valid() && Inverts(cfg, origin, v, d)
    ensures SameFamily(v, d) && Carries(v, d) && NeutralEndpoints(d) && origin < |cfg.origins|
  {
  }

  /** A direct return cannot fail. */
  lemma RestoreSucceeds(cfg: Config, t: Trail)
    requires cfg.Valid() && TrailOk(cfg, t)
    ensures Restore(t.arrival, Decode(t.arrival).value, t.direction).Ok?
  {
    var v := Decode(t.arrival).value;
    InvertsCarries(cfg, t.origin, v, t.direction);
    RestoreRegions(t.arrival, v, t.direction);
  }

  lemma ForwardSucceeds(cfg: Config, t: Trail)
    requires cfg.Valid() && TrailOk(cfg, t) && Decode(t.arrival).value.ttl > 0
    ensures Forward(t.arrival, Decode(t.arrival).value, t.direction).Ok?
  {
    var v := Decode(t.arrival).value;
    InvertsCarries(cfg, t.origin, v, t.direction);
    ForwardValue(t.arrival, v, t.direction);
  }

  /** The entry as `restore_pending` leaves it: retired unless its pair still forwards. */
  function Retired(p: Pending, forwards: bool): Pending {
    if p.prepared.None? || forwards then p else
      var prepared := p.prepared.value;
      var restored := RestoreForwarded(p.packet.bytes, prepared.view, prepared.direction);
      Pending(p.packet.(bytes := if restored.Ok? then restored.value else p.packet.bytes), prepared.returnPort, true,
        None)
  }

  /** Retirement cannot fail, and returns exactly what a direct return would have. */
  lemma RetiredOk(cfg: Config, named: map<PairId, PairSpec>, p: Pending, t: Trail)
    requires cfg.Valid() && PendingOk(cfg, named, p, t) && p.prepared.Some?
    ensures p.packet.Readable()
    ensures RestoreForwarded(p.packet.bytes, p.prepared.value.view, p.prepared.value.direction).Ok?
    ensures PendingOk(cfg, named, Retired(p, false), t)
  {
    var v := Decode(t.arrival).value;
    InvertsCarries(cfg, t.origin, v, t.direction);
    ForwardThenRestore(t.arrival, t.direction);
    RestoreSucceeds(cfg, t);
  }

  // What the owner's state says about its queue at one moment.

  /** A prepared packet may still be forwarded. */
  predicate Forwards(m: Moment, p: Pending) {
    p.prepared.Some? && IsInstalled(m.pairs, p.prepared.value.pair) && !m.quiescing && !m.faulted
  }

  /** Every packet still prepared may be forwarded. */
  ghost predicate Settled(m: Moment, queue: seq<Pending>) {
    forall i :: 0 <= i < |queue| && queue[i].prepared.Some? ==> Forwards(m, queue[i])
  }

  /** A packet is prepared only under an installed pair. */
  ghost predicate ArmedUnder(pairs: seq<Pair>, queue: seq<Pending>) {
    forall i :: 0 <= i < |queue| && queue[i].prepared.Some? ==> IsInstalled(pairs, queue[i].prepared.value.pair)
  }

  lemma SettledArmed(m: Moment, queue: seq<Pending>)
    requires Settled(m, queue)
    ensures ArmedUnder(m.pairs, queue)
  {
  }

  lemma ArmedGrows(pairs: seq<Pair>, queue: seq<Pending>, queue': seq<Pending>)
    requires ArmedUnder(pairs, queue) && |queue'| == |queue| + 1 && queue <= queue'
    requires queue'[|queue|].prepared.Some? ==> IsInstalled(pairs, queue'[|queue|].prepared.value.pair)
    ensures ArmedUnder(pairs, queue')
  {
  }

  /** A slot that was not installed may change. */
  lemma ArmedElsewhere(pairs: seq<Pair>, pairs': seq<Pair>, queue: seq<Pending>, s: nat)
    requires ArmedUnder(pairs, queue) && s < |pairs| == |pairs'| && pairs' == pairs[s := pairs'[s]]
    requires pairs[s].state != Installed
    ensures ArmedUnder(pairs', queue)
  {
  }

  /** An installed slot may change its records. */
  lemma ArmedRecords(pairs: seq<Pair>, pairs': seq<Pair>, queue: seq<Pending>, s: nat)
    requires ArmedUnder(pairs, queue) && s < |pairs| == |pairs'| && pairs' == pairs[s := pairs'[s]]
    requires pairs'[s].state == pairs[s].state && pairs'[s].generation == pairs[s].generation
    ensures ArmedUnder(pairs', queue)
  {
  }

  /** No queued packet is prepared under the pair. */
  ghost predicate Unprepared(queue: seq<Pending>, id: PairId) {
    forall i :: 0 <= i < |queue| && queue[i].prepared.Some? ==> queue[i].prepared.value.pair != id
  }

  lemma NotInstalledUnprepared(pairs: seq<Pair>, queue: seq<Pending>, id: PairId)
    requires ArmedUnder(pairs, queue) && !IsInstalled(pairs, id)
    ensures Unprepared(queue, id)
  {
  }

  /** The queue as `restore_pending` leaves it. */
  ghost predicate IsRetired(m: Moment, before: seq<Pending>, after: seq<Pending>) {
    |after| == |before| && forall i :: 0 <= i < |after| ==> after[i] == Retired(before[i], Forwards(m, before[i]))
  }

  /** The record of transmitting one entry. */
  ghost function Transmission(m: Moment, p: Pending, t: Trail): Sent {
    Sent(t, p.packet.bytes, p.port, p.kernel, if p.prepared.Some? then Some(p.prepared.value.pair) else None, m)
  }

  /** The records of transmitting the first `n` entries, in order. */
  ghost function Log(m: Moment, queue: seq<Pending>, trails: seq<Trail>, n: nat): (log: seq<Sent>)
    requires n <= |queue| == |trails|
    ensures |log| == n
  {
    if n == 0 then [] else Log(m, queue, trails, n - 1) + [Transmission(m, queue[n - 1], trails[n - 1])]
  }

  lemma LogStarts(m: Moment, queue: seq<Pending>, trails: seq<Trail>, sent: seq<Sent>)
    requires |queue| == |trails|
    ensures sent + Log(m, queue, trails, 0) == sent && queue[0..] == queue && trails[0..] == trails
  {
  }

  // Where every received packet went.

  /** A packet as it was received. */
  datatype Arrival = Arrival(origin: nat, bytes: Bytes) {
    predicate IsGroup() {
      |bytes| >= 14 && bytes[0] % 2 == 1
    }
  }

  /** Everything received so far, and the part of it that was discarded. */
  datatype Ledger = Ledger(arrived: multiset<Arrival>, dropped: multiset<Arrival>)

  ghost predicate Grows(before: Ledger, after: Ledger) {
    before.arrived <= after.arrived && before.dropped <= after.dropped
  }

  ghost function Came(t: Trail): Arrival {
    Arrival(t.origin, t.arrival)
  }

  ghost function Held(r: Received): Arrival {
    Arrival(r.origin, r.packet.bytes)
  }

  ghost function OfSent(sent: seq<Sent>): multiset<Arrival> {
    multiset(seq(|sent|, i requires 0 <= i < |sent| => Came(sent[i].trail)))
  }

  ghost function OfTrails(trails: seq<Trail>): multiset<Arrival> {
    multiset(seq(|trails|, i requires 0 <= i < |trails| => Came(trails[i])))
  }

  ghost function OfReceived(received: seq<Received>): multiset<Arrival> {
    multiset(seq(|received|, i requires 0 <= i < |received| => Held(received[i])))
  }

  ghost function OfKept(kept: Option<Received>): multiset<Arrival> {
    if kept.Some? then multiset{Held(kept.value)} else multiset{}
  }

  /**
    Every packet received was, exactly once, sent, is queued, waits, is kept
    aside, or was discarded as a group frame.
  */
  ghost predicate Accounted(ledger: Ledger, sent: seq<Sent>, trails: seq<Trail>, received: seq<Received>,
                            kept: Option<Received>)
  {
    && ledger.arrived == OfSent(sent) + OfTrails(trails) + OfReceived(received) + OfKept(kept) + ledger.dropped
    && forall a :: a in ledger.dropped ==> a.IsGroup()
  }

  lemma OfSentNext(sent: seq<Sent>, s: Sent)
    ensures OfSent(sent + [s]) == OfSent(sent) + multiset{Came(s.trail)}
  {
    var before := seq(|sent|, i requires 0 <= i < |sent| => Came(sent[i].trail));
    var all := sent + [s];
    assert seq(|all|, i requires 0 <= i < |all| => Came(all[i].trail)) == before + [Came(s.trail)];
  }

  lemma OfTrailsNext(trails: seq<Trail>, t: Trail)
    ensures OfTrails(trails + [t]) == OfTrails(trails) + multiset{Came(t)}
  {
    var before := seq(|trails|, i requires 0 <= i < |trails| => Came(trails[i]));
    var all := trails + [t];
    assert seq(|all|, i requires 0 <= i < |all| => Came(all[i])) == before + [Came(t)];
  }

  lemma OfTrailsFront(trails: seq<Trail>)
    requires trails != []
    ensures OfTrails(trails) == multiset{Came(trails[0])} + OfTrails(trails[1..])
  {
    var rest := trails[1..];
    var after := seq(|rest|, i requires 0 <= i < |rest| => Came(rest[i]));
    assert seq(|trails|, i requires 0 <= i < |trails| => Came(trails[i])) == [Came(trails[0])] + after;
  }

  lemma OfReceivedNext(received: seq<Received>, r: Received)
    ensures OfReceived(received + [r]) == OfReceived(received) + multiset{Held(r)}
  {
    var before := seq(|received|, i requires 0 <= i < |received| => Held(received[i]));
    var all := received + [r];
    assert seq(|all|, i requires 0 <= i < |all| => Held(all[i])) == before + [Held(r)];
  }

  lemma OfReceivedFront(received: seq<Received>)
    requires received != []
    ensures OfReceived(received) == multiset{Held(received[0])} + OfReceived(received[1..])
  {
    var rest := received[1..];
    var after := seq(|rest|, i requires 0 <= i < |rest| => Held(rest[i]));
    assert seq(|received|, i requires 0 <= i < |received| => Held(received[i])) == [Held(received[0])] + after;
  }

  lemma NothingHeld()
    ensures OfReceived([]) == multiset{}
  {
  }

  lemma NothingAccounted()
    ensures Accounted(Ledger(multiset{}, multiset{}), [], [], [], None)
  {
  }

  lemma AccountSent(ledger: Ledger, sent: seq<Sent>, s: Sent, trails: seq<Trail>, received: seq<Received>,
                    kept: Option<Received>)
    requires Accounted(ledger, sent, trails, received, kept) && trails != [] && s.trail == trails[0]
    ensures Accounted(ledger, sent + [s], trails[1..], received, kept)
  {
    OfSentNext(sent, s);
    OfTrailsFront(trails);
  }

  lemma AccountReceived(ledger: Ledger, sent: seq<Sent>, trails: seq<Trail>, received: seq<Received>, r: Received,
                        kept: Option<Received>)
    requires Accounted(ledger, sent, trails, received, kept)
    ensures Accounted(ledger.(arrived := ledger.arrived + multiset{Held(r)}), sent, trails, received + [r], kept)
  {
    OfReceivedNext(received, r);
  }

  /** The front of the waiting packets may be kept aside or, a group frame, discarded. */
  lemma AccountFront(ledger: Ledger, sent: seq<Sent>, trails: seq<Trail>, received: seq<Received>,
                     kept: Option<Received>)
    requires Accounted(ledger, sent, trails, received, kept) && received != []
    ensures kept.None? ==> Accounted(ledger, sent, trails, received[1..], Some(received[0]))
    ensures Held(received[0]).IsGroup() ==>
              var dropped := ledger.dropped + multiset{Held(received[0])};
              Accounted(ledger.(dropped := dropped), sent, trails, received[1..], kept)
  {
    OfReceivedFront(received);
  }

  lemma AccountQueued(ledger: Ledger, sent: seq<Sent>, trails: seq<Trail>, t: Trail, received: seq<Received>,
                      kept: Option<Received>)
    requires Accounted(ledger, sent, trails, received, kept) && received != [] && Came(t) == Held(received[0])
    ensures Accounted(ledger, sent, trails + [t], received[1..], kept)
  {
    OfTrailsNext(trails, t);
    OfReceivedFront(received);
  }

  lemma AccountSame(ledger: Ledger, sent: seq<Sent>, trails: seq<Trail>, received: seq<Received>, r: Received,
                    kept: Option<Received>)
    requires Accounted(ledger, sent, trails, received, kept) && received != [] && Held(r) == Held(received[0])
    ensures Accounted(ledger, sent, trails, received[0 := r], kept)
  {
    OfReceivedFront(received);
    OfReceivedFront(received[0 := r]);
    assert received[0 := r][1..] == received[1..];
  }

  // The calls of the SDK's burst functions, with its answers.

  datatype Burst = Rx(port: nat, requested: nat, returned: nat) | Tx(port: nat, count: nat, accepted: nat)

  /** The longest leading run of at most 32 entries for the front's port. */
  ghost predicate IsBurst(queue: seq<Pending>, count: nat) {
    && 0 < count <= |queue| && count <= 32
    && (forall i :: 0 <= i < count ==> queue[i].port == queue[0].port)
    && (count == |queue| || count == 32 || queue[count].port != queue[0].port)
  }

  /**
    The calls offered the queue to TX burst by burst: each but the last was taken
    whole, and `taken` entries left.
  */
  ghost predicate Offers(queue: seq<Pending>, calls: seq<Burst>, taken: nat) {
    if calls == [] then taken == 0
    else
      var last, rest := calls[|calls| - 1], calls[..|calls| - 1];
      && last.Tx? && Min(last.accepted, last.count) <= taken
      && var before := taken - Min(last.accepted, last.count);
      && Offers(queue, rest, before)
      && (forall i :: 0 <= i < |rest| ==> rest[i].Tx? && rest[i].accepted == rest[i].count)
      && before < |queue| && IsBurst(queue[before..], last.count) && last.port == queue[before].port
  }

  lemma OffersNothing(queue: seq<Pending>)
    ensures Offers(queue, [], 0)
  {
  }

  lemma OffersMore(queue: seq<Pending>, calls: seq<Burst>, before: nat, call: Burst, taken: nat)
    requires before < |queue| && Offers(queue, calls, before)
    requires forall i :: 0 <= i < |calls| ==> calls[i].Tx? && calls[i].accepted == calls[i].count
    requires call.Tx? && IsBurst(queue[before..], call.count) && call.port == queue[before].port
    requires taken == before + Min(call.accepted, call.count)
    ensures Offers(queue, calls + [call], taken)
  {
    assert (calls + [call])[..|calls|] == calls;
  }

  /** The ports that RX was asked on, in order. */
  ghost function Asked(calls: seq<Burst>): seq<nat> {
    if calls == [] then []
    else
      var last := calls[|calls| - 1];
      Asked(calls[..|calls| - 1]) + if last.Rx? then [last.port] else []
  }

  lemma {:induction false} AskedConcat(a: seq<Burst>, b: seq<Burst>)
    ensures Asked(a + b) == Asked(a) + Asked(b)
  {
    if b == [] {
      assert a + b == a;
    } else {
      assert (a + b)[..|a + b| - 1] == a + b[..|b| - 1];
      AskedConcat(a, b[..|b| - 1]);
    }
  }

  lemma {:induction false} OffersAskNothing(queue: seq<Pending>, calls: seq<Burst>, taken: nat)
    requires Offers(queue, calls, taken)
    ensures Asked(calls) == []
  {
    if calls != [] {
      var last := calls[|calls| - 1];
      OffersAskNothing(queue, calls[..|calls| - 1], taken - Min(last.accepted, last.count));
    }
  }

  /** The ports in turn from a cursor on that some origin receives on and that are started. */
  ghost function Turns(cfg: Config, started: seq<bool>, start: nat, n: nat): seq<nat>
    requires cfg.Valid() && |started| == cfg.dataCount
  {
    if n == 0 then []
    else
      var port := Wrapped(start + n - 1, cfg.dataCount);
      Turns(cfg, started, start, n - 1)
      + if started[port] && exists i :: 0 <= i < |cfg.origins| && cfg.origins[i].data == port then [port] else []
  }

  lemma AskedOnce(before: seq<Burst>, call: Burst)
    requires call.Rx?
    ensures Asked((before + [call])[|before|..]) == [call.port]
  {
    assert (before + [call])[|before|..] == [call] && [call][..0] == [];
  }

  lemma AskedThenOffered(before: seq<Burst>, asked: seq<Burst>, queue: seq<Pending>, offers: seq<Burst>, taken: nat)
    requires Offers(queue, offers, taken)
    ensures Asked((before + asked + offers)[|before|..]) == Asked(asked)
  {
    OffersAskNothing(queue, offers, taken);
    AskedConcat(asked, offers);
    assert (before + asked + offers)[|before|..] == asked + offers;
  }

  lemma AskedNext(a: seq<Burst>, b: seq<Burst>, c: seq<Burst>)
    requires a <= b <= c
    ensures Asked(c[|a|..]) == Asked(b[|a|..]) + Asked(c[|b|..])
  {
    assert c[|a|..] == b[|a|..] + c[|b|..];
    AskedConcat(b[|a|..], c[|b|..]);
  }

  lemma NothingAsked(cfg: Config, started: seq<bool>, calls: seq<Burst>, start: nat)
    requires cfg.Valid() && |started| == cfg.dataCount
    ensures Asked(calls[|calls|..]) == [] == Turns(cfg, started, start, 0)
  {
  }

  lemma NextPort(cfg: Config, started: seq<bool>, start: nat, n: nat, port: nat, received: bool)
    requires cfg.Valid() && |started| == cfg.dataCount && port == Wrapped(start + n, cfg.dataCount)
    requires received <==> exists i :: 0 <= i < |cfg.origins| && cfg.origins[i].data == port
    ensures Turns(cfg, started, start, n + 1)
            == Turns(cfg, started, start, n) + if received && started[port] then [port] else []
  {
  }

  // The order in which origins take turns.

  ghost predicate AllFrom(trails: seq<Trail>, origin: nat) {
    forall k :: 0 <= k < |trails| ==> trails[k].origin == origin
  }

  /** Everything sent from one point of the record on was received on one origin. */
  ghost predicate SentFrom(sent: seq<Sent>, from: nat, origin: nat) {
    forall k :: from <= k < |sent| ==> sent[k].trail.origin == origin
  }

  lemma {:induction false} LogFrom(m: Moment, queue: seq<Pending>, trails: seq<Trail>, n: nat, origin: nat,
                                   sent: seq<Sent>)
    requires n <= |queue| == |trails| && AllFrom(trails, origin)
    ensures SentFrom(sent + Log(m, queue, trails, n), |sent|, origin)
  {
    if n > 0 {
      LogFrom(m, queue, trails, n - 1, origin, sent);
      var most, all := sent + Log(m, queue, trails, n - 1), sent + Log(m, queue, trails, n);
      assert all == most + [Transmission(m, queue[n - 1], trails[n - 1])];
    }
  }

  /**
    What was sent from one point of the record on was received on the DATA ports
    in turn: transmission `k` on visit `visits[k]`, counted from a start, with the
    visits in order.
  */
  ghost predicate InTurn(cfg: Config, sent: seq<Sent>, from: nat, start: nat, visits: seq<nat>, bound: nat)
    requires cfg.Valid()
  {
    && from + |visits| == |sent|
    && (forall j, k :: 0 <= j < k < |visits| ==> visits[j] <= visits[k])
    && (forall k :: 0 <= k < |visits| ==>
          visits[k] < bound && IsTurn(cfg, sent[from + k].trail.origin, start + visits[k]))
  }

  /** The origin receives on the DATA port whose turn it is. */
  ghost predicate IsTurn(cfg: Config, origin: nat, turn: nat)
    requires cfg.Valid()
  {
    origin < |cfg.origins| && cfg.origins[origin].data == Wrapped(turn, cfg.dataCount)
  }

  function Wrapped(n: nat, count: nat): (r: nat)
    requires count > 0
    ensures r < count
  {
    n % count
  }

  lemma NothingSent(cfg: Config, sent: seq<Sent>, start: nat)
    requires cfg.Valid()
    ensures InTurn(cfg, sent, |sent|, start, [], 0)
  {
  }

  lemma TurnPasses(cfg: Config, sent: seq<Sent>, from: nat, start: nat, visits: seq<nat>, n: nat)
    requires cfg.Valid() && InTurn(cfg, sent, from, start, visits, n)
    ensures InTurn(cfg, sent, from, start, visits, n + 1)
  {
  }

  lemma NextTurn(cfg: Config, sent: seq<Sent>, sent': seq<Sent>, from: nat, start: nat, visits: seq<nat>, n: nat,
                 origin: nat) returns (visits': seq<nat>)
    requires cfg.Valid() && InTurn(cfg, sent, from, start, visits, n) && sent <= sent'
    requires SentFrom(sent', |sent|, origin) && IsTurn(cfg, origin, start + n)
    ensures InTurn(cfg, sent', from, start, visits', n + 1)
  {
    hide IsTurn;
    visits' := visits + seq(|sent'| - |sent|, _ => n);
    forall k | 0 <= k < |visits'|
      ensures visits'[k] < n + 1 && IsTurn(cfg, sent'[from + k].trail.origin, start + visits'[k])
    {
      if k < |visits| {
        assert sent'[from + k] == sent[from + k];
      }
    }
  }

  /** Whatever the hardware makes of a frame of an accepted direction, the worker can return it under that direction. */
  lemma TranslationInverts(cfg: Config, o: Bytes, t: Trail)
    requires cfg.Valid() && DirectionValid(cfg, t.direction) && t.origin == t.direction.originId
    requires Decode(o).Ok? && BelongsTo(Decode(o).value, t.direction)
    requires IsTranslated(o, t.arrival, Decode(o).value, t.direction)
    ensures TrailOk(cfg, t)
  {
    hide Decode, IsTranslated;
    TranslationCarries(o, t.arrival, t.direction);
  }

  /** What the kernel gets back is the frame before the hardware's rewrite, exactly unless it used the other zero. */
  lemma ReturnedIsOriginal(cfg: Config, named: map<PairId, PairSpec>, s: Sent, o: Bytes)
    requires cfg.Valid() && SentOk(cfg, named, s) && s.kernel
    requires Decode(o).Ok? && BelongsTo(Decode(o).value, s.trail.direction)
    requires IsTranslated(o, s.trail.arrival, Decode(o).value, s.trail.direction)
    ensures s.bytes == o <==> !UsesOtherZero(o, Decode(o).value, s.trail.direction)
    ensures WithOtherZero(o, s.bytes, Decode(o).value, s.trail.direction)
  {
    hide Decode, Restore, IsTranslated, WithOtherZero, UsesOtherZero, BelongsTo;
    RestoreInvertsNat(o, s.trail.arrival, s.trail.direction);
  }
}
