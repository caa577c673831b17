/**
  A restart across two processes. The first leaves its routes behind with
  `StopRetaining`; the second records them with `KeepRoutes`, starts and connects.
  A prefix the peer sends again before the retention ends is never missing from
  any table, and one it does not send again is gone once the retention ends.
*/
module HitlessRestart {
  import opened Wire
  import opened Routes
  import opened SessionPolicy
  import opened BgpSession

  /** The session may change state as it likes until it is established; from then on it is not lost. */
  ghost predicate NotLost(events: seq<Event>) {
    forall i, j :: 0 <= i < j < |events| && events[i] == Peer(true) ==> events[j] != Peer(false)
  }

  /**
    An event that neither ends the retention nor takes the prefix away: the
    marker ends it unless its listing fails, and of all timers only the first
    deadline's does.
  */
  ghost predicate Gentle(e: Event, q: Prefix) {
    match e
    case Best(paths) => Spared(paths, q)
    case Eor(listed) => listed.None?
    case Timer(fired, _) => fired != 1
    case SweepTables(_) => false
    case Halt => false
    case _ => true
  }

  /** Once the prefix is accepted, the retention may end and the tables may be swept. */
  ghost predicate GentleLate(e: Event, q: Prefix) {
    Gentle(e, q) || e.Eor? || e.Timer? || e.SweepTables?
  }

  /**
    The event tells the session that the peer sent the prefix again: a reported
    path, or the listing read when the End-of-RIB marker comes or the first
    deadline timer fires.
  */
  ghost predicate Resends(e: Event, q: Prefix) {
    match e
    case Best(paths) => Spared(paths, q) && !Silent(paths, q)
    case Eor(listed) => listed.Some? && Lists(listed.value, q)
    case Timer(fired, listed) => fired == 1 && listed.Some? && Lists(listed.value, q)
    case _ => false
  }

  method GentleStep(s: Session, e: Event, q: Prefix)
    requires s.Valid() && s.started && s.retaining && s.generation == 1 && Gentle(e, q)
    requires s.established ==> e != Peer(false)
    modifies s, s.fib, s.fib.kernel
    ensures s.Valid() && s.started && s.retaining && s.fib.Continues() && s.generation == 1
    ensures s.established == if e.Peer? then e.up else old(s.established)
    ensures Steady(old(s.K()), s.K(), old(s.B()), s.B(), q)
  {
    s.ValidKernel();
    match e
    case Peer(up) =>
      var failing: set<Prefix> := *;
      s.PeerEvent(up, failing);
    case Best(paths) => s.BestPaths(paths);
    case Eor(listed) => s.EndOfRib(listed);
    case Timer(fired, listed) => s.Deadline(fired, listed);
    case Refresh(listable, unresolvable) => s.RefreshRoutes(listable, unresolvable);
    case Advertise(eligible, backup, failing) =>
      var ok := s.SetAdvertisement(eligible, backup, failing);
    case Keep(listable) =>
      var ok := s.KeepRoutes(listable);
    case StartUp(runs) =>
      var ok := s.Start(runs);
    case Dial(added) =>
      var ok := s.Connect(added);
  }

  /** The event after which the prefix is accepted, or its installation was refused. */
  method ResendStep(s: Session, e: Event, q: Prefix)
    requires s.Valid() && s.started && s.retaining && s.generation == 1 && Resends(e, q) && Importable(s.policy, q)
    modifies s, s.fib, s.fib.kernel
    ensures s.Valid() && s.started && s.fib.Continues() && s.established == old(s.established)
    ensures Resent(old(s.K()), s.K(), old(s.B()), s.B(), q)
  {
    hide Importable, Lists;
    match e
    case Best(paths) => s.BestPaths(paths);
    case Eor(listed) => s.EndOfRib(listed);
    case Timer(fired, listed) => s.Deadline(fired, listed);
  }

  method LateStep(s: Session, e: Event, q: Prefix)
    requires s.Valid() && s.started && GentleLate(e, q) && (s.established ==> e != Peer(false))
    modifies s, s.fib, s.fib.kernel
    ensures s.Valid() && s.started && s.fib.Continues()
    ensures s.established == if e.Peer? then e.up else old(s.established)
    ensures SteadyAccepted(old(s.K()), s.K(), old(s.B()), s.B(), q)
  {
    s.ValidKernel();
    match e
    case Peer(up) =>
      var failing: set<Prefix> := *;
      s.PeerEvent(up, failing);
    case Best(paths) => s.BestPaths(paths);
    case Eor(listed) => s.EndOfRib(listed);
    case Timer(fired, listed) => s.Deadline(fired, listed);
    case Refresh(listable, unresolvable) => s.RefreshRoutes(listable, unresolvable);
    case SweepTables(listable) =>
      var ok := s.Sweep(listable);
    case Advertise(eligible, backup, failing) =>
      var ok := s.SetAdvertisement(eligible, backup, failing);
    case Keep(listable) =>
      var ok := s.KeepRoutes(listable);
    case StartUp(runs) =>
      var ok := s.Start(runs);
    case Dial(added) =>
      var ok := s.Connect(added);
  }

  /** What a new process meets: whether the tables can be listed, the server runs and the peer is added. */
  datatype Startup = Startup(listable: bool, runs: bool, added: bool)

  /** The new process, before any event: the old routes are recorded and the server runs. */
  method Takeover(policy: Policy, peer: nat, kernel: Kernel, start: Startup) returns (s: Session, ok: bool)
    requires kernel.Valid()
    ensures policy.restartSeconds > 0 && start.listable && start.runs ==> ok
    ensures fresh(s) && fresh(s.fib) && s.fib.kernel == kernel && s.policy == policy && s.Valid()
    ensures ok ==> s.started && s.retaining && s.generation == 1 && !s.established
    ensures ok ==> s.strays == {} && s.accepted == map[] && s.unresolved == map[]
    ensures ok ==> forall t, p :: t in policy.tables && Route(t, p) in kernel.routes ==> p in s.retained
  {
    s := new Session(policy, peer, kernel);
    ok := s.KeepRoutes(start.listable);
    if ok {
      ok := s.Start(start.runs);
    }
    if ok {
      var dialled := s.Connect(start.added);
    }
  }

  /** Events while the routes are retained. */
  method RunEarly(s: Session, events: seq<Event>, q: Prefix)
    requires s.Valid() && s.started && s.retaining && s.generation == 1 && !s.established && NotLost(events)
    requires forall i :: 0 <= i < |events| ==> Gentle(events[i], q)
    modifies s, s.fib, s.fib.kernel
    ensures s.Valid() && s.started && s.retaining && s.fib.Continues() && s.generation == 1
    ensures s.established ==> Peer(true) in events
    ensures Steady(old(s.K()), s.K(), old(s.B()), s.B(), q)
  {
    hide Steady, Gentle;
    s.ValidKernel();
    ghost var k, b := s.K(), s.B();
    UnchangedSteady(k, b);
    for n := 0 to |events|
      invariant s.Valid() && s.started && s.retaining && s.fib.Continues() && s.generation == 1
      invariant s.established ==> exists i :: 0 <= i < n && events[i] == Peer(true)
      invariant Steady(k, s.K(), b, s.B(), q)
    {
      ghost var k1, b1 := s.K(), s.B();
      GentleStep(s, events[n], q);
      SteadyNext(k, k1, s.K(), b, b1, s.B(), q);
    }
  }

  /** Events after the prefix was sent again; the retention may end among them. */
  method RunLate(s: Session, events: seq<Event>, q: Prefix)
    requires s.Valid() && s.started && NotLost(events) && (s.established ==> Peer(false) !in events)
    requires forall i :: 0 <= i < |events| ==> GentleLate(events[i], q)
    modifies s, s.fib, s.fib.kernel
    ensures s.Valid() && s.fib.Continues() && SteadyAccepted(old(s.K()), s.K(), old(s.B()), s.B(), q)
  {
    hide Steady, SteadyAccepted, GentleLate;
    s.ValidKernel();
    ghost var k, b := s.K(), s.B();
    UnchangedSteady(k, b);
    for n := 0 to |events|
      invariant s.Valid() && s.started && s.fib.Continues() && SteadyAccepted(k, s.K(), b, s.B(), q)
      invariant s.established ==> forall i :: n <= i < |events| ==> events[i] != Peer(false)
    {
      ghost var k1, b1 := s.K(), s.B();
      LateStep(s, events[n], q);
      StaysAccepted(k, k1, s.K(), b, b1, s.B(), q);
    }
  }

  /**
    A prefix accepted before the restart and sent again before the retention
    ends, or at the latest with the listing that ends it, is in every owned table
    in every state the tables ever had since, unless the kernel refused its
    installation. The peer may connect as it likes until the session is
    established; from then on it is not lost.
  */
  method Restart(before: Session, peer: nat, start: Startup, early: seq<Event>, resend: Event, late: seq<Event>,
                 q: Prefix)
    returns (after: Session, ok: bool)
    requires before.Valid() && before.started && before.policy.restartSeconds > 0
    requires before.K().clean && q in before.accepted && Importable(before.policy, q)
    requires (forall i :: 0 <= i < |early| ==> Gentle(early[i], q)) && Resends(resend, q)
    requires (forall i :: 0 <= i < |late| ==> GentleLate(late[i], q)) && NotLost(early + [resend] + late)
    modifies before, before.fib.kernel
    ensures after.Valid() && after.fib.kernel == before.fib.kernel
    ensures before.fib.kernel.history != [] && before.fib.kernel.history[0] == old(before.fib.kernel.routes)
    ensures ok && q !in after.K().refused ==>
              && q in after.accepted
              && forall i :: 0 <= i < |before.fib.kernel.history| ==>
                   InAll(before.fib.kernel.history[i], before.policy.tables, q)
  {
    hide Steady, SteadyAccepted, Resent, Importable, Gentle, GentleLate, Resends, NotLost;
    NotLostParts(early, resend, late);
    var kernel := before.fib.kernel;
    var policy := before.policy;
    kernel.Mark();
    assert InAll(kernel.routes, policy.tables, q);
    var stopped := before.StopRetaining();
    after, ok := Takeover(policy, peer, kernel, start);
    if ok {
      ghost var k, b := after.K(), after.B();
      RunEarly(after, early, q);
      ghost var k1, b1 := after.K(), after.B();
      ResendStep(after, resend, q);
      ghost var k2, b2 := after.K(), after.B();
      RunLate(after, late, q);
      Hitless(k, k1, k2, after.K(), b, b1, b2, after.B(), q);
      if q !in after.K().refused {
        Unbroken(kernel, policy.tables, q);
      }
    }
  }

  lemma NotLostParts(early: seq<Event>, resend: Event, late: seq<Event>)
    requires NotLost(early + [resend] + late)
    ensures NotLost(early) && NotLost(late) && (Peer(true) in early ==> Peer(false) !in late)
  {
    var events := early + [resend] + late;
    assert forall i :: 0 <= i < |early| ==> events[i] == early[i];
    assert forall i :: 0 <= i < |late| ==> events[|early| + 1 + i] == late[i];
  }

  lemma StaysAccepted(k: Tables, k1: Tables, k2: Tables, b: Book, b1: Book, b2: Book, q: Prefix)
    requires SteadyAccepted(k, k1, b, b1, q) && SteadyAccepted(k1, k2, b1, b2, q)
    ensures SteadyAccepted(k, k2, b, b2, q)
  {
  }

  lemma Hitless(k: Tables, k1: Tables, k2: Tables, k3: Tables, b: Book, b1: Book, b2: Book, b3: Book, q: Prefix)
    requires Steady(k, k1, b, b1, q) && Resent(k1, k2, b1, b2, q) && SteadyAccepted(k2, k3, b2, b3, q) && q !in k.lost
    ensures q !in k3.refused ==> q in b3.accepted && q !in k3.lost
  {
  }

  /** A prefix that lost nothing since the mark has been in every table all along. */
  lemma Unbroken(kernel: Kernel, tables: seq<nat>, q: Prefix)
    requires kernel.Valid() && q !in kernel.lost && InAll(kernel.history[0], tables, q)
    ensures forall i :: 0 <= i < |kernel.history| ==> InAll(kernel.history[i], tables, q)
  {
  }

  // The prefixes that do not come back.

  /** The event does not announce the prefix, and the process goes on. */
  ghost predicate Mute(e: Event, q: Prefix) {
    match e
    case Best(paths) => Silent(paths, q)
    case Eor(listed) => listed.Some? ==> Silent(listed.value, q)
    case Timer(_, listed) => listed.Some? ==> Silent(listed.value, q)
    case Halt => false
    case _ => true
  }

  /** The prefix is neither accepted nor waiting; out of retention and with a clean kernel it is not retained. */
  ghost predicate Forsaken(s: Session, q: Prefix)
    reads s, s.fib.kernel
  {
    q !in s.accepted && q !in s.unresolved && s.strays == {} && (!s.retaining && s.K().clean ==> q !in s.retained)
  }

  method MuteStep(s: Session, e: Event, q: Prefix)
    requires s.Valid() && s.started && Forsaken(s, q) && Mute(e, q)
    modifies s, s.fib, s.fib.kernel
    ensures s.Valid() && s.started && Forsaken(s, q) && s.fib.Continues()
    ensures (e.Eor? && e.listed.Some?) || (e.Timer? && e.fired == s.generation) ==> !s.retaining
  {
    hide Steady, SteadyAccepted, Importable;
    s.ValidKernel();
    ghost var b := s.B();
    match e
    case Peer(up) =>
      var failing: set<Prefix> := *;
      s.PeerEvent(up, failing);
      assert Unheard(b, s.B(), q);
    case Best(paths) =>
      s.BestPaths(paths);
      assert Unheard(b, s.B(), q);
    case Eor(listed) =>
      s.EndOfRib(listed);
      assert Unheard(b, s.B(), q);
    case Timer(fired, listed) =>
      s.Deadline(fired, listed);
      assert Unheard(b, s.B(), q);
    case Refresh(listable, unresolvable) =>
      s.RefreshRoutes(listable, unresolvable);
      assert Unheard(b, s.B(), q);
    case SweepTables(listable) =>
      var ok := s.Sweep(listable);
    case Advertise(eligible, backup, failing) =>
      var ok := s.SetAdvertisement(eligible, backup, failing);
    case Keep(listable) =>
      var ok := s.KeepRoutes(listable);
    case StartUp(runs) =>
      var ok := s.Start(runs);
    case Dial(added) =>
      var ok := s.Connect(added);
  }

  /**
    A prefix the new process never hears of is gone from every owned table once
    the peer's End-of-RIB marker was handled with a listing, or the deadline
    fired, provided the kernel stayed clean.
  */
  method Forsake(policy: Policy, peer: nat, kernel: Kernel, start: Startup, events: seq<Event>, last: Event, q: Prefix)
    returns (s: Session, ok: bool)
    requires kernel.Valid() && forall i :: 0 <= i < |events| ==> Mute(events[i], q)
    requires Mute(last, q) && ((last.Eor? && last.listed.Some?) || last.Timer?)
    modifies kernel
    ensures s.Valid() && s.fib.kernel == kernel
    ensures ok && (last.Timer? ==> last.fired == s.generation) && kernel.clean ==>
            InNone(kernel.routes, policy.tables, q)
  {
    hide Mute, Silent;
    s, ok := Takeover(policy, peer, kernel, start);
    if !ok {
      return;
    }
    for n := 0 to |events|
      invariant s.Valid() && s.started && Forsaken(s, q)
      invariant fresh(s) && fresh(s.fib) && s.fib.kernel == kernel && s.policy == policy
    {
      MuteStep(s, events[n], q);
    }
    MuteStep(s, last, q);
    if kernel.clean && !s.retaining {
      Gone(s, q);
    }
  }

  lemma Gone(s: Session, q: Prefix)
    requires s.Valid() && Forsaken(s, q) && s.K().clean && !s.retaining
    ensures InNone(s.K().routes, s.policy.tables, q)
  {
    forall t | t in s.policy.tables ensures Route(t, q) !in s.K().routes {
      var r := Route(t, q);
      assert r.table == t && r.prefix == q;
    }
  }
}
