/**
  One external BGP session with graceful restart (section 4.1 of RFC 4724), over
  its route installer. GoBGP is an arbitrary source of events, and the kernel
  may refuse any write, deletion or listing.
*/
module BgpSession {
  import opened Wire
  import opened Routes
  import opened SessionPolicy

  const MAX_REJECTIONS: nat := 32

  datatype Rejection = Rejection(prefix: Prefix, reason: Reason)

  /** A best path as GoBGP reports it; `prefix` is absent when it is not an IPv6 unicast prefix of the peer. */
  datatype Path = Path(prefix: Option<Prefix>, withdrawal: bool, stale: bool, best: bool, hop: Option<Hop>)

  /** The session's prefixes: installed, waiting for installation, and kept from the previous process. */
  datatype Book = Book(accepted: map<Prefix, Hop>, unresolved: map<Prefix, Hop>, retained: set<Prefix>)

  function Accepted(b: Book, p: Prefix, hop: Hop): Book {
    Book(b.accepted[p := hop], b.unresolved - {p}, b.retained - {p})
  }

  function NotInstallable(b: Book, p: Prefix, hop: Hop): Book {
    b.(accepted := b.accepted - {p}, unresolved := b.unresolved[p := hop])
  }

  /** A withdrawal; a retained prefix stays when its deletion failed. */
  function Withdrawn(b: Book, p: Prefix, deleted: bool): Book {
    Book(b.accepted - {p}, b.unresolved - {p}, if deleted then b.retained - {p} else b.retained)
  }

  // The invariants.

  /** The installer wants exactly the accepted prefixes, with their next hops. */
  ghost predicate Mirrors(desired: map<Prefix, Desired>, accepted: map<Prefix, Hop>, peer: nat) {
    desired.Keys == accepted.Keys && forall p :: p in accepted ==> desired[p] == Desired(peer, accepted[p])
  }

  ghost predicate Separate(policy: Policy, b: Book) {
    && b.accepted.Keys !! b.unresolved.Keys && b.accepted.Keys !! b.retained
    && (forall p :: p in b.accepted || p in b.unresolved ==> !Exports(policy, p))
  }

  /**
    While the kernel is clean, every accepted prefix is in every owned table and
    every route there is accepted, retained, or a stray of an earlier process.
  */
  ghost predicate Complete(tables: seq<nat>, k: Tables, b: Book, strays: set<Prefix>) {
    k.clean ==>
      && (forall p :: p in b.accepted ==> InAll(k.routes, tables, p))
      && (forall r :: r in k.routes && r.table in tables ==>
            r.prefix in b.accepted || r.prefix in b.retained || r.prefix in strays)
  }

  lemma AcceptComplete(tables: seq<nat>, k: Tables, k': Tables, b: Book, strays: set<Prefix>, p: Prefix, hop: Hop)
    requires Complete(tables, k, b, strays) && Installs(k, k', tables, p, true)
    ensures Complete(tables, k', Accepted(b, p, hop), strays)
  {
  }

  lemma WithdrawComplete(tables: seq<nat>, k: Tables, k': Tables, b: Book, strays: set<Prefix>, p: Prefix, ok: bool)
    requires Complete(tables, k, b, strays) && Deletes(k, k', tables, {p}, ok)
    ensures Complete(tables, k', Withdrawn(b, p, ok), strays)
  {
    assert k'.clean ==> InNone(k'.routes, tables, p);
  }

  lemma FailComplete(tables: seq<nat>, k: Tables, k1: Tables, k2: Tables, b: Book, strays: set<Prefix>, p: Prefix,
                     hop: Hop, ok: bool)
    requires Complete(tables, k, b, strays) && Installs(k, k1, tables, p, false) && Deletes(k1, k2, tables, {p}, ok)
    ensures Complete(tables, k2, NotInstallable(b, p, hop), strays)
  {
    assert k2.clean ==> InNone(k2.routes, tables, p);
  }

  lemma GiveUpRoutes(tables: seq<nat>, k: Tables, k': Tables, b: Book, strays: set<Prefix>, p: Prefix, ok: bool)
    requires Complete(tables, k, b, strays) && Deletes(k, k', tables, {p}, ok)
    ensures Complete(tables, k', b.(accepted := b.accepted - {p}), strays)
  {
    assert k'.clean ==> InNone(k'.routes, tables, p);
  }

  lemma GiveUpComplete(tables: seq<nat>, k: Tables, k': Tables, b: Book, strays: set<Prefix>, p: Prefix, hop: Hop,
                       ok: bool)
    requires Complete(tables, k, b, strays) && Deletes(k, k', tables, {p}, ok)
    ensures Complete(tables, k', NotInstallable(b, p, hop), strays)
  {
    assert k'.clean ==> InNone(k'.routes, tables, p);
  }

  lemma DropComplete(tables: seq<nat>, k: Tables, k': Tables, b: Book, strays: set<Prefix>, left: set<Prefix>, ok: bool)
    requires Complete(tables, k, b, strays) && Deletes(k, k', tables, b.retained, ok) && b.accepted.Keys !! b.retained
    requires left <= b.retained && (ok ==> left == {})
    ensures Complete(tables, k', b.(retained := left), strays)
  {
    if k'.clean {
      forall p | p in b.accepted ensures InAll(k'.routes, tables, p) {
        assert InAll(k.routes, tables, p);
      }
      assert forall p :: p in b.retained ==> InNone(k'.routes, tables, p);
    }
  }

  /** Losing every accepted and retained prefix leaves strays only. */
  lemma EmptyComplete(tables: seq<nat>, k: Tables, k': Tables, b: Book, strays: set<Prefix>, ok: bool)
    requires Complete(tables, k, b, strays) && Deletes(k, k', tables, b.accepted.Keys, ok)
    ensures Complete(tables, k', Book(map[], map[], b.retained), strays)
  {
    if k'.clean {
      assert forall p :: p in b.accepted ==> InNone(k'.routes, tables, p);
    }
  }

  lemma RefreshComplete(tables: seq<nat>, k: Tables, k': Tables, b: Book, strays: set<Prefix>)
    requires Complete(tables, k, b, strays) && Writes(k, k', b.accepted.Keys)
    ensures Complete(tables, k', b, strays)
  {
    if k'.clean {
      forall p | p in b.accepted ensures InAll(k'.routes, tables, p) {
        assert InAll(k.routes, tables, p);
      }
    }
  }

  lemma SweepComplete(tables: seq<nat>, k: Tables, k': Tables, b: Book, extra: set<Prefix>, swept: set<Prefix>,
                      ok: bool)
    requires Complete(tables, k, b, extra) && Sweeps(k, k', swept, ok) && swept !! b.accepted.Keys
    ensures Complete(tables, k', b, extra)
  {
    if k'.clean {
      forall p | p in b.accepted ensures InAll(k'.routes, tables, p) {
        assert InAll(k.routes, tables, p);
      }
    }
  }

  lemma RecordedComplete(tables: seq<nat>, k: Tables, b: Book, before: set<Prefix>, installed: set<Prefix>)
    requires Complete(tables, k, b, before)
    requires forall p :: p in installed <==> exists t :: t in tables && Route(t, p) in k.routes
    ensures Complete(tables, k, b.(retained := b.retained + installed), {})
  {
    forall r | r in k.routes && r.table in tables ensures r.prefix in installed {
      assert Route(r.table, r.prefix) == r;
    }
  }

  // What a step does to one prefix.

  /** A prefix whose installation was not refused meanwhile kept its place and lost no route. */
  ghost predicate Steady(k: Tables, k': Tables, b: Book, b': Book, q: Prefix) {
    && k.refused <= k'.refused
    && (!Refused(k, k', q) ==>
          && (q in b.accepted ==> q in b'.accepted)
          && (q in b.retained ==> q in b'.retained || q in b'.accepted)
          && (q in k'.lost ==> q in k.lost))
  }

  /** As `Steady`, for accepted prefixes only. */
  ghost predicate SteadyAccepted(k: Tables, k': Tables, b: Book, b': Book, q: Prefix) {
    k.refused <= k'.refused
    && (!Refused(k, k', q) && q in b.accepted ==> q in b'.accepted && (q in k'.lost ==> q in k.lost))
  }

  /** A prefix that was neither accepted nor waiting still is neither, and none becomes retained. */
  ghost predicate Unheard(b: Book, b': Book, q: Prefix) {
    && (q in b'.accepted || q in b'.unresolved ==> q in b.accepted || q in b.unresolved)
    && (q in b'.retained ==> q in b.retained)
  }

  lemma AcceptSteady(tables: seq<nat>, k: Tables, k': Tables, b: Book, p: Prefix, hop: Hop)
    requires Installs(k, k', tables, p, true)
    ensures forall q :: Steady(k, k', b, Accepted(b, p, hop), q)
    ensures forall q :: q != p ==> Unheard(b, Accepted(b, p, hop), q) && Untouched(k, k', b, Accepted(b, p, hop), q)
    ensures k.refused <= k'.refused && (k'.clean ==> k.clean)
  {
  }

  lemma FailSteady(tables: seq<nat>, k: Tables, k1: Tables, k2: Tables, b: Book, p: Prefix, hop: Hop, ok: bool)
    requires Installs(k, k1, tables, p, false) && Deletes(k1, k2, tables, {p}, ok)
    ensures Refused(k, k2, p) && forall q :: Steady(k, k2, b, NotInstallable(b, p, hop), q)
    ensures forall q :: q != p ==>
              Unheard(b, NotInstallable(b, p, hop), q) && Untouched(k, k2, b, NotInstallable(b, p, hop), q)
    ensures k.refused <= k2.refused && (k2.clean ==> k.clean)
  {
  }

  lemma GiveUpSteady(tables: seq<nat>, k0: Tables, k: Tables, k': Tables, b0: Book, b: Book, p: Prefix, hop: Hop,
                     ok: bool)
    requires (forall q :: Steady(k0, k, b0, b, q)) && Refused(k0, k, p) && Deletes(k, k', tables, {p}, ok)
    ensures forall q :: Steady(k0, k', b0, NotInstallable(b, p, hop), q)
  {
    forall q ensures Steady(k0, k', b0, NotInstallable(b, p, hop), q) {
      assert Steady(k0, k, b0, b, q);
    }
  }

  lemma WithdrawnElsewhere(k: Tables, k': Tables, b: Book, b': Book, p: Prefix)
    requires Only(k, k', {p}) && b'.unresolved == b.unresolved - {p}
    requires b'.accepted == b.accepted || b'.accepted == b.accepted - {p}
    requires b'.retained == b.retained || b'.retained == b.retained - {p}
    ensures forall q :: q != p ==> Untouched(k, k', b, b', q)
  {
  }

  lemma AcceptBook(policy: Policy, desired: map<Prefix, Desired>, b: Book, peer: nat, p: Prefix, hop: Hop)
    requires Mirrors(desired, b.accepted, peer) && Separate(policy, b) && !Exports(policy, p)
    ensures Mirrors(desired[p := Desired(peer, hop)], Accepted(b, p, hop).accepted, peer)
    ensures Separate(policy, Accepted(b, p, hop))
  {
  }

  lemma FailBook(policy: Policy, desired: map<Prefix, Desired>, b: Book, peer: nat, p: Prefix, hop: Hop)
    requires Mirrors(desired, b.accepted, peer) && Separate(policy, b) && !Exports(policy, p)
    ensures Mirrors(desired[p := Desired(peer, hop)] - {p}, NotInstallable(b, p, hop).accepted, peer)
    ensures Separate(policy, NotInstallable(b, p, hop))
  {
  }

  lemma MirrorsPeer(desired: map<Prefix, Desired>, accepted: map<Prefix, Hop>, peer: nat)
    requires Mirrors(desired, accepted, peer)
    ensures (set p | p in desired && desired[p].peer == peer) == accepted.Keys
  {
  }

  lemma SteadyThen(k: Tables, k1: Tables, k2: Tables, b: Book, b1: Book, b2: Book)
    requires forall q :: Steady(k, k1, b, b1, q)
    requires forall q :: SteadyAccepted(k1, k2, b1, b2, q)
    ensures forall q :: SteadyAccepted(k, k2, b, b2, q)
  {
    forall q ensures SteadyAccepted(k, k2, b, b2, q) {
      assert Steady(k, k1, b, b1, q) && SteadyAccepted(k1, k2, b1, b2, q);
    }
  }

  lemma SteadyIsAccepted(k: Tables, k': Tables, b: Book, b': Book)
    requires forall q :: Steady(k, k', b, b', q)
    ensures forall q :: SteadyAccepted(k, k', b, b', q)
  {
    forall q ensures SteadyAccepted(k, k', b, b', q) {
      assert Steady(k, k', b, b', q);
    }
  }

  lemma UnchangedSteady(k: Tables, b: Book)
    ensures forall q :: Steady(k, k, b, b, q) && SteadyAccepted(k, k, b, b, q)
  {
  }

  lemma SteadyNext(k: Tables, k1: Tables, k2: Tables, b: Book, b1: Book, b2: Book, q: Prefix)
    requires Steady(k, k1, b, b1, q) && Steady(k1, k2, b1, b2, q)
    ensures Steady(k, k2, b, b2, q)
    ensures q in b1.accepted || Refused(k, k1, q) ==> q in b2.accepted || Refused(k, k2, q)
  {
  }

  lemma UnheardAll(b: Book, b1: Book, b2: Book)
    requires forall q :: Unheard(b, b1, q)
    requires forall q :: Unheard(b1, b2, q)
    ensures forall q :: Unheard(b, b2, q)
  {
    forall q ensures Unheard(b, b2, q) {
      assert Unheard(b, b1, q) && Unheard(b1, b2, q);
    }
  }

  lemma SteadyAll(k: Tables, k1: Tables, k2: Tables, b: Book, b1: Book, b2: Book)
    requires forall q :: Steady(k, k1, b, b1, q)
    requires forall q :: Steady(k1, k2, b1, b2, q)
    ensures forall q :: Steady(k, k2, b, b2, q)
  {
    forall q ensures Steady(k, k2, b, b2, q) {
      SteadyNext(k, k1, k2, b, b1, b2, q);
    }
  }

  lemma SteadyAfter(k: Tables, k1: Tables, k2: Tables, b: Book, b1: Book, b2: Book)
    requires forall q :: SteadyAccepted(k, k1, b, b1, q)
    requires forall q :: Steady(k1, k2, b1, b2, q)
    ensures forall q :: SteadyAccepted(k, k2, b, b2, q)
  {
    forall q ensures SteadyAccepted(k, k2, b, b2, q) {
      assert SteadyAccepted(k, k1, b, b1, q) && Steady(k1, k2, b1, b2, q);
    }
  }

  /** Path `path` announces prefix `q` with a next hop. */
  predicate Announces(path: Path, q: Prefix) {
    path.prefix == Some(q) && !path.withdrawal && !path.stale && path.hop.Some?
  }

  /** Path `path` announces prefix `q` without a next hop. */
  predicate IsBare(path: Path, q: Prefix) {
    path.prefix == Some(q) && !path.withdrawal && !path.stale && path.hop.None?
  }

  predicate Withdraws(path: Path, q: Prefix) {
    path.prefix == Some(q) && path.withdrawal
  }

  /** The path decides what becomes of the prefix: it withdraws it, or announces it and may be imported. */
  ghost predicate Moves(policy: Policy, path: Path, q: Prefix) {
    Withdraws(path, q) || (Announces(path, q) && Importable(policy, q))
  }

  ghost predicate SameEntry(b: Book, b': Book, q: Prefix) {
    && (q in b.accepted <==> q in b'.accepted) && (q in b.accepted ==> b'.accepted[q] == b.accepted[q])
    && (q in b.unresolved <==> q in b'.unresolved) && (q in b.unresolved ==> b'.unresolved[q] == b.unresolved[q])
  }

  /** Nothing happened to the prefix. */
  ghost predicate Untouched(k: Tables, k': Tables, b: Book, b': Book, q: Prefix) {
    && SameEntry(b, b', q) && (q in b.retained <==> q in b'.retained)
    && k'.refused[q] == k.refused[q] && (forall t :: Route(t, q) in k.routes <==> Route(t, q) in k'.routes)
  }

  /**
    What a deciding path leaves of its prefix: nothing in the book, unless a
    retained route could not be deleted; or the announced next hop, accepted or
    waiting because the installation was refused.
  */
  ghost predicate Decided(path: Path, q: Prefix, k: Tables, k': Tables, b': Book)
    requires Withdraws(path, q) || Announces(path, q)
  {
    if path.withdrawal then q !in b'.accepted && q !in b'.unresolved && (k'.clean ==> q !in b'.retained)
    else
      || (q in b'.accepted && b'.accepted[q] == path.hop.value && q !in b'.unresolved && q !in b'.retained)
      || (&& q !in b'.accepted && q in b'.unresolved && b'.unresolved[q] == path.hop.value && Refused(k, k', q))
  }

  /** The last deciding path decides; without one the book's entry is as it was. */
  ghost predicate Follows(policy: Policy, paths: seq<Path>, q: Prefix, k: Tables, k': Tables, b: Book, b': Book) {
    if paths == [] then SameEntry(b, b', q)
    else
      var last := paths[|paths| - 1];
      if Moves(policy, last, q) then Decided(last, q, k, k', b')
      else Follows(policy, paths[..|paths| - 1], q, k, k', b, b')
  }

  /** No path decides on the prefix. */
  ghost predicate Unmoved(policy: Policy, paths: seq<Path>, q: Prefix) {
    forall i :: 0 <= i < |paths| ==> !Moves(policy, paths[i], q)
  }

  /** What the paths decided stays while the prefix's entry does. */
  lemma {:induction false} FollowsStill(policy: Policy, paths: seq<Path>, q: Prefix, k: Tables, k1: Tables, k2: Tables,
                                        b: Book, b1: Book, b2: Book)
    requires Follows(policy, paths, q, k, k1, b, b1) && SameEntry(b1, b2, q) && (q in b2.retained ==> q in b1.retained)
    requires k1.refused <= k2.refused && (k2.clean ==> k1.clean)
    ensures Follows(policy, paths, q, k, k2, b, b2)
  {
    hide Moves;
    if paths != [] && !Moves(policy, paths[|paths| - 1], q) {
      FollowsStill(policy, paths[..|paths| - 1], q, k, k1, k2, b, b1, b2);
    }
  }

  /** One more path. */
  lemma FollowsNext(policy: Policy, paths: seq<Path>, n: nat, q: Prefix, k: Tables, k1: Tables, k2: Tables, b: Book,
                    b1: Book, b2: Book)
    requires n < |paths| && k.refused <= k1.refused <= k2.refused && (k2.clean ==> k1.clean)
    requires Follows(policy, paths[..n], q, k, k1, b, b1)
    requires Unmoved(policy, paths[..n], q) ==> Untouched(k, k1, b, b1, q)
    requires if Moves(policy, paths[n], q) then Decided(paths[n], q, k1, k2, b2) else Untouched(k1, k2, b1, b2, q)
    ensures Follows(policy, paths[..n + 1], q, k, k2, b, b2)
    ensures Unmoved(policy, paths[..n + 1], q) ==> Untouched(k, k2, b, b2, q)
  {
    hide Moves;
    var more := paths[..n + 1];
    assert more[..n] == paths[..n] && more[n] == paths[n];
    if !Moves(policy, paths[n], q) {
      FollowsStill(policy, paths[..n], q, k, k1, k2, b, b1, b2);
    }
  }

  /** No path announces the prefix, or none withdraws it. */
  ghost predicate Silent(paths: seq<Path>, q: Prefix) {
    forall i :: 0 <= i < |paths| ==> !Announces(paths[i], q)
  }

  ghost predicate Spared(paths: seq<Path>, q: Prefix) {
    forall i :: 0 <= i < |paths| ==> !Withdraws(paths[i], q)
  }

  /** The listing has a current best path for the prefix. */
  ghost predicate Lists(listed: seq<Path>, q: Prefix) {
    exists i :: 0 <= i < |listed| && listed[i].best && Announces(listed[i], q)
  }

  /** The prefix was sent again: it is accepted, or its installation was refused, and nothing was lost meanwhile. */
  ghost predicate Resent(k: Tables, k': Tables, b: Book, b': Book, q: Prefix) {
    Steady(k, k', b, b', q) && (q in b'.accepted || Refused(k, k', q))
  }

  lemma ResentThen(k: Tables, k1: Tables, k2: Tables, b: Book, b1: Book, b2: Book)
    requires forall q :: Steady(k, k1, b, b1, q)
    requires forall q :: SteadyAccepted(k1, k2, b1, b2, q)
    ensures forall q :: q in b1.accepted || Refused(k, k1, q) ==> Resent(k, k2, b, b2, q)
  {
    forall q | q in b1.accepted || Refused(k, k1, q) ensures Resent(k, k2, b, b2, q) {
      assert Steady(k, k1, b, b1, q) && SteadyAccepted(k1, k2, b1, b2, q);
    }
  }

  lemma SilentMore(paths: seq<Path>, n: nat, q: Prefix)
    requires n < |paths|
    ensures Silent(paths[..n + 1], q) <==> Silent(paths[..n], q) && !Announces(paths[n], q)
    ensures Spared(paths[..n + 1], q) <==> Spared(paths[..n], q) && !Withdraws(paths[n], q)
  {
    assert paths[..n + 1] == paths[..n] + [paths[n]];
  }

  /** A waiting path was retried: it is accepted with its next hop, or was refused again. */
  ghost predicate Retried(k: Tables, k': Tables, b: Book, b': Book, q: Prefix)
    requires q in b.unresolved
  {
    Refused(k, k', q) || (q in b'.accepted && b'.accepted[q] == b.unresolved[q])
  }

  /** Retries and then reinstallations, seen from the start. */
  lemma RefreshSums(tables: seq<nat>, k: Tables, k1: Tables, k2: Tables, k3: Tables, b: Book, b1: Book, b2: Book,
                    b3: Book)
    requires k.refused <= k1.refused <= k2.refused <= k3.refused && b1.unresolved == b.unresolved
    requires forall q :: q in b1.unresolved ==> Retried(k1, k2, b1, b2, q)
    requires forall q :: q in b3.accepted ==> q in b2.accepted && b3.accepted[q] == b2.accepted[q]
    requires forall q :: Steady(k2, k3, b2, b3, q)
    ensures forall q :: q in b.unresolved ==> Retried(k, k3, b, b3, q)
    ensures forall q :: Mended(k2, k3, tables, q) ==> Mended(k, k3, tables, q)
  {
    forall q | q in b.unresolved ensures Retried(k, k3, b, b3, q) {
      assert Retried(k1, k2, b1, b2, q) && Steady(k2, k3, b2, b3, q);
    }
  }

  lemma UnheardLess(b: Book, b': Book)
    requires b'.accepted == b.accepted && b'.unresolved == b.unresolved && b'.retained <= b.retained
    ensures forall q :: Unheard(b, b', q)
  {
  }

  lemma RetainedShrinks(b: Book, b': Book)
    requires forall q :: Unheard(b, b', q)
    ensures b'.retained <= b.retained
  {
    forall q | q in b'.retained ensures q in b.retained {
      assert Unheard(b, b', q);
    }
  }

  lemma MendedElsewhere(k: Tables, k1: Tables, k2: Tables, tables: seq<nat>, p: Prefix)
    requires Only(k1, k2, {p})
    ensures forall q :: q != p && Mended(k, k1, tables, q) ==> Mended(k, k2, tables, q)
  {
  }

  lemma RetriedNext(k: Tables, k1: Tables, k2: Tables, b: Book, b1: Book, b2: Book, p: Prefix)
    requires p in b.unresolved && p in b1.unresolved && b1.unresolved[p] == b.unresolved[p]
    requires Steady(k, k1, b, b1, p) && Steady(k1, k2, b1, b2, p)
    requires if p in b2.accepted then b2.accepted[p] == b1.unresolved[p] else Refused(k1, k2, p)
    requires forall q :: q != p && q in b1.accepted ==> q in b2.accepted && b2.accepted[q] == b1.accepted[q]
    ensures Retried(k, k2, b, b2, p)
    ensures forall q :: q in b.unresolved && q != p && Retried(k, k1, b, b1, q) ==> Retried(k, k2, b, b2, q)
  {
  }

  /** What a batch of paths does to one prefix. */
  ghost predicate Batched(policy: Policy, paths: seq<Path>, q: Prefix, k: Tables, k': Tables, b: Book, b': Book) {
    && k.refused <= k'.refused && (k'.clean ==> k.clean)
    && Follows(policy, paths, q, k, k', b, b') && (Unmoved(policy, paths, q) ==> Untouched(k, k', b, b', q))
    && (Spared(paths, q) ==> Steady(k, k', b, b', q))
    && (Spared(paths, q) && !Silent(paths, q) && Importable(policy, q) ==> q in b'.accepted || Refused(k, k', q))
    && (Silent(paths, q) ==> Unheard(b, b', q))
  }

  lemma BatchStarts(policy: Policy, paths: seq<Path>, q: Prefix, k: Tables, b: Book)
    ensures Batched(policy, paths[..0], q, k, k, b, b)
  {
  }

  lemma BatchGoesOn(policy: Policy, paths: seq<Path>, n: nat, q: Prefix, k: Tables, k1: Tables, k2: Tables, b: Book,
                    b1: Book, b2: Book)
    requires n < |paths| && Batched(policy, paths[..n], q, k, k1, b, b1)
    requires k1.refused <= k2.refused && (k2.clean ==> k1.clean)
    requires if Moves(policy, paths[n], q) then Decided(paths[n], q, k1, k2, b2) else Untouched(k1, k2, b1, b2, q)
    requires !Withdraws(paths[n], q) ==> Steady(k1, k2, b1, b2, q)
    requires Announces(paths[n], q) && Importable(policy, q) ==> q in b2.accepted || Refused(k1, k2, q)
    requires !Announces(paths[n], q) ==> Unheard(b1, b2, q)
    ensures Batched(policy, paths[..n + 1], q, k, k2, b, b2)
  {
    hide Follows, Unmoved, Untouched, Decided, Moves, Withdraws, Announces, Importable, Spared, Silent;
    FollowsNext(policy, paths, n, q, k, k1, k2, b, b1, b2);
    SilentMore(paths, n, q);
  }

  /** The current best paths of a listing: neither stale nor withdrawn. */
  function Current(listed: seq<Path>): (r: seq<Path>)
    ensures forall i :: 0 <= i < |r| ==> r[i] in listed && r[i].best && !r[i].stale && !r[i].withdrawal
    ensures forall path :: path in listed && path.best && !path.stale && !path.withdrawal ==> path in r
  {
    if listed == [] then []
    else
      var last := listed[|listed| - 1];
      Current(listed[..|listed| - 1]) + if last.best && !last.stale && !last.withdrawal then [last] else []
  }

  /** The last best path of the listing that announces an importable prefix decides on it. */
  ghost predicate Listed(policy: Policy, listed: seq<Path>, q: Prefix, k: Tables, k': Tables, b: Book, b': Book) {
    if listed == [] then SameEntry(b, b', q)
    else
      var last := listed[|listed| - 1];
      if last.best && Announces(last, q) && Importable(policy, q) then Decided(last, q, k, k', b')
      else Listed(policy, listed[..|listed| - 1], q, k, k', b, b')
  }

  lemma {:induction false} CurrentFollows(policy: Policy, listed: seq<Path>, q: Prefix, k: Tables, k': Tables, b: Book,
                                          b': Book)
    requires Follows(policy, Current(listed), q, k, k', b, b')
    ensures Listed(policy, listed, q, k, k', b, b')
  {
    hide Importable, Decided;
    if listed != [] {
      var last, rest := listed[|listed| - 1], listed[..|listed| - 1];
      var current := Current(listed);
      if last.best && !last.stale && !last.withdrawal {
        assert current[|current| - 1] == last && current[..|current| - 1] == Current(rest);
      } else {
        assert current == Current(rest);
      }
      if !(last.best && Announces(last, q) && Importable(policy, q)) {
        CurrentFollows(policy, rest, q, k, k', b, b');
      }
    }
  }

  lemma {:induction false} ListedStill(policy: Policy, listed: seq<Path>, q: Prefix, k: Tables, k1: Tables, k2: Tables,
                                       b: Book, b1: Book, b2: Book)
    requires Listed(policy, listed, q, k, k1, b, b1) && SameEntry(b1, b2, q) && (q in b2.retained ==> q in b1.retained)
    requires k1.refused <= k2.refused && (k2.clean ==> k1.clean)
    ensures Listed(policy, listed, q, k, k2, b, b2)
  {
    hide Importable;
    if listed != [] {
      var last := listed[|listed| - 1];
      if !(last.best && Announces(last, q) && Importable(policy, q)) {
        ListedStill(policy, listed[..|listed| - 1], q, k, k1, k2, b, b1, b2);
      }
    }
  }

  /** A batch of current best paths, in the terms of the listing. */
  lemma CurrentBatch(policy: Policy, listed: seq<Path>, q: Prefix, k: Tables, k': Tables, b: Book, b': Book)
    requires Batched(policy, Current(listed), q, k, k', b, b')
    ensures Steady(k, k', b, b', q) && Listed(policy, listed, q, k, k', b, b')
    ensures Lists(listed, q) && Importable(policy, q) ==> q in b'.accepted || Refused(k, k', q)
    ensures Silent(listed, q) ==> Unheard(b, b', q)
  {
    hide Follows, Listed, Steady, Unheard, Importable, Untouched;
    CurrentFollows(policy, listed, q, k, k', b, b');
    var current := Current(listed);
    assert Spared(current, q);
    if Lists(listed, q) {
      var i :| 0 <= i < |listed| && listed[i].best && Announces(listed[i], q);
      assert listed[i] in current;
      var j :| 0 <= j < |current| && current[j] == listed[i];
    }
    if Silent(listed, q) {
      assert forall i :: 0 <= i < |current| ==> current[i] in listed && !Announces(current[i], q);
    }
  }

  /** The most recent rejections, one per prefix, the newest last. */
  function Recorded(rejected: seq<Rejection>, p: Prefix, reason: Reason): (r: seq<Rejection>)
    ensures 0 < |r| <= MAX_REJECTIONS && r[|r| - 1] == Rejection(p, reason)
    ensures |rejected| < MAX_REJECTIONS ==> forall i :: 0 <= i < |rejected| && rejected[i].prefix != p ==>
            rejected[i] in r
  {
    var all := Without(rejected, p) + [Rejection(p, reason)];
    if |all| > MAX_REJECTIONS then all[|all| - MAX_REJECTIONS..] else all
  }

  function Without(rejected: seq<Rejection>, p: Prefix): (r: seq<Rejection>)
    ensures |r| <= |rejected| && forall i :: 0 <= i < |r| ==> r[i].prefix != p && r[i] in rejected
    ensures forall i :: 0 <= i < |rejected| && rejected[i].prefix != p ==> rejected[i] in r
  {
    if rejected == [] then []
    else if rejected[0].prefix == p then Without(rejected[1..], p)
    else [rejected[0]] + Without(rejected[1..], p)
  }

  /** Forgetting a prefix changes the record exactly when the prefix was in it. */
  lemma {:induction false} WithoutChanges(rejected: seq<Rejection>, p: Prefix)
    ensures Without(rejected, p) == rejected <==> forall i :: 0 <= i < |rejected| ==> rejected[i].prefix != p
  {
    if rejected != [] {
      WithoutChanges(rejected[1..], p);
      assert rejected == [rejected[0]] + rejected[1..];
      if forall i :: 0 <= i < |rejected| ==> rejected[i].prefix != p {
        assert rejected[0].prefix != p && forall i :: 0 <= i < |rejected[1..]| ==> rejected[1..][i] == rejected[i + 1];
      }
    }
  }

  ghost predicate OnRecord(rejected: seq<Rejection>, p: Prefix) {
    exists i :: 0 <= i < |rejected| && rejected[i].prefix == p
  }

  /** The path announces again what is accepted with that next hop, though a rejection is on record. */
  ghost predicate Repeats(policy: Policy, accepted: map<Prefix, Hop>, rejected: seq<Rejection>, path: Path) {
    && path.prefix.Some? && Announces(path, path.prefix.value) && Importable(policy, path.prefix.value)
    && path.prefix.value in accepted && accepted[path.prefix.value] == path.hop.value
    && OnRecord(rejected, path.prefix.value)
  }

  /**
    An unchanged report can hide a change: a prefix accepted with a next hop and
    then announced without one is on record as rejected; announcing it again with
    the same next hop erases that record and is reported as no change. `before`
    and `after` are the record around that last announcement.
  */
  method UnreportedChange(policy: Policy, peer: nat, kernel: Kernel, path: Path)
    returns (changed: bool, before: seq<Rejection>, after: seq<Rejection>)
    requires kernel.Valid()
    requires path.prefix.Some? && Announces(path, path.prefix.value) && Importable(policy, path.prefix.value)
    modifies kernel
    ensures !Refused(old(kernel.Now()), kernel.Now(), path.prefix.value) ==>
              !changed && before == [Rejection(path.prefix.value, NoNextHop)] && after == []
  {
    var p := path.prefix.value;
    var session := new Session(policy, peer, kernel);
    var first := session.ApplyBestPath(path);
    assert IsBare(path.(hop := None), p);
    var second := session.ApplyBestPath(path.(hop := None));
    before := session.rejected;
    changed := session.ApplyBestPath(path);
    after := session.rejected;
  }

  /** What the listeners are told of a session. */
  datatype State = State(established: bool, accepted: set<Prefix>, advertised: set<Prefix>, retained: set<Prefix>,
                         rejected: seq<Rejection>)

  /** The last state queued; listeners that were told nothing know of a session without a peer or a prefix. */
  ghost function LastTold(queued: seq<State>): State {
    if queued == [] then State(false, {}, {}, {}, []) else queued[|queued| - 1]
  }

  /** No rejection is on record that was not on record before. */
  ghost predicate NoneAdded(before: seq<Rejection>, after: seq<Rejection>) {
    forall r :: r in after ==> r in before
  }

  /** Whether the peer is up, which prefixes are accepted or retained, and every rejection are as told. */
  ghost predicate Knows(told: State, now: State) {
    && told.established == now.established && told.accepted == now.accepted && told.retained == now.retained
    && NoneAdded(told.rejected, now.rejected)
  }

  lemma SameSize(part: set<Prefix>, whole: set<Prefix>)
    requires part <= whole && |part| == |whole|
    ensures part == whole
  {
    assert whole == part + (whole - part);
  }

  /** No other export rule has this rule's prefix. */
  ghost predicate Unique(policy: Policy, i: nat)
    requires i < |policy.exports|
  {
    forall j :: 0 <= j < |policy.exports| && j != i ==> policy.exports[j].prefix != policy.exports[i].prefix
  }

  /** What can happen to a running session, with what the environment answers. */
  datatype Event =
    | Peer(up: bool)
    | Best(paths: seq<Path>)
    | Eor(listed: Option<seq<Path>>)
    | Timer(fired: nat, listed: Option<seq<Path>>)
    | Refresh(listable: bool, unresolvable: set<Prefix>)
    | SweepTables(listable: bool)
    | Advertise(eligible: bool, backup: set<Prefix>, failing: set<Prefix>)
    | Keep(listable: bool)
    | StartUp(runs: bool)
    | Dial(added: bool)
    | Halt

  class Session {
    const policy: Policy
    const peer: nat
    const fib: Fib
    var started: bool
    var connected: bool
    var established: bool
    var accepted: map<Prefix, Hop>
    var unresolved: map<Prefix, Hop>
    var advertised: set<Prefix>
    var rejected: seq<Rejection>
    /** True from `KeepRoutes` until End-of-RIB, the deadline or a stop. */
    var retaining: bool
    var retained: set<Prefix>
    /** The generation of the running deadline timer. */
    var timer: Option<nat>
    var generation: nat
    /** Every state queued for the listeners, the oldest first. */
    var queued: seq<State>
    /** Prefixes an earlier process left in the tables that this one has not recorded. */
    ghost var strays: set<Prefix>

    function Snapshot(): State
      reads this`established, this`accepted, this`advertised, this`retained, this`rejected
    {
      State(established, accepted.Keys, advertised, retained, rejected)
    }

    /** The last state queued for the listeners is current. */
    ghost predicate Told()
      reads this`established, this`accepted, this`advertised, this`retained, this`rejected, this`queued
    {
      Knows(LastTold(queued), Snapshot())
    }

    /**
      A call queues at most one state, the one it leaves, and it queues that one if
      the peer came or went, if an accepted or retained prefix did, or if a prefix
      was rejected.
    */
    twostate predicate Notified()
      reads this`established, this`accepted, this`advertised, this`retained, this`rejected, this`queued
    {
      || queued == old(queued) + [Snapshot()]
      || (queued == old(queued) && Knows(old(Snapshot()), Snapshot()))
    }

    twostate lemma StillTold()
      requires old(Told()) && Notified()
      ensures Told()
    {
    }

    twostate lemma NothingNew()
      requires queued == old(queued) && Snapshot() == old(Snapshot())
      ensures Notified()
    {
    }

    twostate lemma Announced()
      requires queued == old(queued) + [Snapshot()]
      ensures Notified()
    {
    }

    method Enqueue()
      modifies this`queued
      ensures queued == old(queued) + [Snapshot()]
    {
      queued := queued + [Snapshot()];
    }

    ghost function B(): Book
      reads this`accepted, this`unresolved, this`retained
    {
      Book(accepted, unresolved, retained)
    }

    ghost function K(): Tables
      reads fib.kernel
    {
      fib.kernel.Now()
    }

    /** The session's book, the installer and the tables agree. */
    ghost predicate RoutesOk()
      reads this`accepted, this`unresolved, this`retained, this`strays, fib`desired, fib.kernel
    {
      && fib.tables == policy.tables && fib.kernel.Valid()
      && Mirrors(fib.desired, accepted, peer) && Separate(policy, B())
      && Complete(policy.tables, K(), B(), strays)
    }

    ghost predicate Valid()
      reads this, fib, fib.kernel
    {
      && RoutesOk() && |rejected| <= MAX_REJECTIONS
      && (forall p :: p in advertised ==> Exports(policy, p))
      && (!started ==> !connected && !established && accepted == map[] && unresolved == map[] && advertised == {})
    }

    constructor (policy: Policy, peer: nat, kernel: Kernel)
      requires kernel.Valid()
      ensures Valid() && fresh(fib) && this.policy == policy && fib.kernel == kernel && !started && !retaining
              && retained == {} && generation == 0 && accepted == map[] && rejected == [] && queued == [] && Told()
      ensures strays == set r | r in kernel.routes :: r.prefix
    {
      this.policy, this.peer := policy, peer;
      fib := new Fib(policy.tables, kernel);
      started, connected, established := false, false, false;
      accepted, unresolved, advertised, rejected := map[], map[], {}, [];
      retaining, retained, timer, generation, queued := false, {}, None, 0, [];
      strays := set r | r in kernel.routes :: r.prefix;
    }

    // Learned paths.

    /** Removes an accepted prefix from the book, the installer and the tables. */
    method RemoveAccepted(p: Prefix) returns (ghost ok: bool)
      requires fib.kernel.Valid()
      modifies this`accepted, fib`desired, fib.kernel
      ensures fib.Continues() && Deletes(old(K()), K(), fib.tables, {p}, ok)
      ensures accepted == old(accepted) - {p} && fib.desired == old(fib.desired) - {p}
    {
      accepted := accepted - {p};
      ok := fib.WithdrawExact(p);
    }

    method Reject(p: Prefix, reason: Reason)
      modifies this`rejected
      ensures rejected == Recorded(old(rejected), p, reason)
    {
      rejected := Recorded(rejected, p, reason);
    }

    /** An installation that failed: the earlier route goes too, and the path is retried later. */
    method FailInstall(p: Prefix, hop: Hop) returns (ghost ok: bool)
      requires fib.kernel.Valid()
      modifies this`accepted, this`unresolved, this`rejected, fib`desired, fib.kernel
      ensures fib.Continues() && Deletes(old(K()), K(), fib.tables, {p}, ok)
      ensures B() == NotInstallable(old(B()), p, hop) && fib.desired == old(fib.desired) - {p}
      ensures |rejected| <= MAX_REJECTIONS
    {
      ok := RemoveAccepted(p);
      Reject(p, NotInstalled);
      unresolved := unresolved[p := hop];
    }

    method Accept(p: Prefix, hop: Hop)
      requires |rejected| <= MAX_REJECTIONS
      modifies this`accepted, this`unresolved, this`retained, this`rejected
      ensures B() == Accepted(old(B()), p, hop) && |rejected| <= MAX_REJECTIONS && rejected == Without(old(rejected), p)
    {
      unresolved, retained := unresolved - {p}, retained - {p};
      accepted := accepted[p := hop];
      rejected := Without(rejected, p);
    }

    /** Installs one importable path; what happened to any prefix is `Steady`. */
    method Install(p: Prefix, hop: Hop) returns (changed: bool)
      requires RoutesOk() && !Exports(policy, p) && |rejected| <= MAX_REJECTIONS
      modifies this`accepted, this`unresolved, this`retained, this`rejected, fib`desired, fib.kernel
      ensures RoutesOk() && |rejected| <= MAX_REJECTIONS && fib.Continues()
      ensures forall q :: Steady(old(K()), K(), old(B()), B(), q)
      ensures p in accepted || Refused(old(K()), K(), p)
      ensures p in accepted ==> accepted[p] == hop && rejected == Without(old(rejected), p)
      ensures p !in accepted ==> p in unresolved && unresolved[p] == hop
      ensures p in accepted ==> p !in unresolved && p !in retained
      ensures forall q :: q != p ==> Unheard(old(B()), B(), q) && Untouched(old(K()), K(), old(B()), B(), q)
      ensures old(K()).refused <= K().refused && (K().clean ==> old(K()).clean)
      ensures changed <==> p !in accepted || p !in old(accepted) || old(accepted)[p] != hop
      ensures !changed ==> accepted == old(accepted) && retained == old(retained)
    {
      assert p in accepted ==> p !in retained;
      hide Complete, Installs, Deletes, Steady, Unheard, Mirrors, Separate;
      AcceptBook(policy, fib.desired, B(), peer, p, hop);
      FailBook(policy, fib.desired, B(), peer, p, hop);
      ghost var k := K();
      var ok := fib.Apply(peer, p, hop);
      if !ok {
        ghost var k1 := K();
        ghost var deleted := FailInstall(p, hop);
        FailComplete(policy.tables, k, k1, K(), old(B()), strays, p, hop, deleted);
        FailSteady(policy.tables, k, k1, K(), old(B()), p, hop, deleted);
        return true;
      }
      AcceptComplete(policy.tables, k, K(), old(B()), strays, p, hop);
      AcceptSteady(policy.tables, k, K(), old(B()), p, hop);
      changed := p !in accepted || accepted[p] != hop;
      Accept(p, hop);
    }

    /** Deletes a retained prefix's routes; a failed deletion leaves it retained. */
    method WithdrawRetained(p: Prefix) returns (deleted: bool)
      requires RoutesOk()
      modifies this`retained, fib`desired, fib.kernel
      ensures RoutesOk() && fib.Continues()
      ensures if p in old(retained)
              then Deletes(old(K()), K(), fib.tables, {p}, deleted)
                && retained == if deleted then old(retained) - {p} else old(retained)
              else !deleted && K() == old(K()) && retained == old(retained)
    {
      if p !in retained {
        return false;
      }
      ghost var b, k := B(), K();
      deleted := fib.WithdrawExact(p);
      WithdrawComplete(policy.tables, k, K(), b, strays, p, deleted);
      if deleted {
        retained := retained - {p};
      }
      assert fib.desired == old(fib.desired);
    }

    /** A path that waits is forgotten. */
    method ForgetWaiting(p: Prefix)
      requires RoutesOk()
      modifies this`unresolved
      ensures RoutesOk() && unresolved == old(unresolved) - {p}
    {
      unresolved := unresolved - {p};
    }

    /** An accepted prefix is given up, with its routes. */
    method DropAccepted(p: Prefix)
      requires RoutesOk()
      modifies this`accepted, fib`desired, fib.kernel
      ensures RoutesOk() && fib.Continues() && Only(old(K()), K(), {p}) && K().refused == old(K()).refused
      ensures accepted == old(accepted) - {p}
    {
      ghost var b, k := B(), K();
      ghost var ok := RemoveAccepted(p);
      GiveUpRoutes(policy.tables, k, K(), b, strays, p, ok);
    }

    /** The peer withdrew a prefix. */
    method Withdraw(p: Prefix) returns (changed: bool)
      requires RoutesOk()
      modifies this`accepted, this`unresolved, this`retained, fib`desired, fib.kernel
      ensures RoutesOk() && fib.Continues() && Only(old(K()), K(), {p}) && K().refused == old(K()).refused
      ensures accepted == old(accepted) - {p} && unresolved == old(unresolved) - {p}
      ensures retained == old(retained) || retained == old(retained) - {p}
      ensures K().clean ==> p !in retained
      ensures !changed ==> accepted == old(accepted) && retained == old(retained)
      ensures forall q :: q != p ==> Untouched(old(K()), K(), old(B()), B(), q)
    {
      Apart(p);
      hide RoutesOk, Untouched;
      KeepsGoing();
      ForgetWaiting(p);
      changed := WithdrawRetained(p);
      if !changed && p in accepted {
        DropAccepted(p);
        changed := true;
      }
      WithdrawnElsewhere(old(K()), K(), old(B()), B(), p);
    }

    lemma Apart(p: Prefix)
      requires RoutesOk()
      ensures p in accepted ==> p !in retained
    {
    }

    /**
      Applies one reported path. A prefix it does not withdraw stays `Steady`,
      and an importable announcement is accepted with its next hop unless its
      installation is refused. An unchanged report hides exactly one change: the
      erased rejection of a prefix that was accepted with that next hop already.
    */
    method ApplyBestPath(path: Path) returns (changed: bool)
      requires RoutesOk() && |rejected| <= MAX_REJECTIONS
      modifies this`accepted, this`unresolved, this`retained, this`rejected, fib`desired, fib.kernel
      ensures RoutesOk() && |rejected| <= MAX_REJECTIONS && fib.Continues()
      ensures forall q :: Moves(policy, path, q) ==> Decided(path, q, old(K()), K(), B())
      ensures forall q :: !Moves(policy, path, q) ==> Untouched(old(K()), K(), old(B()), B(), q)
      ensures old(K()).refused <= K().refused && (K().clean ==> old(K()).clean)
      ensures forall q :: !Withdraws(path, q) ==> Steady(old(K()), K(), old(B()), B(), q)
      ensures forall q :: Announces(path, q) && Importable(policy, q) ==>
                && (q in accepted || Refused(old(K()), K(), q))
                && (q in accepted ==> accepted[q] == path.hop.value && rejected == Without(old(rejected), q))
                && (changed <==> q !in accepted || q !in old(accepted) || old(accepted)[q] != path.hop.value)
      ensures forall q :: IsBare(path, q) && Importable(policy, q) ==>
                && changed && B() == old(B()) && K() == old(K())
                && rejected == Recorded(old(rejected), q, NoNextHop)
      ensures forall q :: Withdraws(path, q) ==> q !in accepted && q !in unresolved && (K().clean ==> q !in retained)
      ensures forall q :: !Announces(path, q) ==> Unheard(old(B()), B(), q)
      ensures !changed ==> accepted == old(accepted) && retained == old(retained)
      ensures !changed ==> (rejected != old(rejected) <==> Repeats(policy, old(accepted), old(rejected), path))
      ensures !changed ==> NoneAdded(old(rejected), rejected)
    {
      hide RoutesOk, Recorded;
      if path.prefix.None? {
        KeepsGoing();
        return false;
      }
      var p := path.prefix.value;
      if path.withdrawal {
        changed := Withdraw(p);
        return;
      }
      if path.stale {
        KeepsGoing();
        return false;
      }
      var reason := ImportRejection(policy, p);
      if reason.Some? {
        Reject(p, reason.value);
        KeepsGoing();
        return true;
      }
      if path.hop.None? {
        Reject(p, NoNextHop);
        KeepsGoing();
        return true;
      }
      assert K() == old(K()) && B() == old(B());
      changed := Install(p, path.hop.value);
      WithoutChanges(old(rejected), p);
    }

    lemma KeepsGoing()
      requires RoutesOk()
      ensures fib.kernel.Valid() && fib.kernel.history != []
    {
    }

    /**
      Applies reported paths in order: of each prefix, the last path that decides
      on it says what becomes of it, and one no path decides on is untouched.
    */
    method ApplyBestPaths(paths: seq<Path>) returns (changed: bool)
      requires RoutesOk() && |rejected| <= MAX_REJECTIONS
      modifies this`accepted, this`unresolved, this`retained, this`rejected, fib`desired, fib.kernel
      ensures RoutesOk() && |rejected| <= MAX_REJECTIONS && fib.Continues()
      ensures forall q :: Batched(policy, paths, q, old(K()), K(), old(B()), B())
      ensures !changed ==> accepted == old(accepted) && retained == old(retained) && NoneAdded(old(rejected), rejected)
    {
      hide RoutesOk, Withdraws, Announces, Importable, Moves, Decided, Untouched, Steady, Unheard, Batched;
      changed := false;
      KeepsGoing();
      ghost var k, b := K(), B();
      forall q ensures Batched(policy, paths[..0], q, k, K(), b, B()) {
        BatchStarts(policy, paths, q, k, b);
      }
      for n := 0 to |paths|
        invariant RoutesOk() && |rejected| <= MAX_REJECTIONS && fib.Continues()
        invariant forall q :: Batched(policy, paths[..n], q, k, K(), b, B())
        invariant !changed ==>
                    accepted == old(accepted) && retained == old(retained) && NoneAdded(old(rejected), rejected)
      {
        ghost var k1, b1 := K(), B();
        var applied := ApplyBestPath(paths[n]);
        changed := changed || applied;
        ghost var more := paths[..n + 1];
        forall q ensures Batched(policy, more, q, k, K(), b, B()) {
          BatchGoesOn(policy, paths, n, q, k, k1, K(), b, b1, B());
        }
      }
      assert paths[..|paths|] == paths;
    }

    // Retention, peer state and lifecycle.

    /** Ends the retention and deletes every retained route; a prefix stays until its deletion succeeds. */
    method DropRetained() returns (ghost ok: bool)
      requires fib.kernel.Valid()
      modifies this`retaining, this`timer, this`retained, fib`desired, fib.kernel
      ensures fib.Continues() && Deletes(old(K()), K(), fib.tables, old(retained), ok)
      ensures fib.desired == old(fib.desired) - old(retained)
      ensures !retaining && timer.None? && retained <= old(retained) && (ok ==> retained == {})
    {
      retaining, timer, ok := false, None, true;
      ghost var k := K();
      assert Deletes(k, k, fib.tables, {}, true);
      hide Deletes;
      var left := retained;
      while left != {}
        invariant left <= old(retained) && retained <= old(retained) && !retaining && timer.None?
        invariant ok ==> retained == left
        invariant fib.Continues() && Deletes(k, K(), fib.tables, old(retained) - left, ok)
        invariant fib.desired == old(fib.desired) - (old(retained) - left)
      {
        var p :| p in left;
        ghost var k1 := K();
        var deleted := fib.WithdrawExact(p);
        DeletesMore(k, k1, K(), fib.tables, old(retained) - left, p, ok, deleted);
        assert old(retained) - (left - {p}) == (old(retained) - left) + {p};
        if deleted {
          retained := retained - {p};
        }
        left, ok := left - {p}, ok && deleted;
      }
      assert old(retained) - {} == old(retained);
    }

    /** Ends the retention of a session whose book is in order; accepted prefixes are not touched. */
    method EndRetention() returns (ghost ok: bool)
      requires RoutesOk()
      modifies this`retaining, this`timer, this`retained, fib`desired, fib.kernel
      ensures RoutesOk() && fib.Continues() && !retaining && timer.None? && retained <= old(retained)
      ensures K().clean ==> retained == {}
      ensures forall q :: SteadyAccepted(old(K()), K(), old(B()), B(), q)
      ensures accepted == old(accepted) && unresolved == old(unresolved)
      ensures old(K()).refused <= K().refused && (K().clean ==> old(K()).clean)
    {
      ghost var k, b := K(), B();
      ok := DropRetained();
      DropComplete(policy.tables, k, K(), b, strays, retained, ok);
      assert fib.desired == old(fib.desired);
    }

    /** Withdraws every advertised export; a failed withdrawal stays advertised. */
    method WithdrawExports(failing: set<Prefix>) returns (ok: bool)
      modifies this`advertised
      ensures forall p :: p in advertised <==> p in old(advertised) && (Exports(policy, p) ==> p in failing)
      ensures ok <==> forall p :: p in advertised ==> !Exports(policy, p)
    {
      ok := true;
      for i := 0 to |policy.exports|
        invariant forall p :: p in advertised <==>
                    p in old(advertised) && (ExportsBelow(policy, p, i) ==> p in failing)
        invariant ok <==> forall p :: p in advertised ==> !ExportsBelow(policy, p, i)
      {
        if policy.exports[i].prefix in advertised {
          var done := policy.exports[i].prefix !in failing;
          if done {
            advertised := advertised - {policy.exports[i].prefix};
          }
          ok := ok && done;
        }
      }
    }

    /** The peer is gone: everything learned from it goes. */
    method LosePeer(failing: set<Prefix>) returns (ghost ok: bool)
      requires RoutesOk()
      modifies this`accepted, this`unresolved, this`retained, this`retaining, this`timer, this`advertised,
               fib`desired, fib.kernel
      ensures RoutesOk() && fib.Continues() && accepted == map[] && unresolved == map[] && !retaining && timer.None?
      ensures retained <= old(retained) && (K().clean ==> retained == {})
      ensures forall p :: p in advertised <==> p in old(advertised) && (Exports(policy, p) ==> p in failing)
    {
      hide Complete, Only, InNone;
      ghost var k, b := K(), B();
      accepted, unresolved := map[], map[];
      ok := DropRetained();
      DropComplete(policy.tables, k, K(), b, strays, retained, ok);
      assert fib.desired == old(fib.desired);
      MirrorsPeer(fib.desired, b.accepted, peer);
      var withdrawn := WithdrawExports(failing);
      ghost var k1 := K();
      ghost var gone := fib.WithdrawPeer(peer);
      EmptyComplete(policy.tables, k1, K(), b.(retained := retained), strays, gone);
    }

    /** A peer state event; only the loss of an established peer changes routes. */
    method PeerEvent(up: bool, failing: set<Prefix>)
      requires Valid()
      modifies this, fib`desired, fib.kernel
      ensures Valid() && fib.Continues() && started == old(started)
      ensures started ==> established == up
      ensures up || !old(established) ==> K() == old(K()) && B() == old(B()) && retaining == old(retaining)
      ensures !up && old(established) ==> accepted == map[] && unresolved == map[] && (K().clean ==> retained == {})
      ensures if !up && old(established) then advertised == old(advertised) * failing else advertised == old(advertised)
      ensures forall q :: Unheard(old(B()), B(), q)
      ensures strays == old(strays) && generation == old(generation)
      ensures timer == old(timer) || timer.None?
      ensures Notified()
    {
      hide RoutesOk;
      KeepsGoing();
      if !started {
        return;
      }
      var was := established;
      established := up;
      if !up && was {
        ghost var ok := LosePeer(failing);
      }
      if up != was {
        Enqueue();
      }
    }

    /** Best paths reported by GoBGP; a session that is not started ignores them. */
    method BestPaths(paths: seq<Path>)
      requires Valid()
      modifies this`accepted, this`unresolved, this`retained, this`rejected, this`queued, fib`desired, fib.kernel
      ensures Valid() && fib.Continues() && Notified()
      ensures if started then forall q :: Batched(policy, paths, q, old(K()), K(), old(B()), B())
              else K() == old(K()) && B() == old(B()) && rejected == old(rejected)
      ensures forall q :: Spared(paths, q) ==> Steady(old(K()), K(), old(B()), B(), q)
      ensures forall q :: started && Spared(paths, q) && !Silent(paths, q) && Importable(policy, q) ==>
                q in accepted || Refused(old(K()), K(), q)
      ensures forall q :: Silent(paths, q) ==> Unheard(old(B()), B(), q)
    {
      hide RoutesOk, Withdraws, Announces, Importable, Follows, Unmoved, Untouched, Spared, Silent;
      KeepsGoing();
      if started {
        var changed := ApplyBestPaths(paths);
        forall q
          ensures Spared(paths, q) ==> Steady(old(K()), K(), old(B()), B(), q)
          ensures Spared(paths, q) && !Silent(paths, q) && Importable(policy, q) ==>
                    q in accepted || Refused(old(K()), K(), q)
          ensures Silent(paths, q) ==> Unheard(old(B()), B(), q)
        {
          assert Batched(policy, paths, q, old(K()), K(), old(B()), B());
        }
        if changed {
          Enqueue();
        }
      }
    }

    /** Applies the current best paths; every prefix stays `Steady`, and the last one listed for it decides. */
    method Reapply(listed: seq<Path>) returns (changed: bool)
      requires RoutesOk() && |rejected| <= MAX_REJECTIONS
      modifies this`accepted, this`unresolved, this`retained, this`rejected, fib`desired, fib.kernel
      ensures RoutesOk() && |rejected| <= MAX_REJECTIONS && fib.Continues()
      ensures forall q :: Steady(old(K()), K(), old(B()), B(), q)
      ensures forall q :: Listed(policy, listed, q, old(K()), K(), old(B()), B())
      ensures forall q :: Lists(listed, q) && Importable(policy, q) ==> q in accepted || Refused(old(K()), K(), q)
      ensures forall q :: Silent(listed, q) ==> Unheard(old(B()), B(), q)
      ensures !changed ==> accepted == old(accepted) && retained == old(retained) && NoneAdded(old(rejected), rejected)
    {
      hide RoutesOk, Importable, Steady, Unheard, Current, Batched, Listed, Lists, Silent;
      var current := Current(listed);
      changed := ApplyBestPaths(current);
      forall q
        ensures Steady(old(K()), K(), old(B()), B(), q) && Listed(policy, listed, q, old(K()), K(), old(B()), B())
        ensures Lists(listed, q) && Importable(policy, q) ==> q in accepted || Refused(old(K()), K(), q)
        ensures Silent(listed, q) ==> Unheard(old(B()), B(), q)
      {
        CurrentBatch(policy, listed, q, old(K()), K(), old(B()), B());
      }
    }

    /**
      The peer's End-of-RIB marker. Once the best paths could be listed, what the
      peer did not send again is deleted; otherwise the retention goes on.
    */
    method EndOfRib(listed: Option<seq<Path>>)
      requires Valid()
      modifies this`accepted, this`unresolved, this`retained, this`rejected, this`retaining, this`timer, this`queued,
               fib`desired, fib.kernel
      ensures Valid() && fib.Continues() && Notified()
      ensures !started || listed.None? ==>
                K() == old(K()) && B() == old(B()) && retaining == old(retaining) && timer == old(timer)
      ensures started && listed.Some? ==> !retaining
      ensures started && listed.Some? && old(retaining) && K().clean ==> retained == {}
      ensures started && listed.Some? ==>
                forall q :: Listed(policy, listed.value, q, old(K()), K(), old(B()), B())
      ensures started && listed.Some? ==>
                forall q :: Lists(listed.value, q) && Importable(policy, q) ==> Resent(old(K()), K(), old(B()), B(), q)
      ensures forall q :: (listed.Some? ==> Silent(listed.value, q)) ==> Unheard(old(B()), B(), q)
      ensures forall q :: SteadyAccepted(old(K()), K(), old(B()), B(), q)
      ensures timer == old(timer) || timer.None?
    {
      hide RoutesOk, Importable, Steady, SteadyAccepted, Lists, Resent, Listed;
      KeepsGoing();
      ghost var k, b := K(), B();
      UnchangedSteady(k, b);
      if started && listed.Some? {
        var changed := Reapply(listed.value);
        ghost var k1, b1 := K(), B();
        SteadyIsAccepted(k, k1, b, b1);
        UnchangedSteady(k1, b1);
        if retaining {
          ghost var ok := EndRetention();
          SteadyThen(k, k1, K(), b, b1, B());
          forall q ensures Listed(policy, listed.value, q, k, K(), b, B()) {
            ListedStill(policy, listed.value, q, k, k1, K(), b, b1, B());
          }
          changed := true;
        }
        ResentThen(k, k1, K(), b, b1, B());
        if changed {
          Enqueue();
        }
      }
    }

    /** The deadline timer of one `KeepRoutes` call; retained routes go even without a listing. */
    method Deadline(fired: nat, listed: Option<seq<Path>>)
      requires Valid()
      modifies this`accepted, this`unresolved, this`retained, this`rejected, this`retaining, this`timer, this`queued,
               fib`desired, fib.kernel
      ensures Valid() && fib.Continues() && Notified()
      ensures !old(retaining) || fired != generation ==>
                K() == old(K()) && B() == old(B()) && retaining == old(retaining) && timer == old(timer)
      ensures old(retaining) && fired == generation ==> !retaining && (K().clean ==> retained == {})
      ensures old(retaining) && fired == generation && started && listed.Some? ==>
                forall q :: Listed(policy, listed.value, q, old(K()), K(), old(B()), B())
      ensures old(retaining) && fired == generation && started && listed.Some? ==>
                forall q :: Lists(listed.value, q) && Importable(policy, q) ==> Resent(old(K()), K(), old(B()), B(), q)
      ensures forall q :: (listed.Some? ==> Silent(listed.value, q)) ==> Unheard(old(B()), B(), q)
      ensures forall q :: SteadyAccepted(old(K()), K(), old(B()), B(), q)
      ensures timer == old(timer) || timer.None?
    {
      hide RoutesOk, Importable, Steady, SteadyAccepted, Lists, Resent, Listed;
      KeepsGoing();
      ghost var k, b := K(), B();
      UnchangedSteady(k, b);
      if !retaining || fired != generation {
        return;
      }
      if started && listed.Some? {
        var changed := Reapply(listed.value);
      }
      ghost var k1, b1 := K(), B();
      ghost var ok := EndRetention();
      SteadyThen(k, k1, K(), b, b1, B());
      ResentThen(k, k1, K(), b, b1, B());
      if started && listed.Some? {
        forall q ensures Listed(policy, listed.value, q, k, K(), b, B()) {
          ListedStill(policy, listed.value, q, k, k1, K(), b, b1, B());
        }
      }
      Enqueue();
    }

    // Refresh.

    /** Retries one path whose installation failed before. */
    method Retry(p: Prefix)
      requires RoutesOk() && p in unresolved && |rejected| <= MAX_REJECTIONS
      modifies this`accepted, this`unresolved, this`retained, this`rejected, fib`desired, fib.kernel
      ensures RoutesOk() && |rejected| <= MAX_REJECTIONS && fib.Continues()
      ensures forall q :: Steady(old(K()), K(), old(B()), B(), q)
      ensures if p in accepted then unresolved == old(unresolved) - {p} && accepted[p] == old(unresolved)[p]
              else unresolved == old(unresolved) && Refused(old(K()), K(), p)
      ensures old(K()).refused <= K().refused && (K().clean ==> old(K()).clean)
      ensures forall q :: q != p && q in old(accepted) ==> q in accepted && accepted[q] == old(accepted)[q]
      ensures forall q :: Unheard(old(B()), B(), q)
      ensures p !in accepted ==> accepted == old(accepted) && retained == old(retained) && rejected == old(rejected)
    {
      var hop := unresolved[p];
      assert !Exports(policy, p) && p !in accepted;
      hide Complete, Installs, Deletes, Steady, Mirrors, Separate;
      AcceptBook(policy, fib.desired, B(), peer, p, hop);
      FailBook(policy, fib.desired, B(), peer, p, hop);
      ghost var k := K();
      var ok := fib.Apply(peer, p, hop);
      if !ok {
        ghost var k1 := K();
        ghost var deleted := RemoveAccepted(p);
        FailComplete(policy.tables, k, k1, K(), old(B()), strays, p, hop, deleted);
        FailSteady(policy.tables, k, k1, K(), old(B()), p, hop, deleted);
        assert B() == NotInstallable(old(B()), p, hop);
        return;
      }
      AcceptComplete(policy.tables, k, K(), old(B()), strays, p, hop);
      AcceptSteady(policy.tables, k, K(), old(B()), p, hop);
      Accept(p, hop);
    }

    /** Retries every waiting path: it is accepted with its next hop, or was refused again. */
    method RetryAll() returns (changed: bool)
      requires RoutesOk() && |rejected| <= MAX_REJECTIONS
      modifies this`accepted, this`unresolved, this`retained, this`rejected, fib`desired, fib.kernel
      ensures RoutesOk() && |rejected| <= MAX_REJECTIONS && fib.Continues()
      ensures forall q :: Steady(old(K()), K(), old(B()), B(), q)
      ensures forall q :: Unheard(old(B()), B(), q)
      ensures forall q :: q in old(unresolved) ==> Retried(old(K()), K(), old(B()), B(), q)
      ensures old(K()).refused <= K().refused && (K().clean ==> old(K()).clean)
      ensures !changed ==> accepted == old(accepted) && retained == old(retained) && rejected == old(rejected)
    {
      hide RoutesOk, Steady, Retried;
      KeepsGoing();
      changed := false;
      ghost var k, b := K(), B();
      UnchangedSteady(k, b);
      var left := unresolved.Keys;
      while left != {}
        invariant RoutesOk() && |rejected| <= MAX_REJECTIONS && fib.Continues() && left <= unresolved.Keys
        invariant forall q :: q in left ==> q in b.unresolved && unresolved[q] == b.unresolved[q]
        invariant forall q :: q in b.unresolved && q !in left ==> Retried(k, K(), b, B(), q)
        invariant k.refused <= K().refused && (K().clean ==> k.clean)
        invariant forall q :: Steady(k, K(), b, B(), q)
        invariant forall q :: Unheard(b, B(), q)
        invariant !changed ==> accepted == old(accepted) && retained == old(retained) && rejected == old(rejected)
      {
        var p :| p in left;
        ghost var k1, b1 := K(), B();
        Retry(p);
        changed := changed || p in accepted;
        UnheardAll(b, b1, B());
        SteadyAll(k, k1, K(), b, b1, B());
        RetriedNext(k, k1, K(), b, b1, B(), p);
        left := left - {p};
      }
    }

    /** An accepted route the kernel rejected on refresh. */
    method FailRefreshed(p: Prefix, ghost k0: Tables, ghost b0: Book) returns (changed: bool)
      requires RoutesOk() && |rejected| <= MAX_REJECTIONS && Refused(k0, K(), p)
      requires forall q :: Steady(k0, K(), b0, B(), q)
      modifies this`accepted, this`unresolved, this`rejected, fib`desired, fib.kernel
      ensures RoutesOk() && |rejected| <= MAX_REJECTIONS && fib.Continues() && K().refused == old(K()).refused
      ensures accepted == old(accepted) - {p} && Only(old(K()), K(), {p})
      ensures forall q :: Steady(k0, K(), b0, B(), q)
      ensures forall q :: Unheard(old(B()), B(), q)
      ensures !changed ==> accepted == old(accepted) && rejected == old(rejected)
    {
      changed := p in accepted;
      if changed {
        ghost var k := K();
        var hop := accepted[p];
        ghost var deleted := FailInstall(p, hop);
        GiveUpComplete(policy.tables, k, K(), old(B()), strays, p, hop, deleted);
        GiveUpSteady(policy.tables, k0, k, K(), b0, old(B()), p, hop, deleted);
      }
    }

    /**
      Reinstalls what is missing and gives up on what the kernel rejects: if the
      tables can be listed, an accepted prefix whose next hop resolves is in every
      table afterwards, or was refused.
    */
    method RefreshAccepted(listable: bool, unresolvable: set<Prefix>) returns (changed: bool)
      requires RoutesOk() && |rejected| <= MAX_REJECTIONS
      modifies this`accepted, this`unresolved, this`rejected, fib`desired, fib.kernel
      ensures RoutesOk() && |rejected| <= MAX_REJECTIONS && fib.Continues()
      ensures forall q :: Steady(old(K()), K(), old(B()), B(), q)
      ensures forall q :: Unheard(old(B()), B(), q)
      ensures forall q :: q in accepted ==> q in old(accepted) && accepted[q] == old(accepted)[q]
      ensures listable ==> forall q :: q in accepted ==>
                q in unresolvable || Mended(old(K()), K(), policy.tables, q)
      ensures old(K()).refused <= K().refused && (K().clean ==> old(K()).clean)
      ensures !changed ==> accepted == old(accepted) && rejected == old(rejected)
    {
      changed := false;
      ghost var k, b := K(), B();
      var gone := fib.Refresh(listable, unresolvable);
      RefreshComplete(policy.tables, k, K(), b, strays);
      MirrorsKeys();
      hide RoutesOk, Steady, Mended;
      ghost var k1 := K();
      var left := gone;
      while left != {}
        invariant RoutesOk() && |rejected| <= MAX_REJECTIONS && fib.Continues() && left <= gone
        invariant K().refused == k1.refused && (K().clean ==> k1.clean)
        invariant forall q :: Steady(k, K(), b, B(), q)
        invariant forall q :: Unheard(b, B(), q)
        invariant forall q :: q in accepted ==> q in b.accepted && accepted[q] == b.accepted[q]
        invariant listable ==> forall q :: q in accepted ==> q in unresolvable || Mended(k, K(), policy.tables, q)
        invariant !changed ==> accepted == old(accepted) && rejected == old(rejected)
      {
        var p :| p in left;
        ghost var k2, b1 := K(), B();
        var failed := FailRefreshed(p, k, b);
        changed := changed || failed;
        UnheardAll(b, b1, B());
        MendedElsewhere(k, k2, K(), policy.tables, p);
        left := left - {p};
      }
    }

    lemma MirrorsKeys()
      requires RoutesOk()
      ensures fib.desired.Keys == accepted.Keys && fib.tables == policy.tables
    {
    }

    /** Tries again to delete what an ended retention left. */
    method DropLeftovers() returns (changed: bool)
      requires RoutesOk()
      modifies this`retaining, this`timer, this`retained, fib`desired, fib.kernel
      ensures RoutesOk() && fib.Continues() && retaining == old(retaining) && (timer == old(timer) || timer.None?)
      ensures !retaining && K().clean ==> retained == {}
      ensures retaining ==> K() == old(K()) && B() == old(B())
      ensures forall q :: SteadyAccepted(old(K()), K(), old(B()), B(), q)
      ensures accepted == old(accepted) && unresolved == old(unresolved) && retained <= old(retained)
      ensures old(K()).refused <= K().refused && (K().clean ==> old(K()).clean)
      ensures !changed ==> retained == old(retained)
    {
      hide RoutesOk, Steady;
      KeepsGoing();
      changed := false;
      if !retaining && retained != {} {
        var before := |retained|;
        ghost var ok := EndRetention();
        changed := |retained| != before;
        if !changed {
          SameSize(retained, old(retained));
        }
      }
    }

    /** What a refresh does, apart from telling the listeners. */
    method RefreshAll(listable: bool, unresolvable: set<Prefix>) returns (changed: bool)
      requires RoutesOk() && |rejected| <= MAX_REJECTIONS
      modifies this`accepted, this`unresolved, this`retained, this`rejected, this`retaining, this`timer, fib`desired,
               fib.kernel
      ensures RoutesOk() && |rejected| <= MAX_REJECTIONS && fib.Continues()
      ensures retaining == old(retaining) && (timer == old(timer) || timer.None?)
      ensures !retaining && K().clean ==> retained == {}
      ensures forall q :: SteadyAccepted(old(K()), K(), old(B()), B(), q)
      ensures retaining ==> forall q :: Steady(old(K()), K(), old(B()), B(), q)
      ensures forall q :: Unheard(old(B()), B(), q)
      ensures forall q :: q in old(unresolved) ==> Retried(old(K()), K(), old(B()), B(), q)
      ensures listable ==> forall q :: q in accepted ==>
                q in unresolvable || Mended(old(K()), K(), policy.tables, q)
      ensures !changed ==> accepted == old(accepted) && retained == old(retained) && rejected == old(rejected)
    {
      hide RoutesOk, Steady, SteadyAccepted, Mended, Retried, Unheard;
      KeepsGoing();
      ghost var k, b := K(), B();
      UnchangedSteady(k, b);
      var dropped := DropLeftovers();
      ghost var k1, b1 := K(), B();
      UnheardLess(b, b1);
      var retried := RetryAll();
      ghost var k2, b2 := K(), B();
      var failed := RefreshAccepted(listable, unresolvable);
      SteadyAll(k1, k2, K(), b1, b2, B());
      SteadyAfter(k, k1, K(), b, b1, B());
      UnheardAll(b1, b2, B());
      UnheardAll(b, b1, B());
      RefreshSums(policy.tables, k, k1, k2, K(), b, b1, b2, B());
      RetainedShrinks(b1, B());
      changed := dropped || retried || failed;
    }

    /**
      Drops leftovers of an ended retention, retries failed paths and reinstalls
      missing routes. A waiting path ends accepted or was refused again; if the
      tables can be listed, an accepted prefix whose next hop resolves is in every
      table, or was refused.
    */
    method RefreshRoutes(listable: bool, unresolvable: set<Prefix>)
      requires Valid()
      modifies this`accepted, this`unresolved, this`retained, this`rejected, this`retaining, this`timer, this`queued,
               fib`desired, fib.kernel
      ensures Valid() && fib.Continues() && retaining == old(retaining) && (timer == old(timer) || timer.None?)
      ensures Notified()
      ensures started && !retaining && K().clean ==> retained == {}
      ensures forall q :: SteadyAccepted(old(K()), K(), old(B()), B(), q)
      ensures retaining ==> forall q :: Steady(old(K()), K(), old(B()), B(), q)
      ensures forall q :: Unheard(old(B()), B(), q)
      ensures !started ==> K() == old(K()) && B() == old(B())
      ensures started ==> forall q :: q in old(unresolved) ==> Retried(old(K()), K(), old(B()), B(), q)
      ensures started && listable ==> forall q :: q in accepted ==>
                q in unresolvable || Mended(old(K()), K(), policy.tables, q)
    {
      hide RoutesOk, Steady, SteadyAccepted, Mended, Retried, Unheard;
      KeepsGoing();
      UnchangedSteady(K(), B());
      UnheardLess(B(), B());
      if started {
        var changed := RefreshAll(listable, unresolvable);
        if changed {
          Enqueue();
        }
      }
    }

    /** Removes kernel routes that are not accepted, once armed; it spares no retained route. */
    method Sweep(listable: bool) returns (ok: bool)
      requires Valid()
      modifies this`strays, fib.kernel
      ensures Valid() && fib.Continues()
      ensures forall q :: SteadyAccepted(old(K()), K(), B(), B(), q)
      ensures strays == if ok && fib.armed then {} else old(strays)
      ensures listable && K().clean ==> ok
      ensures ok && fib.armed ==> forall r :: r in K().routes && r.table in policy.tables ==> r.prefix in accepted
    {
      ghost var k, swept := K(), {};
      ok, swept := fib.SweepStale(listable);
      SweepComplete(policy.tables, k, K(), B(), strays, swept, ok);
      if ok && fib.armed {
        strays := {};
      }
    }

    // Lifecycle.

    lemma Tabled()
      requires RoutesOk()
      ensures fib.tables == policy.tables
    {
    }

    method Retain(installed: set<Prefix>)
      requires Valid() && !started
      requires forall p :: p in installed <==> exists t :: t in policy.tables && Route(t, p) in K().routes
      modifies this`retaining, this`retained, this`timer, this`generation, this`strays
      ensures Valid() && retaining && retained == old(retained) + installed && strays == {}
      ensures generation == old(generation) + 1 && timer == Some(generation)
    {
      hide Complete;
      ghost var b, before := B(), strays;
      retaining, retained := true, retained + installed;
      generation := generation + 1;
      timer := Some(generation);
      strays := {};
      RecordedComplete(policy.tables, K(), b, before, installed);
    }

    /** Records the previous process's routes before the session starts, and arms the deadline. */
    method KeepRoutes(listable: bool) returns (ok: bool)
      requires Valid()
      modifies this`retaining, this`retained, this`timer, this`generation, this`strays, this`queued
      ensures queued == if ok then old(queued) + [Snapshot()] else old(queued)
      ensures Valid() && (!ok ==> B() == old(B()) && retaining == old(retaining) && strays == old(strays))
      ensures !ok ==> Snapshot() == old(Snapshot()) && generation == old(generation) && timer == old(timer)
      ensures listable && policy.restartSeconds > 0 && !started && !old(retaining) ==> ok
      ensures ok ==>
                          !started && retaining && generation == old(generation) + 1
                          && timer == Some(generation) && strays == {}
      ensures ok ==> forall p ::
                p in retained <==> p in old(retained) || exists t :: t in policy.tables && Route(t, p) in K().routes
    {
      Tabled();
      hide RoutesOk;
      if policy.restartSeconds == 0 {
        return false;
      }
      var installed := fib.Installed(listable);
      if installed.None? || started || retaining {
        return false;
      }
      Retain(installed.value);
      Enqueue();
      ok := true;
    }

    /** Runs the server; after `KeepRoutes` the peer is added later. */
    method Start(runs: bool) returns (ok: bool)
      requires Valid()
      modifies this`started, this`connected, fib`armed
      ensures Valid() && ok == started == (old(started) || runs) && (old(started) ==> ok && connected == old(connected))
      ensures ok && !old(started) ==> connected == !retaining && fib.armed
    {
      if started {
        return true;
      }
      ok := runs;
      if ok {
        fib.ArmSweep();
        started, connected := true, !retaining;
      }
    }

    method Connect(added: bool) returns (ok: bool)
      requires Valid()
      modifies this`connected
      ensures Valid() && (ok <==> started && (old(connected) || added)) && connected == (old(connected) || ok)
    {
      if !started || connected {
        return started;
      }
      ok := added;
      if ok {
        connected := true;
      }
    }

    method Reset()
      modifies this
      ensures !started && !connected && !established && !retaining && B() == Book(map[], map[], {}) && advertised == {}
      ensures timer == old(timer) && generation == old(generation) && rejected == old(rejected) && strays == old(strays)
      ensures queued == old(queued)
    {
      started, connected, retaining, established := false, false, false, false;
      accepted, unresolved, advertised, retained := map[], map[], {}, {};
    }

    /** Deletes the retained routes and the peer's; the book is cleared afterwards. */
    method WithdrawRoutes() returns (ok: bool)
      requires RoutesOk()
      modifies this`retaining, this`timer, this`retained, fib`desired, fib.kernel
      ensures fib.Continues() && K().refused == old(K()).refused && fib.desired == map[] && timer.None?
      ensures Complete(policy.tables, K(), Book(map[], map[], {}), strays)
    {
      hide Only, InNone;
      ghost var k, b := K(), B();
      ghost var dropped := DropRetained();
      DropComplete(policy.tables, k, K(), b, strays, retained, dropped);
      ghost var k1 := K();
      assert fib.desired == old(fib.desired);
      MirrorsPeer(fib.desired, b.accepted, peer);
      ok := fib.WithdrawPeer(peer);
      EmptyComplete(policy.tables, k1, K(), b.(retained := retained), strays, ok);
      assert K().clean ==> retained == {};
    }

    /** The session learned prefixes without a peer that is up and retains none: `Stop` tells no listener. */
    ghost predicate Unsaid()
      reads this`started, this`established, this`retained, this`accepted
    {
      started && !established && retained == {} && accepted != map[]
    }

    /** A session emptied without a queued state is still told exactly if it was empty before. */
    twostate lemma EmptyTold()
      requires !established && accepted == map[] && retained == {} && rejected == old(rejected)
      requires queued == old(queued) + [Snapshot()] || queued == old(queued)
      ensures queued == old(queued) + [Snapshot()] ==> Told()
      ensures old(Told()) && queued == old(queued) ==>
                (Told() <==> !old(established) && old(accepted) == map[] && old(retained) == {})
    {
    }

    /**
      Stops the session and removes its routes; with a clean kernel only strays are
      left. The listeners learn of it unless the session is `Unsaid`.
    */
    method Stop() returns (ok: bool)
      requires Valid()
      modifies this, fib`desired, fib.kernel
      ensures Valid() && fib.Continues() && !started && strays == old(strays)
      ensures old(started) ==> B() == Book(map[], map[], {}) && !retaining && timer.None?
      ensures old(started) && K().clean ==> forall r :: r in K().routes && r.table in policy.tables ==>
              r.prefix in strays
      ensures old(Told()) ==> (Told() <==> !old(Unsaid()))
      ensures K().refused == old(K()).refused
      ensures queued == if old(started && (established || retained != {})) then old(queued) + [Snapshot()]
                        else old(queued)
    {
      hide Told;
      if !started {
        return true;
      }
      var changed := established || retained != {};
      ok := WithdrawRoutes();
      Reset();
      if changed {
        Enqueue();
      }
      EmptyTold();
    }

    /**
      The last act of a process that restarts: the book is cleared, and the
      installer and the tables stay as they are. The listeners learn of it unless
      prefixes are accepted or retained without a peer that is up.
    */
    method StopRetaining() returns (ok: bool)
      requires Valid()
      modifies this
      ensures K() == old(K()) && fib.desired == old(fib.desired) && strays == old(strays)
      ensures policy.restartSeconds == 0 ==> !ok && B() == old(B()) && started == old(started)
      ensures policy.restartSeconds > 0 && old(started) ==> !started && timer.None? && B() == Book(map[], map[], {})
      ensures K().clean ==> forall p :: p in old(accepted) ==> InAll(K().routes, policy.tables, p)
      ensures old(Told()) ==> (Told() <==> || policy.restartSeconds == 0 || !old(started) || old(established)
                                           || (old(accepted) == map[] && old(retained) == {}))
      ensures queued == if policy.restartSeconds > 0 && old(started && established) then old(queued) + [Snapshot()]
                        else old(queued)
    {
      if policy.restartSeconds == 0 {
        return false;
      }
      if !started {
        return true;
      }
      timer := None;
      ok := *;
      var was := established;
      Reset();
      if was {
        Enqueue();
      }
    }

    /** Advertises and withdraws exports until they match what is wanted, trying every rule. */
    method SetAdvertisement(eligible: bool, backup: set<Prefix>, failing: set<Prefix>) returns (ok: bool)
      requires Valid()
      modifies this`advertised
      ensures Valid() && (!started ==> !ok && advertised == old(advertised))
      ensures started && failing == {} ==> ok
      ensures started ==> forall i :: 0 <= i < |policy.exports| && Unique(policy, i) ==>
                var p := policy.exports[i].prefix;
                var wanted := eligible && (policy.exports[i].always || p in backup);
                && (p in advertised <==> if p in failing then p in old(advertised) else wanted)
                && (ok ==> (p in advertised <==> wanted))
    {
      if !started {
        return false;
      }
      ok := true;
      for i := 0 to |policy.exports|
        invariant (forall p :: p in advertised ==> Exports(policy, p)) && (failing == {} ==> ok)
        invariant forall j :: i <= j < |policy.exports| && Unique(policy, j) ==>
                    (policy.exports[j].prefix in advertised <==> policy.exports[j].prefix in old(advertised))
        invariant forall j :: 0 <= j < i && Unique(policy, j) ==>
                    var p, wanted := policy.exports[j].prefix, ExportWanted(policy.exports[j], eligible, backup);
                    && (p in advertised <==> if p in failing then p in old(advertised) else wanted)
                    && (ok ==> (p in advertised <==> wanted))
      {
        var rule := policy.exports[i];
        var wanted := ExportWanted(rule, eligible, backup);
        if wanted != (rule.prefix in advertised) {
          var done := rule.prefix !in failing;
          if done {
            advertised := if wanted then advertised + {rule.prefix} else advertised - {rule.prefix};
          }
          ok := ok && done;
        }
      }
    }

    /** One event of a process that has not left its routes behind. */
    method Step(e: Event)
      requires Valid()
      modifies this, fib, fib.kernel
      ensures Valid() && fib.Continues() && strays <= old(strays)
      ensures e.Peer? && old(started) ==> established == e.up
      ensures e == Peer(false) && old(established) ==>
                accepted == map[] && unresolved == map[] && (K().clean ==> retained == {})
      ensures e.Best? && old(started) ==> forall q :: Batched(policy, e.paths, q, old(K()), K(), old(B()), B())
      ensures e.Eor? && old(started) && e.listed.Some? ==>
                !retaining && forall q :: Listed(policy, e.listed.value, q, old(K()), K(), old(B()), B())
      ensures e.Timer? && old(retaining) && e.fired == old(generation) ==> !retaining && (K().clean ==> retained == {})
      ensures e.Refresh? && old(started) ==>
                forall q :: q in old(unresolved) ==> Retried(old(K()), K(), old(B()), B(), q)
      ensures e.Halt? && old(started) ==> !started && B() == Book(map[], map[], {})
      ensures !e.Halt? ==> Notified()
      ensures e.Halt? && old(Told()) ==> (Told() <==> !old(Unsaid()))
    {
      hide Valid, RoutesOk, Batched, Listed, Retried;
      ValidKernel();
      match e
      case Peer(up) =>
        var failing: set<Prefix> := *;
        PeerEvent(up, failing);
      case Best(paths) => BestPaths(paths);
      case Eor(listed) => EndOfRib(listed);
      case Timer(fired, listed) => Deadline(fired, listed);
      case Refresh(listable, unresolvable) => RefreshRoutes(listable, unresolvable);
      case SweepTables(listable) =>
        var ok := Sweep(listable);
      case Advertise(eligible, backup, failing) =>
        var ok := SetAdvertisement(eligible, backup, failing);
      case Keep(listable) =>
        var ok := KeepRoutes(listable);
        if !ok {
          NothingNew();
        }
      case StartUp(runs) =>
        var ok := Start(runs);
      case Dial(added) =>
        var ok := Connect(added);
      case Halt =>
        var ok := Stop();
    }

    lemma ValidKernel()
      requires Valid()
      ensures fib.kernel.Valid() && fib.kernel.history != []
    {
    }

    /**
      Any run of events: the accepted prefixes are exactly what the installer
      wants, with the same next hops, apart from the waiting, the retained and
      the exported ones; and while the kernel stays clean the tables hold every
      accepted prefix, and nothing that is not accepted, retained or a stray.
      Strays are never added: they are what the tables held before the session,
      until `KeepRoutes` or an armed sweep without an error leaves none. Until the
      session is stopped, the last state queued for the listeners is current.
    */
    method Run(events: seq<Event>)
      requires Valid()
      modifies this, fib, fib.kernel
      ensures Valid() && fib.Continues() && strays <= old(strays)
      ensures fib.desired.Keys == accepted.Keys && forall p :: p in accepted ==>
              fib.desired[p] == Desired(peer, accepted[p])
      ensures accepted.Keys !! unresolved.Keys && accepted.Keys !! retained && forall p :: p in accepted ==>
              !Exports(policy, p)
      ensures K().clean ==> forall p :: p in accepted ==> InAll(K().routes, policy.tables, p)
      ensures K().clean ==> forall r :: r in K().routes && r.table in policy.tables ==>
                r.prefix in accepted || r.prefix in retained || r.prefix in strays
      ensures old(Told()) && Halt !in events ==> Told()
    {
      ValidKernel();
      for n := 0 to |events|
        invariant Valid() && fib.Continues() && strays <= old(strays)
        invariant old(Told()) && Halt !in events[..n] ==> Told()
      {
        label Before:
        Step(events[n]);
        if old(Told()) && Halt !in events[..n + 1] {
          assert events[n] in events[..n + 1];
          assert forall e :: e in events[..n] ==> e in events[..n + 1];
          StillTold@Before();
        }
      }
      assert events[..|events|] == events;
    }
  }

  /**
    A whole life of a session: with a clean kernel, each owned table holds every
    accepted prefix, and nothing that is not accepted, retained or was there
    before; and until the session stops, its listeners were told its state.
  */
  method Operate(policy: Policy, peer: nat, kernel: Kernel, events: seq<Event>) returns (session: Session)
    requires kernel.Valid()
    modifies kernel
    ensures fresh(session) && session.Valid() && session.policy == policy && session.fib.kernel == kernel
    ensures kernel.clean ==> forall p :: p in session.accepted ==> InAll(kernel.routes, policy.tables, p)
    ensures kernel.clean ==> forall r :: r in kernel.routes && r.table in policy.tables ==>
              || r.prefix in session.accepted || r.prefix in session.retained
              || exists t :: Route(t, r.prefix) in old(kernel.routes)
    ensures Halt !in events ==> session.Told()
  {
    session := new Session(policy, peer, kernel);
    forall p | p in session.strays ensures exists t :: Route(t, p) in old(kernel.routes) {
      var r :| r in kernel.routes && r.prefix == p;
      assert r == Route(r.table, p);
    }
    session.Run(events);
  }

  /** The first path a session applies is accepted alone, or refused. */
  lemma FirstPath(policy: Policy, path: Path, k: Tables, k': Tables, b: Book)
    requires path.prefix.Some? && Announces(path, path.prefix.value) && Importable(policy, path.prefix.value)
    requires forall q :: Batched(policy, [path], q, k, k', Book(map[], map[], {}), b)
    ensures b.accepted.Keys <= {path.prefix.value} && b.retained <= {path.prefix.value}
    ensures Refused(k, k', path.prefix.value) || path.prefix.value in b.accepted
  {
    var p := path.prefix.value;
    assert Spared([path], p) && !Silent([path], p) && Batched(policy, [path], p, k, k', Book(map[], map[], {}), b);
    forall q | q != p ensures q !in b.accepted && q !in b.retained {
      assert Batched(policy, [path], q, k, k', Book(map[], map[], {}), b);
      assert Unmoved(policy, [path], q);
    }
  }

  /**
    A stop that no listener learns of: a session that accepted a prefix before its
    peer was up stops, and the last state queued still lists that prefix.
  */
  method UnsaidStop(policy: Policy, peer: nat, kernel: Kernel, path: Path, keep: bool) returns (session: Session)
    requires kernel.Valid() && policy.restartSeconds > 0
    requires path.prefix.Some? && Announces(path, path.prefix.value) && Importable(policy, path.prefix.value)
    modifies kernel
    ensures !Refused(old(kernel.Now()), kernel.Now(), path.prefix.value) ==>
              && !session.Told() && session.accepted == map[]
              && LastTold(session.queued).accepted == {path.prefix.value}
  {
    session := new Session(policy, peer, kernel);
    ghost var k := session.K();
    var started := session.Start(true);
    label Fresh:
    session.BestPaths([path]);
    session.StillTold@Fresh();
    FirstPath(policy, path, k, session.K(), session.B());
    session.Apart(path.prefix.value);
    if keep {
      var ok := session.StopRetaining();
    } else {
      var ok := session.Stop();
    }
  }
}
