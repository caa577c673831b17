/**
  The internal BGP speaker's learned routes: best paths go into the installer
  unless they are defaults or cover a connected network, and a periodic sweep
  reapplies the current best paths and deletes what is not desired.
*/
module Speaker {
  import opened Wire
  import opened Routes

  /** A best path; `prefix` is absent when it is not a unicast prefix learned from a peer. */
  datatype PeerPath = PeerPath(peer: nat, prefix: Option<Prefix>, withdrawal: bool, stale: bool, best: bool,
                               hop: Option<Hop>)

  /** The prefix matches or covers a connected network of the interface. */
  predicate CoversConnected(connected: set<Prefix>, p: Prefix) {
    exists c :: c in connected && Contains(p, c)
  }

  /** A current path that belongs in the tables. */
  predicate Wanted(path: PeerPath, connected: set<Prefix>) {
    && path.best && !path.stale && !path.withdrawal
    && path.prefix.Some? && |path.prefix.value.bits| > 0 && path.hop.Some?
    && forall c :: c in connected ==> !Contains(path.prefix.value, c)
  }

  /** A path of the speaker's table and what the read of the connected networks answers when it is applied. */
  datatype Given = Given(path: PeerPath, connected: Option<set<Prefix>>)

  /** One family's best paths, and how many of them the listing hands over before it fails, if it does. */
  datatype Listing = Listing(paths: seq<Given>, reported: nat) {
    function Reported(): seq<Given> {
      if reported < |paths| then paths[..reported] else paths
    }
  }

  /** The reapplication installs the path. */
  predicate Applies(v4: bool, g: Given) {
    g.connected.Some? && Wanted(g.path, g.connected.value) && g.path.prefix.value.v4 == v4
  }

  /** What reapplying the paths makes desired. */
  ghost function Reapplied(v4: bool, given: seq<Given>, desired: map<Prefix, Desired>): map<Prefix, Desired> {
    if given == [] then desired else
      var last := given[|given| - 1];
      var before := Reapplied(v4, given[..|given| - 1], desired);
      if !Applies(v4, last) then before
      else before[last.path.prefix.value := Desired(last.path.peer, last.path.hop.value)]
  }

  /** Exactly the prefixes that heal join the desired ones. */
  lemma {:induction false} ReappliedKeys(v4: bool, given: seq<Given>, desired: map<Prefix, Desired>, p: Prefix)
    ensures p in Reapplied(v4, given, desired) <==> p in desired || Names(v4, given, p)
  {
    if given != [] {
      var most, last := given[..|given| - 1], given[|given| - 1];
      ReappliedKeys(v4, most, desired, p);
      assert given == most + [last];
      if Names(v4, most, p) {
        var i :| 0 <= i < |most| && Applies(v4, most[i]) && most[i].path.prefix.value == p;
        assert given[i] == most[i];
      }
    }
  }

  ghost predicate Names(v4: bool, given: seq<Given>, p: Prefix) {
    exists i :: 0 <= i < |given| && Applies(v4, given[i]) && given[i].path.prefix.value == p
  }

  /** Some listing handed over a path for the prefix that is wanted and could be checked. */
  ghost predicate Current(first: Listing, second: Listing, p: Prefix) {
    Names(true, first.Reported(), p) || Names(false, second.Reported(), p)
  }

  lemma InstallKeeps(k: Tables, k': Tables, tables: seq<nat>, p: Prefix, ok: bool)
    requires Installs(k, k', tables, p, ok)
    ensures Kept(k, k', tables) && Mended(k, k', tables, p)
  {
  }

  /** Only a refused prefix lost a route. */
  ghost predicate Kept(k: Tables, k': Tables, tables: seq<nat>) {
    && k.refused <= k'.refused && (forall p :: InAll(k.routes, tables, p) ==> Mended(k, k', tables, p))
    && (forall r :: r in k.routes ==> r in k'.routes || Refused(k, k', r.prefix))
  }

  lemma KeptNext(k: Tables, k1: Tables, k2: Tables, tables: seq<nat>)
    requires Kept(k, k1, tables) && Kept(k1, k2, tables)
    ensures Kept(k, k2, tables)
    ensures forall p :: Mended(k, k1, tables, p) || Mended(k1, k2, tables, p) ==> Mended(k, k2, tables, p)
  {
  }

  lemma KeptSelf(k: Tables, tables: seq<nat>)
    ensures Kept(k, k, tables)
  {
  }

  class Speaker {
    const fib: Fib
    var started: bool

    constructor (tables: seq<nat>, kernel: Kernel)
      ensures fresh(fib) && fib.tables == tables && fib.kernel == kernel && !started
      ensures fib.desired == map[] && !fib.armed
    {
      fib := new Fib(tables, kernel);
      started := false;
    }

    ghost function K(): Tables
      reads fib.kernel
    {
      fib.kernel.Now()
    }

    /** Every applied path is desired and, unless its installation was refused meanwhile, in every table. */
    ghost predicate Installed(k: Tables, v4: bool, given: seq<Given>)
      reads fib`desired, fib.kernel
    {
      forall i :: 0 <= i < |given| && Applies(v4, given[i]) ==>
        var p := given[i].path.prefix.value;
        p in fib.desired && Mended(k, K(), fib.tables, p)
    }

    /** Converts one best path into an installer event; defaults and connected networks are left alone. */
    method ApplyBestPath(path: PeerPath, connected: Option<set<Prefix>>) returns (ghost ok: bool)
      requires fib.kernel.Valid()
      modifies fib`desired, fib.kernel
      ensures fib.Continues()
      ensures path.prefix.None? || |path.prefix.value.bits| == 0 ==> K() == old(K()) && fib.desired == old(fib.desired)
      ensures path.withdrawal && path.prefix.Some? && |path.prefix.value.bits| > 0 ==>
                fib.desired == old(fib.desired) - (set q | q in old(fib.desired)
                  && old(fib.desired)[q].peer == path.peer
                                                          && Contains(path.prefix.value, q))
      ensures !path.withdrawal ==>
                if path.prefix.Some? && |path.prefix.value.bits| > 0 && path.hop.Some? && connected.Some?
                   && forall c :: c in connected.value ==> !Contains(path.prefix.value, c)
                then
                  && fib.desired == old(fib.desired)[path.prefix.value := Desired(path.peer, path.hop.value)]
                  && Installs(old(K()), K(), fib.tables, path.prefix.value, ok)
                else K() == old(K()) && fib.desired == old(fib.desired)
    {
      ok := true;
      if path.prefix.None? || |path.prefix.value.bits| == 0 {
        return;
      }
      var p := path.prefix.value;
      if path.withdrawal {
        var deleted := fib.Withdraw(path.peer, p);
        return;
      }
      if path.hop.None? || connected.None? || CoversConnected(connected.value, p) {
        return;
      }
      var installed := fib.Apply(path.peer, p, path.hop.value);
      ok := installed;
    }

    /** A current path of a listing is applied again; the others are skipped. */
    method ReapplyOne(v4: bool, g: Given)
      requires fib.kernel.Valid()
      modifies fib`desired, fib.kernel
      ensures fib.Continues()
      ensures if Applies(v4, g)
              then
                && fib.desired == old(fib.desired)[g.path.prefix.value := Desired(g.path.peer, g.path.hop.value)]
                && Kept(old(K()), K(), fib.tables) && Mended(old(K()), K(), fib.tables, g.path.prefix.value)
              else K() == old(K()) && fib.desired == old(fib.desired)
    {
      hide Kept, Mended, Installs;
      var path := g.path;
      if (path.prefix.Some? && path.prefix.value.v4 != v4) || !path.best || path.stale || path.withdrawal {
        return;
      }
      ghost var ok := ApplyBestPath(path, g.connected);
      if Applies(v4, g) {
        InstallKeeps(old(K()), K(), fib.tables, path.prefix.value, ok);
      }
    }

    /**
      Reapplies what one family's listing hands over. A path whose connected
      networks cannot be read is skipped like an unwanted one, and a failure of
      the listing ends it without a word.
    */
    method ReapplyFamily(v4: bool, listing: Listing)
      requires fib.kernel.Valid()
      modifies fib`desired, fib.kernel
      ensures fib.Continues() && Kept(old(K()), K(), fib.tables)
      ensures fib.desired == Reapplied(v4, listing.Reported(), old(fib.desired))
      ensures Installed(old(K()), v4, listing.Reported()) && old(fib.desired).Keys <= fib.desired.Keys
    {
      hide InAll, Applies, Mended, Kept;
      KeptSelf(K(), fib.tables);
      var given := listing.Reported();
      for n := 0 to |given|
        invariant fib.Continues() && Kept(old(K()), K(), fib.tables)
        invariant fib.desired == Reapplied(v4, given[..n], old(fib.desired))
        invariant Installed(old(K()), v4, given[..n]) && old(fib.desired).Keys <= fib.desired.Keys
      {
        ghost var k := K();
        ReapplyOne(v4, given[n]);
        if Applies(v4, given[n]) {
          AppliedPrefix(v4, given[n]);
          KeptNext(old(K()), k, K(), fib.tables);
        }
        assert given[..n + 1] == given[..n] + [given[n]];
        assert given[..n + 1][..n] == given[..n];
      }
      assert given[..|given|] == given;
    }

    /** Reapplies both families' current best paths. */
    method ReapplyBestPaths(first: Listing, second: Listing)
      requires fib.kernel.Valid()
      modifies fib`desired, fib.kernel
      ensures fib.Continues() && Healed(first, second) && Kept(old(K()), K(), fib.tables)
    {
      hide InAll, Applies, Reapplied, Names, Kept, Mended;
      ReapplyFamily(true, first);
      ghost var k := K();
      ReapplyFamily(false, second);
      KeptNext(old(K()), k, K(), fib.tables);
      forall p ensures p in fib.desired <==> p in old(fib.desired) || Current(first, second, p) {
        ReappliedKeys(true, first.Reported(), old(fib.desired), p);
        ReappliedKeys(false, second.Reported(), Reapplied(true, first.Reported(), old(fib.desired)), p);
      }
    }

    /**
      What a reapplication leaves: a prefix is desired exactly if it was, or if a
      path for it was handed over, wanted, and read against its connected
      networks; and such a path is in every table unless it was refused.
    */
    twostate predicate Healed(first: Listing, second: Listing)
      reads fib`desired, fib.kernel
    {
      && fib.desired == Reapplied(false, second.Reported(), Reapplied(true, first.Reported(), old(fib.desired)))
      && (forall p :: p in fib.desired <==> p in old(fib.desired) || Current(first, second, p))
      && Installed(old(K()), true, first.Reported()) && Installed(old(K()), false, second.Reported())
    }

    /**
      One sweep of a started speaker heals exactly the paths whose listing and
      read succeeded, whatever it answers. Without an error, an armed sweep leaves
      only desired routes in the owned tables; an unarmed one deletes nothing.
    */
    method SweepStale(first: Listing, second: Listing, listable: bool) returns (ok: bool)
      requires fib.kernel.Valid()
      modifies fib`desired, fib.kernel
      ensures fib.Continues()
      ensures listable && K().clean ==> ok
      ensures if started then Healed(first, second) else fib.desired == old(fib.desired)
      ensures fib.armed && ok ==> forall r :: r in K().routes && r.table in fib.tables ==> r.prefix in fib.desired
      ensures !fib.armed ==> ok && Kept(old(K()), K(), fib.tables)
    {
      hide Reapplied, Names, Applies;
      if started {
        ReapplyBestPaths(first, second);
      }
      ghost var k, swept := K(), {};
      ok, swept := fib.SweepStale(listable);
      assert forall p :: p in fib.desired && InAll(k.routes, fib.tables, p) ==> InAll(K().routes, fib.tables, p);
    }
  }

  lemma AppliedPrefix(v4: bool, g: Given)
    requires Applies(v4, g)
    ensures g.path.prefix.Some? && g.path.hop.Some?
  {
  }

  /**
    The answer does not tell: with a listing that hands nothing over, the sweep
    answers without an error and leaves every best path out.
  */
  method UnhealedSweep(tables: seq<nat>, kernel: Kernel, paths: seq<Given>)
    returns (ok: bool, ghost desired: set<Prefix>)
    requires kernel.Valid()
    modifies kernel
    ensures ok && desired == {}
  {
    var speaker := new Speaker(tables, kernel);
    speaker.started := true;
    var first, second := Listing(paths, 0), Listing(paths, 0);
    assert first.Reported() == [] && second.Reported() == [];
    ok := speaker.SweepStale(first, second, false);
    desired := speaker.fib.desired.Keys;
  }
}
