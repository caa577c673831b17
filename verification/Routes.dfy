/**
  Kernel routing tables and the route installer (FIB) over them. The kernel
  outlives the process that writes it; writes, deletions and listings may fail.
  Ghost state remembers what happened to each prefix since a mark.
*/
module Routes {
  import opened Wire

  /** A masked prefix, as its leading bits. */
  datatype Prefix = Prefix(v4: bool, bits: seq<bool>)

  /** Every address of prefix `b` is in prefix `a`. */
  predicate Contains(a: Prefix, b: Prefix) {
    a.v4 == b.v4 && a.bits <= b.bits
  }

  /** That is what containment of leading bits means, for addresses at least as long as both. */
  lemma ContainsMeans(a: Prefix, b: Prefix, width: nat)
    requires |a.bits| <= width && |b.bits| <= width
    ensures Contains(a, b) <==>
              a.v4 == b.v4 && forall address: seq<bool> :: |address| == width && b.bits <= address ==> a.bits <= address
  {
    if a.v4 == b.v4 && forall address: seq<bool> :: |address| == width && b.bits <= address ==> a.bits <= address {
      var low := b.bits + seq(width - |b.bits|, _ => false);
      var high := b.bits + seq(width - |b.bits|, _ => true);
      assert b.bits <= low && b.bits <= high && a.bits <= low && a.bits <= high;
      assert |b.bits| < width ==> low[|b.bits|] != high[|b.bits|];
    }
  }

  type Hop = nat

  /** A route of this installer's interface and metric in one table. */
  datatype Route = Route(table: nat, prefix: Prefix)

  /**
    The tables, with what happened since the mark: `clean` while no deletion
    failed and no failed write changed anything, the prefixes that lost a route,
    and the prefixes whose installation failed.
  */
  datatype Tables = Tables(routes: set<Route>, clean: bool, lost: set<Prefix>, refused: multiset<Prefix>)

  ghost predicate InAll(routes: set<Route>, tables: seq<nat>, p: Prefix) {
    forall t :: t in tables ==> Route(t, p) in routes
  }

  ghost predicate InNone(routes: set<Route>, tables: seq<nat>, p: Prefix) {
    forall t :: t in tables ==> Route(t, p) !in routes
  }

  /** Nothing happened to any prefix outside the set, and the record only grows. */
  ghost predicate Only(k: Tables, k': Tables, ps: set<Prefix>) {
    && (forall r :: r in k.routes && r.prefix !in ps ==> r in k'.routes)
    && (forall r :: r in k'.routes && r.prefix !in ps ==> r in k.routes)
    && k.lost <= k'.lost <= k.lost + ps
    && k.refused <= k'.refused && (forall p :: p !in ps ==> k'.refused[p] == k.refused[p])
    && (k'.clean ==> k.clean)
  }

  /** An installation of the prefix was refused meanwhile. */
  ghost predicate Refused(k: Tables, k': Tables, p: Prefix) {
    k'.refused[p] > k.refused[p]
  }

  /** An attempt to write the prefix into every table. */
  ghost predicate Installs(k: Tables, k': Tables, tables: seq<nat>, p: Prefix, ok: bool) {
    && Only(k, k', {p})
    && (k'.clean || ok ==> k.routes <= k'.routes && k'.lost == k.lost)
    && if ok then k'.clean == k.clean && k'.refused == k.refused && InAll(k'.routes, tables, p)
       else Refused(k, k', p)
  }

  /** An attempt to delete the prefixes from every table. */
  ghost predicate Deletes(k: Tables, k': Tables, tables: seq<nat>, ps: set<Prefix>, ok: bool) {
    && Only(k, k', ps) && k'.routes <= k.routes && k'.refused == k.refused
    && if ok then k'.clean == k.clean && forall p :: p in ps ==> InNone(k'.routes, tables, p) else !k'.clean
  }

  lemma InstallsNext(k: Tables, k1: Tables, k2: Tables, ts: seq<nat>, t: nat, p: Prefix, ok1: bool, ok2: bool)
    requires Installs(k, k1, ts, p, ok1) && Installs(k1, k2, [t], p, ok2)
    ensures Installs(k, k2, ts + [t], p, ok1 && ok2)
  {
  }

  lemma DeletesNext(k: Tables, k1: Tables, k2: Tables, ts: seq<nat>, t: nat, p: Prefix, ok1: bool, ok2: bool)
    requires Deletes(k, k1, ts, {p}, ok1) && Deletes(k1, k2, [t], {p}, ok2)
    ensures Deletes(k, k2, ts + [t], {p}, ok1 && ok2)
  {
    assert ok1 ==> InNone(k1.routes, ts, p);
    assert ok2 ==> InNone(k2.routes, [t], p);
  }

  lemma DeletesMore(k: Tables, k1: Tables, k2: Tables, ts: seq<nat>, ps: set<Prefix>, p: Prefix, ok1: bool, ok2: bool)
    requires Deletes(k, k1, ts, ps, ok1) && Deletes(k1, k2, ts, {p}, ok2)
    ensures Deletes(k, k2, ts, ps + {p}, ok1 && ok2)
  {
    if ok1 && ok2 {
      forall q | q in ps + {p} ensures InNone(k2.routes, ts, q) {
        assert q in ps ==> InNone(k1.routes, ts, q);
        assert InNone(k2.routes, ts, p);
      }
    }
  }

  /** A round of writes: a prefix that was not refused lost nothing. */
  ghost predicate Writes(k: Tables, k': Tables, ps: set<Prefix>) {
    && Only(k, k', ps)
    && (forall p :: p in k'.lost && p !in k.lost ==> Refused(k, k', p))
    && (forall r :: r in k.routes && r !in k'.routes ==> Refused(k, k', r.prefix))
    && (k'.clean ==> k.routes <= k'.routes && k'.lost == k.lost)
  }

  lemma WritesMore(k: Tables, k1: Tables, k2: Tables, tables: seq<nat>, ps: set<Prefix>, p: Prefix, ok: bool)
    requires Writes(k, k1, ps) && Installs(k1, k2, tables, p, ok) && p in ps
    ensures Writes(k, k2, ps)
  {
  }

  /** The prefix is in every table, unless an installation of it was refused meanwhile. */
  ghost predicate Mended(k: Tables, k': Tables, tables: seq<nat>, p: Prefix) {
    Refused(k, k', p) || InAll(k'.routes, tables, p)
  }

  lemma NotMissing(k: Tables, k': Tables, tables: seq<nat>, ps: set<Prefix>, p: Prefix)
    requires Writes(k, k', ps) && InAll(k.routes, tables, p)
    ensures Mended(k, k', tables, p)
  {
  }

  lemma MendedStill(k: Tables, k1: Tables, k2: Tables, tables: seq<nat>, p: Prefix, ok: bool)
    requires k.refused <= k1.refused && Installs(k1, k2, tables, p, ok)
    ensures Mended(k, k2, tables, p)
    ensures forall q :: Mended(k, k1, tables, q) ==> Mended(k, k2, tables, q)
  {
  }

  /** A round of deletions that touches none of the prefixes to keep. */
  ghost predicate Sweeps(k: Tables, k': Tables, swept: set<Prefix>, ok: bool) {
    Only(k, k', swept) && k'.routes <= k.routes && k'.refused == k.refused && (ok ==> k'.clean == k.clean)
  }

  lemma SweepsMore(k: Tables, k1: Tables, k2: Tables, swept: set<Prefix>, t: nat, p: Prefix, ok1: bool, ok2: bool)
    requires Sweeps(k, k1, swept, ok1) && Deletes(k1, k2, [t], {p}, ok2)
    ensures Sweeps(k, k2, swept + {p}, ok1 && ok2)
  {
  }

  lemma NoTables(routes: set<Route>, p: Prefix)
    ensures InAll(routes, [], p) && InNone(routes, [], p)
  {
  }

  lemma InAllGrows(routes: set<Route>, routes': set<Route>, ts: seq<nat>)
    ensures routes <= routes' ==> forall p :: InAll(routes, ts, p) ==> InAll(routes', ts, p)
  {
  }

  lemma SweepsJoin(k: Tables, k1: Tables, k2: Tables, a: set<Prefix>, b: set<Prefix>, ok1: bool, ok2: bool)
    requires Sweeps(k, k1, a, ok1) && Sweeps(k1, k2, b, ok2)
    ensures Sweeps(k, k2, a + b, ok1 && ok2)
  {
  }

  class Kernel {
    var routes: set<Route>
    ghost var clean: bool
    ghost var lost: set<Prefix>
    /** How often an installation of each prefix was refused. */
    ghost var refused: multiset<Prefix>
    /** Every state of the tables since the mark. */
    ghost var history: seq<set<Route>>

    ghost function Now(): Tables
      reads this
    {
      Tables(routes, clean, lost, refused)
    }

    /** A prefix that lost nothing has kept, in every state, each route it had at the mark. */
    ghost predicate Valid()
      reads this
    {
      && history != [] && history[|history| - 1] == routes
      && forall i, r :: 0 <= i < |history| && r in history[0] && r.prefix !in lost ==> r in history[i]
    }

    /** Starts a new record. */
    ghost method Mark()
      modifies this`history, this`lost, this`refused
      ensures Valid() && history == [routes] && lost == {} && refused == multiset{}
    {
      history, lost, refused := [routes], {}, multiset{};
    }

    /** Records that a prefix could not be installed. */
    ghost method Refuse(p: Prefix)
      requires Valid()
      modifies this`refused
      ensures Valid() && Now() == old(Now()).(refused := old(refused) + multiset{p})
    {
      refused := refused + multiset{p};
    }

    /** Replaces one route; a failed write may leave it as it was, there or not. */
    method Reconcile(route: Route) returns (ok: bool)
      requires Valid()
      modifies this
      ensures Valid() && old(history) <= history
      ensures Installs(old(Now()), Now(), [route.table], route.prefix, ok)
      ensures forall r :: r in routes && r != route ==> r in old(routes)
      ensures forall r :: r in old(routes) && r != route ==> r in routes
    {
      ok := *;
      var left: bool := *;
      if ok {
        routes := routes + {route};
      } else {
        refused := refused + multiset{route.prefix};
        if left {
          clean := false;
          var present: bool := *;
          if present {
            routes := routes + {route};
          } else {
            routes, lost := routes - {route}, lost + {route.prefix};
          }
        }
      }
      history := history + [routes];
    }

    /** Deletes one route; a failed deletion may or may not have removed it. */
    method Delete(route: Route) returns (ok: bool)
      requires Valid()
      modifies this
      ensures Valid() && old(history) <= history
      ensures Deletes(old(Now()), Now(), [route.table], {route.prefix}, ok)
      ensures forall r :: r in old(routes) && r != route ==> r in routes
    {
      ok := *;
      var gone: bool := *;
      lost := lost + {route.prefix};
      if ok || gone {
        routes := routes - {route};
      }
      if !ok {
        clean := false;
      }
      history := history + [routes];
    }

    /** The installer's prefixes in one table, if it can be listed. */
    method List(table: nat, listable: bool) returns (r: Option<set<Prefix>>)
      ensures r.Some? == listable
      ensures r.Some? ==> forall p :: p in r.value <==> Route(table, p) in routes
    {
      if listable {
        r := Some(set route | route in routes && route.table == table :: route.prefix);
      } else {
        r := None;
      }
    }
  }

  datatype Desired = Desired(peer: nat, hop: Hop)

  /** The installer: the accepted paths it wants in every owned table. */
  class Fib {
    const tables: seq<nat>
    const kernel: Kernel
    var desired: map<Prefix, Desired>
    var armed: bool

    constructor (tables: seq<nat>, kernel: Kernel)
      ensures this.tables == tables && this.kernel == kernel && desired == map[] && !armed
    {
      this.tables, this.kernel, desired, armed := tables, kernel, map[], false;
    }

    /** The tables changed, the record goes on. */
    twostate predicate Continues()
      reads kernel
    {
      && kernel.Valid() && old(kernel.history) <= kernel.history && old(kernel.history) != []
      && (kernel.clean ==> old(kernel.clean))
    }

    method InstallGateway(p: Prefix) returns (ok: bool)
      requires kernel.Valid()
      modifies kernel
      ensures Continues() && Installs(old(kernel.Now()), kernel.Now(), tables, p, ok)
    {
      hide InAll;
      ok := true;
      assert InAll(kernel.routes, [], p) by {
        NoTables(kernel.routes, p);
      }
      for i := 0 to |tables|
        invariant Continues() && Installs(old(kernel.Now()), kernel.Now(), tables[..i], p, ok)
      {
        ghost var k := kernel.Now();
        var written := kernel.Reconcile(Route(tables[i], p));
        InstallsNext(old(kernel.Now()), k, kernel.Now(), tables[..i], tables[i], p, ok, written);
        assert tables[..i + 1] == tables[..i] + [tables[i]];
        ok := ok && written;
      }
      assert tables[..|tables|] == tables;
    }

    /** Resolves the gateway, which may fail, and writes every table. */
    method InstallPrefix(p: Prefix) returns (ok: bool)
      requires kernel.Valid()
      modifies kernel
      ensures Continues() && Installs(old(kernel.Now()), kernel.Now(), tables, p, ok)
    {
      var resolved: bool := *;
      if !resolved {
        kernel.Refuse(p);
        return false;
      }
      ok := InstallGateway(p);
    }

    method DeletePrefix(p: Prefix) returns (ok: bool)
      requires kernel.Valid()
      modifies kernel
      ensures Continues() && Deletes(old(kernel.Now()), kernel.Now(), tables, {p}, ok)
    {
      hide InNone;
      ok := true;
      assert InNone(kernel.routes, [], p) by {
        NoTables(kernel.routes, p);
      }
      for i := 0 to |tables|
        invariant Continues() && Deletes(old(kernel.Now()), kernel.Now(), tables[..i], {p}, ok)
      {
        ghost var k := kernel.Now();
        var deleted := kernel.Delete(Route(tables[i], p));
        DeletesNext(old(kernel.Now()), k, kernel.Now(), tables[..i], tables[i], p, ok, deleted);
        assert tables[..i + 1] == tables[..i] + [tables[i]];
        ok := ok && deleted;
      }
      assert tables[..|tables|] == tables;
    }

    /** Installs one accepted path in every owned table. */
    method Apply(peer: nat, p: Prefix, hop: Hop) returns (ok: bool)
      requires kernel.Valid()
      modifies this`desired, kernel
      ensures Continues() && Installs(old(kernel.Now()), kernel.Now(), tables, p, ok)
      ensures desired == old(desired)[p := Desired(peer, hop)]
    {
      desired := desired[p := Desired(peer, hop)];
      ok := InstallPrefix(p);
    }

    /** Removes one prefix and nothing inside it. */
    method WithdrawExact(p: Prefix) returns (ok: bool)
      requires kernel.Valid()
      modifies this`desired, kernel
      ensures Continues() && Deletes(old(kernel.Now()), kernel.Now(), tables, {p}, ok)
      ensures desired == old(desired) - {p}
    {
      desired := desired - {p};
      ok := DeletePrefix(p);
    }

    /** Removes a set of prefixes, in any order, trying all of them. */
    method WithdrawAll(ps: set<Prefix>) returns (ok: bool)
      requires kernel.Valid()
      modifies this`desired, kernel
      ensures Continues() && Deletes(old(kernel.Now()), kernel.Now(), tables, ps, ok)
      ensures desired == old(desired) - ps
    {
      ok := true;
      var left := ps;
      while left != {}
        invariant left <= ps && desired == old(desired) - (ps - left)
        invariant Continues() && Deletes(old(kernel.Now()), kernel.Now(), tables, ps - left, ok)
      {
        var p :| p in left;
        ghost var k := kernel.Now();
        var deleted := WithdrawExact(p);
        DeletesMore(old(kernel.Now()), k, kernel.Now(), tables, ps - left, p, ok, deleted);
        assert ps - (left - {p}) == (ps - left) + {p};
        left, ok := left - {p}, ok && deleted;
      }
      assert ps - {} == ps;
    }

    /** Removes every path of a peer that went away. */
    method WithdrawPeer(peer: nat) returns (ok: bool)
      requires kernel.Valid()
      modifies this`desired, kernel
      ensures var ps := set p | p in old(desired) && old(desired)[p].peer == peer;
              && Continues() && Deletes(old(kernel.Now()), kernel.Now(), tables, ps, ok)
              && desired == old(desired) - ps
    {
      ok := WithdrawAll(set p | p in desired && desired[p].peer == peer);
    }

    /** Every owned table's listing, unless one cannot be read. */
    method ListTables(listable: bool) returns (r: Option<seq<set<Prefix>>>)
      ensures listable ==> r.Some?
      ensures r.Some? ==> |r.value| == |tables|
                          && forall i, p :: 0 <= i < |tables| ==> (p in r.value[i] <==>
                            Route(tables[i], p) in kernel.routes)
    {
      var lists: seq<set<Prefix>> := [];
      for i := 0 to |tables|
        invariant |lists| == i
        invariant forall j, p :: 0 <= j < i ==> (p in lists[j] <==> Route(tables[j], p) in kernel.routes)
      {
        var listed := kernel.List(tables[i], listable);
        if listed.None? {
          return None;
        }
        lists := lists + [listed.value];
      }
      r := Some(lists);
    }

    /** The prefixes that some owned table holds. */
    method Installed(listable: bool) returns (r: Option<set<Prefix>>)
      ensures listable ==> r.Some?
      ensures r.Some? ==> forall p :: p in r.value <==> exists t :: t in tables && Route(t, p) in kernel.routes
    {
      var lists := ListTables(listable);
      if lists.None? {
        return None;
      }
      var ps := set i, p | 0 <= i < |lists.value| && p in lists.value[i] :: p;
      forall p ensures p in ps <==> exists t :: t in tables && Route(t, p) in kernel.routes {
        if p in ps {
          var i :| 0 <= i < |lists.value| && p in lists.value[i];
          assert tables[i] in tables;
        }
        if t :| t in tables && Route(t, p) in kernel.routes {
          var i :| 0 <= i < |tables| && tables[i] == t;
          assert p in lists.value[i];
        }
      }
      r := Some(ps);
    }

    /**
      Reinstalls every desired route that is absent or whose gateway changed. If
      the tables can be listed, every desired prefix whose next hop resolves is in
      every table afterwards, or was refused.
    */
    method Refresh(listable: bool, unresolvable: set<Prefix>) returns (rejected: set<Prefix>)
      requires kernel.Valid()
      modifies kernel
      ensures Continues() && Writes(old(kernel.Now()), kernel.Now(), desired.Keys)
      ensures rejected <= desired.Keys && (forall p :: p in rejected ==> Refused(old(kernel.Now()), kernel.Now(), p))
      ensures listable ==> forall p :: p in desired ==>
                p in unresolvable || Mended(old(kernel.Now()), kernel.Now(), tables, p)
    {
      hide InAll, Mended;
      rejected := {};
      var lists := ListTables(listable);
      if lists.None? {
        return rejected;
      }
      var left := desired.Keys;
      while left != {}
        invariant left <= desired.Keys
        invariant Continues() && Writes(old(kernel.Now()), kernel.Now(), desired.Keys)
        invariant rejected <= desired.Keys
        invariant forall p :: p in rejected ==> Refused(old(kernel.Now()), kernel.Now(), p)
        invariant forall p :: p in desired && p !in left ==>
                    p in unresolvable || Mended(old(kernel.Now()), kernel.Now(), tables, p)
      {
        var p :| p in left;
        left := left - {p};
        ghost var k0, k := old(kernel.Now()), kernel.Now();
        if p in unresolvable {
          continue;
        }
        var sameGateway: bool := *;
        if sameGateway && forall i :: 0 <= i < |tables| ==> p in lists.value[i] {
          Everywhere(old(kernel.routes), lists.value, p);
          NotMissing(k0, k, tables, desired.Keys, p);
          continue;
        }
        var written := InstallGateway(p);
        WritesMore(k0, k, kernel.Now(), tables, desired.Keys, p, written);
        MendedStill(k0, k, kernel.Now(), tables, p, written);
        if !written {
          var byKernel: bool := *;
          if byKernel {
            rejected := rejected + {p};
          }
        }
      }
    }

    lemma Everywhere(routes: set<Route>, lists: seq<set<Prefix>>, p: Prefix)
      requires |lists| == |tables| && forall i :: 0 <= i < |tables| ==> p in lists[i]
      requires forall i, p :: 0 <= i < |tables| ==> (p in lists[i] <==> Route(tables[i], p) in routes)
      ensures InAll(routes, tables, p)
    {
    }

    method ArmSweep()
      modifies this`armed
      ensures armed
    {
      armed := true;
    }

    /** Deletes one table's routes that are not desired. */
    method SweepTable(table: nat, listable: bool) returns (ok: bool, ghost swept: set<Prefix>)
      requires kernel.Valid()
      modifies kernel
      ensures Continues() && swept !! desired.Keys && Sweeps(old(kernel.Now()), kernel.Now(), swept, ok)
      ensures ok ==> forall p :: Route(table, p) in kernel.routes ==> p in desired
      ensures listable && kernel.clean ==> ok
    {
      ok, swept := true, {};
      var listed := kernel.List(table, listable);
      if listed.None? {
        return false, {};
      }
      var left := listed.value - desired.Keys;
      while left != {}
        invariant left !! desired.Keys && swept !! desired.Keys
        invariant Continues() && Sweeps(old(kernel.Now()), kernel.Now(), swept, ok)
        invariant ok ==> forall p :: Route(table, p) in kernel.routes ==> p in desired || p in left
        invariant kernel.clean ==> ok
      {
        var p :| p in left;
        ghost var k := kernel.Now();
        var deleted := kernel.Delete(Route(table, p));
        SweepsMore(old(kernel.Now()), k, kernel.Now(), swept, table, p, ok, deleted);
        swept, left, ok := swept + {p}, left - {p}, ok && deleted;
      }
    }

    /**
      Deletes the routes that are not desired from every owned table, once armed.
      Without an error none is left; a desired prefix is never touched.
    */
    method SweepStale(listable: bool) returns (ok: bool, ghost swept: set<Prefix>)
      requires kernel.Valid()
      modifies kernel
      ensures Continues() && swept !! desired.Keys && Sweeps(old(kernel.Now()), kernel.Now(), swept, ok)
      ensures !armed ==> ok && kernel.Now() == old(kernel.Now())
      ensures armed && ok ==> forall r :: r in kernel.routes && r.table in tables ==> r.prefix in desired
      ensures listable && kernel.clean ==> ok
    {
      ok, swept := true, {};
      if !armed {
        return;
      }
      for i := 0 to |tables|
        invariant Continues() && swept !! desired.Keys && Sweeps(old(kernel.Now()), kernel.Now(), swept, ok)
        invariant ok ==> forall r :: r in kernel.routes && r.table in tables[..i] ==> r.prefix in desired
        invariant listable && kernel.clean ==> ok
      {
        ghost var k := kernel.Now();
        ghost var more;
        var done;
        done, more := SweepTable(tables[i], listable);
        SweepsJoin(old(kernel.Now()), k, kernel.Now(), swept, more, ok, done);
        swept, ok := swept + more, ok && done;
      }
    }

    /**
      A withdrawal of the internal speaker's: the peer's paths inside the prefix
      go, or the prefix itself when there is none.
    */
    method Withdraw(peer: nat, p: Prefix) returns (ok: bool)
      requires kernel.Valid()
      modifies this`desired, kernel
      ensures var inside := set q | q in old(desired) && old(desired)[q].peer == peer && Contains(p, q);
              && Continues() && desired == old(desired) - inside
              && Deletes(old(kernel.Now()), kernel.Now(), tables, if inside == {} then {p} else inside, ok)
    {
      var inside := set q | q in desired && desired[q].peer == peer && Contains(p, q);
      if inside == {} {
        assert desired == desired - inside;
        ok := DeletePrefix(p);
      } else {
        ok := WithdrawAll(inside);
      }
    }
  }
}
