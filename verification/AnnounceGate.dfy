/**
  The agent's announcement of default routes. Announce and withdraw requests,
  readiness polls and peer events run one at a time; with readiness gating on, a
  withdrawal latches, and only a successful announce request releases it.
*/
module AnnounceGate {
  import opened Wire

  /** What the readiness socket says of each family. */
  datatype Readiness = Readiness(v4: bool, v6: bool)

  /** Who asked for an announcement. */
  datatype Cause = Request | Poll | PeerUp

  /** A path for a family's prefix was originated, a withdraw request arrived, or an announce request succeeded. */
  datatype Entry = Originated(cause: Cause, v4: bool, prefix: nat) | WithdrawAsked | AnnounceGranted

  /** How many of each family's path operations the speaker answers before one fails. */
  datatype Answers = Answers(v4: nat, v6: nat)

  /** Every prefix of a family that was gained was originated by an entry behind the first `from`. */
  ghost predicate Explained(log: seq<Entry>, from: nat, v4: bool, before: set<nat>, after: set<nat>) {
    forall p :: p in after && p !in before ==> WasOriginated(log, from, v4, p)
  }

  ghost predicate WasOriginated(log: seq<Entry>, from: nat, v4: bool, p: nat) {
    exists k :: from <= k < |log| && log[k].Originated? && log[k].v4 == v4 && log[k].prefix == p
  }

  /** Nothing gained needs no explanation. */
  lemma ExplainedNothing(log: seq<Entry>, from: nat, v4: bool, before: set<nat>, after: set<nat>)
    requires after <= before
    ensures Explained(log, from, v4, before, after)
  {
  }

  lemma ExplainedLonger(log: seq<Entry>, log': seq<Entry>, from: nat, v4: bool, before: set<nat>, after: set<nat>)
    requires from <= |log| && log <= log' && Explained(log, from, v4, before, after)
    ensures Explained(log', from, v4, before, after)
  {
    ExplainedNothing(log', |log|, v4, after, after);
    ExplainedJoin(log, log', from, v4, before, after, after);
  }

  /** Gains explained step by step are explained over the whole way. */
  lemma ExplainedJoin(log: seq<Entry>, log': seq<Entry>, from: nat, v4: bool, a: set<nat>, b: set<nat>, c: set<nat>)
    requires from <= |log| && log <= log'
    requires Explained(log, from, v4, a, b) && Explained(log', |log|, v4, b, c)
    ensures Explained(log', from, v4, a, c)
  {
    forall p | p in c && p !in a ensures WasOriginated(log', from, v4, p) {
      if p in b {
        var k :| from <= k < |log| && log[k].Originated? && log[k].v4 == v4 && log[k].prefix == p;
        assert log'[k] == log[k];
      } else {
        var k :| |log| <= k < |log'| && log'[k].Originated? && log'[k].v4 == v4 && log'[k].prefix == p;
      }
    }
  }

  /** Entry `j` originates a path without a request although a withdrawal was asked for and not released since. */
  ghost predicate Breach(log: seq<Entry>, i: nat, j: nat) {
    && i < j < |log| && log[i] == WithdrawAsked && log[j].Originated? && log[j].cause != Request
    && forall k :: i < k < j ==> log[k] != AnnounceGranted
  }

  /** A withdrawal was asked for and not released since. */
  ghost predicate Latched(log: seq<Entry>) {
    exists i :: 0 <= i < |log| && log[i] == WithdrawAsked && forall k :: i < k < |log| ==> log[k] != AnnounceGranted
  }

  lemma LatchGrows(log: seq<Entry>, e: Entry)
    ensures Latched(log + [e]) <==> e == WithdrawAsked || (Latched(log) && e != AnnounceGranted)
  {
    var log' := log + [e];
    if Latched(log') {
      var i :| 0 <= i < |log'| && log'[i] == WithdrawAsked && forall k :: i < k < |log'| ==> log'[k] != AnnounceGranted;
      if i < |log| {
        assert log[i] == WithdrawAsked && log'[|log|] == e;
        assert forall k :: i < k < |log| ==> log[k] == log'[k];
      }
    }
    if e == WithdrawAsked {
      assert log'[|log|] == WithdrawAsked;
    } else if Latched(log) && e != AnnounceGranted {
      var i :| 0 <= i < |log| && log[i] == WithdrawAsked && forall k :: i < k < |log| ==> log[k] != AnnounceGranted;
      assert log'[i] == WithdrawAsked && forall k :: i < k < |log'| ==> log'[k] != AnnounceGranted;
    }
  }

  lemma BreachGrows(log: seq<Entry>, e: Entry, i: nat, j: nat)
    requires Breach(log + [e], i, j) && !Breach(log, i, j)
    ensures Latched(log) && e.Originated? && e.cause != Request
  {
    var log' := log + [e];
    assert forall k :: 0 <= k < |log| ==> log'[k] == log[k];
    assert j == |log| && log[i] == WithdrawAsked;
  }

  lemma Released(entries: seq<Entry>)
    requires entries != [] && entries[|entries| - 1] == AnnounceGranted
    ensures !Latched(entries)
  {
  }

  // One family's announcements.

  function All(prefixes: seq<nat>): set<nat> {
    set p | p in prefixes
  }

  /** What a request wants originated. */
  ghost function Goal(want: bool, prefixes: seq<nat>): set<nat> {
    if want then All(prefixes) else {}
  }

  /** What an attempt that stops before prefix `n` leaves originated. */
  ghost function Partial(want: bool, prefixes: seq<nat>, rib: set<nat>, n: nat): set<nat>
    requires n <= |prefixes|
  {
    if want then rib + All(prefixes[..n]) else rib - All(prefixes[..n])
  }

  lemma PartialWithin(want: bool, prefixes: seq<nat>, rib: set<nat>, n: nat)
    requires n <= |prefixes| && rib <= All(prefixes)
    ensures Partial(want, prefixes, rib, n) <= All(prefixes)
    ensures !want ==> Partial(want, prefixes, rib, n) <= rib
  {
  }

  /** A family whose flag already matches, or that has no prefix, is not looked at. */
  ghost predicate Skipped(want: bool, flag: bool, prefixes: seq<nat>) {
    prefixes == [] || want == flag
  }

  /** The family's reconciliation does not fail. */
  ghost predicate Succeeds(want: bool, flag: bool, prefixes: seq<nat>, answers: nat) {
    Skipped(want, flag, prefixes) || answers >= |prefixes|
  }

  /** What one family's reconciliation leaves originated. */
  ghost function Reached(want: bool, flag: bool, prefixes: seq<nat>, rib: set<nat>, answers: nat): set<nat> {
    if Skipped(want, flag, prefixes) then rib
    else Partial(want, prefixes, rib, if answers < |prefixes| then answers else |prefixes|)
  }

  /** A success reaches the goal exactly if the flag was down on it, or the goal was there already. */
  lemma SuccessIsComplete(want: bool, flag: bool, prefixes: seq<nat>, rib: set<nat>, answers: nat)
    requires rib <= All(prefixes) && Succeeds(want, flag, prefixes, answers)
    ensures Reached(want, flag, prefixes, rib, answers) == Goal(want, prefixes)
            <==> want != flag || rib == Goal(want, prefixes)
  {
    assert prefixes[..|prefixes|] == prefixes;
  }

  class Agent {
    /** Readiness gating; it also tells the speaker not to announce by itself. */
    const gated: bool
    const prefixes4: seq<nat>
    const prefixes6: seq<nat>
    const requireAll: bool
    var manualWithdraw: bool
    var announcing4: bool
    var announcing6: bool
    /** The prefixes the speaker originates. */
    var rib4: set<nat>
    var rib6: set<nat>
    ghost var log: seq<Entry>

    ghost predicate Valid()
      reads this
    {
      && (gated && Latched(log) ==> manualWithdraw)
      && (gated ==> forall i, j :: !Breach(log, i, j))
      && rib4 <= All(prefixes4) && rib6 <= All(prefixes6)
    }

    constructor (gated: bool, prefixes4: seq<nat>, prefixes6: seq<nat>, requireAll: bool)
      ensures Valid() && this.gated == gated && this.prefixes4 == prefixes4 && this.prefixes6 == prefixes6
      ensures this.requireAll == requireAll && !manualWithdraw
      ensures log == [] && rib4 == {} && rib6 == {} && !announcing4 && !announcing6
    {
      this.gated, this.prefixes4, this.prefixes6, this.requireAll := gated, prefixes4, prefixes6, requireAll;
      manualWithdraw, announcing4, announcing6 := false, false, false;
      rib4, rib6, log := {}, {}, [];
    }

    /** Records one entry; only an unlatched gate may originate without a request. */
    ghost method Note(e: Entry)
      requires Valid()
      requires gated && e.Originated? && e.cause != Request ==> !manualWithdraw
      requires e == WithdrawAsked ==> manualWithdraw || !gated
      modifies this`log
      ensures Valid() && log == old(log) + [e]
    {
      LatchGrows(log, e);
      forall i, j | Breach(log + [e], i, j) && !Breach(log, i, j)
        ensures Latched(log) && e.Originated? && e.cause != Request
      {
        BreachGrows(log, e, i, j);
      }
      log := log + [e];
    }

    /** Originates or withdraws a family's prefixes in order, up to the first failure. */
    method Reconcile(want: bool, v4: bool, prefixes: seq<nat>, rib: set<nat>, cause: Cause, answers: nat)
      returns (ok: bool, rib': set<nat>)
      requires Valid() && (gated && want && cause != Request ==> !manualWithdraw)
      modifies this`log
      ensures Valid() && old(log) <= log && (!want ==> log == old(log))
      ensures ok <==> answers >= |prefixes|
      ensures rib' == Partial(want, prefixes, rib, if ok then |prefixes| else answers)
      ensures forall k :: |old(log)| <= k < |log| ==> log[k].Originated? && log[k].cause == cause
      ensures Explained(log, |old(log)|, v4, rib, rib')
    {
      ok, rib' := true, rib;
      for i := 0 to |prefixes|
        invariant Valid() && old(log) <= log && (!want ==> log == old(log)) && i <= answers
        invariant rib' == Partial(want, prefixes, rib, i)
        invariant forall k :: |old(log)| <= k < |log| ==> log[k].Originated? && log[k].cause == cause
        invariant Explained(log, |old(log)|, v4, rib, rib')
      {
        if i == answers {
          return false, rib';
        }
        assert prefixes[..i + 1] == prefixes[..i] + [prefixes[i]];
        if want {
          ghost var log0, rib0 := log, rib';
          Note(Originated(cause, v4, prefixes[i]));
          assert log[|log0|] == Originated(cause, v4, prefixes[i]);
          rib' := rib' + {prefixes[i]};
          ExplainedJoin(log0, log, |old(log)|, v4, rib, rib0, rib');
        } else {
          rib' := rib' - {prefixes[i]};
        }
      }
    }

    /**
      The whole effect of a reconciliation: family by family, up to the first
      failure, which keeps its family's flag over whatever it had reached. What
      is gained is on the log, and a success reaches its goal exactly if the flag
      was not already up on it or the goal was there.
    */
    twostate predicate Applied(v4: bool, v6: bool, answers: Answers, new ok: bool)
      reads this
    {
      && var ok4 := Succeeds(v4, old(announcing4), prefixes4, answers.v4);
      && var ok6 := Succeeds(v6, old(announcing6), prefixes6, answers.v6);
      && (ok <==> ok4 && ok6)
      && rib4 == Reached(v4, old(announcing4), prefixes4, old(rib4), answers.v4)
      && rib6 == (if ok4 then Reached(v6, old(announcing6), prefixes6, old(rib6), answers.v6) else old(rib6))
      && announcing4 == (if ok4 && prefixes4 != [] then v4 else old(announcing4))
      && announcing6 == (if ok && prefixes6 != [] then v6 else old(announcing6))
      && (ok ==> && (rib4 == Goal(v4, prefixes4) <==> v4 != old(announcing4) || old(rib4) == Goal(v4, prefixes4))
                 && (rib6 == Goal(v6, prefixes6) <==> v6 != old(announcing6) || old(rib6) == Goal(v6, prefixes6)))
    }

    /** What was gained since is on the log. */
    twostate predicate Logged()
      reads this
    {
      && old(log) <= log
      && Explained(log, |old(log)|, true, old(rib4), rib4) && Explained(log, |old(log)|, false, old(rib6), rib6)
    }

    /** Reconciles each family whose flag differs from what is wanted; a failure keeps the family's flag. */
    method SetDefaultAnnouncements(v4: bool, v6: bool, cause: Cause, answers: Answers) returns (ok: bool)
      requires Valid() && (gated && (v4 || v6) && cause != Request ==> !manualWithdraw)
      modifies this`announcing4, this`announcing6, this`rib4, this`rib6, this`log
      ensures Valid() && Applied(v4, v6, answers, ok) && Logged()
      ensures forall k :: |old(log)| <= k < |log| ==> log[k].Originated? && log[k].cause == cause
      ensures !v4 && !v6 ==> log == old(log) && rib4 <= old(rib4) && rib6 <= old(rib6)
    {
      hide Explained, Breach, Latched, All, Goal, Partial;
      ExplainedNothing(log, |log|, true, rib4, rib4);
      ExplainedNothing(log, |log|, false, rib6, rib6);
      ok := true;
      if prefixes4 != [] && v4 != announcing4 {
        ok, rib4 := Reconcile(v4, true, prefixes4, rib4, cause, answers.v4);
        PartialWithin(v4, prefixes4, old(rib4), if ok then |prefixes4| else answers.v4);
        ExplainedNothing(log, |old(log)|, false, rib6, rib6);
        if !ok {
          return;
        }
        announcing4 := v4;
      }
      ghost var log0 := log;
      if prefixes6 != [] && v6 != announcing6 {
        ok, rib6 := Reconcile(v6, false, prefixes6, rib6, cause, answers.v6);
        PartialWithin(v6, prefixes6, old(rib6), if ok then |prefixes6| else answers.v6);
        ExplainedLonger(log0, log, |old(log)|, true, old(rib4), rib4);
        ExplainedJoin(log0, log, |old(log)|, false, old(rib6), old(rib6), rib6);
        if !ok {
          return;
        }
        announcing6 := v6;
      }
      SuccessIsComplete(v4, old(announcing4), prefixes4, old(rib4), answers.v4);
      SuccessIsComplete(v6, old(announcing6), prefixes6, old(rib6), answers.v6);
    }

    /** An announce request; with gating, only a success releases the latch. */
    method AnnounceRoutes(read: Option<Readiness>, answers: Answers) returns (ok: bool)
      requires Valid()
      modifies this
      ensures Valid() && Logged()
      ensures manualWithdraw == if gated && ok then false else old(manualWithdraw)
      ensures ok ==> log != [] && log[|log| - 1] == AnnounceGranted
      ensures gated && !Admits(read) ==> !ok && unchanged(this)
      ensures gated && Admits(read) ==> Applied(read.value.v4, read.value.v6, answers, ok)
      ensures !gated ==> Applied(true, true, answers, ok)
    {
      hide Explained, Breach, All, Goal, Reached;
      ExplainedNothing(log, |log|, true, rib4, rib4);
      ExplainedNothing(log, |log|, false, rib6, rib6);
      if gated {
        if read.None? {
          return false;
        }
        var ready4, ready6 := prefixes4 != [] && read.value.v4, prefixes6 != [] && read.value.v6;
        if requireAll && ((prefixes4 != [] && !read.value.v4) || (prefixes6 != [] && !read.value.v6)) {
          return false;
        }
        if !requireAll && !ready4 && !ready6 {
          return false;
        }
        ok := SetDefaultAnnouncements(read.value.v4, read.value.v6, Request, answers);
        if ok {
          Grant(|old(log)|, old(rib4), old(rib6));
          manualWithdraw := false;
          Released(log);
        }
        return;
      }
      ok := SetDefaultAnnouncements(true, true, Request, answers);
      if ok {
        Grant(|old(log)|, old(rib4), old(rib6));
      }
    }

    /** The readiness that lets an announce request through the gate. */
    predicate Admits(read: Option<Readiness>)
      reads this
    {
      && read.Some?
      && if requireAll then (prefixes4 == [] || read.value.v4) && (prefixes6 == [] || read.value.v6)
         else (prefixes4 != [] && read.value.v4) || (prefixes6 != [] && read.value.v6)
    }

    /** Records that an announce request succeeded. */
    ghost method Grant(from: nat, before4: set<nat>, before6: set<nat>)
      requires Valid() && from <= |log|
      requires Explained(log, from, true, before4, rib4) && Explained(log, from, false, before6, rib6)
      modifies this`log
      ensures Valid() && log == old(log) + [AnnounceGranted]
      ensures Explained(log, from, true, before4, rib4) && Explained(log, from, false, before6, rib6)
    {
      Note(AnnounceGranted);
      ExplainedLonger(old(log), log, from, true, before4, rib4);
      ExplainedLonger(old(log), log, from, false, before6, rib6);
    }

    /** A withdraw request latches before it withdraws, whether or not that succeeds. */
    method WithdrawRoutes(answers: Answers) returns (ok: bool)
      requires Valid()
      modifies this
      ensures Valid() && old(log) + [WithdrawAsked] == log && (gated ==> manualWithdraw)
      ensures Applied(false, false, answers, ok) && rib4 <= old(rib4) && rib6 <= old(rib6)
    {
      if gated {
        manualWithdraw := true;
      }
      Note(WithdrawAsked);
      ok := SetDefaultAnnouncements(false, false, Request, answers);
    }

    /** One readiness poll; an unreadable socket counts as not ready. */
    method ReconcileReady(read: Option<Readiness>, answers: Answers)
      requires Valid()
      modifies this`announcing4, this`announcing6, this`rib4, this`rib6, this`log
      ensures Valid() && Logged()
      ensures manualWithdraw || !gated ==> unchanged(this)
      ensures !manualWithdraw && gated ==>
                var state := if read.Some? then read.value else Readiness(false, false);
                exists ok :: Applied(state.v4, state.v6, answers, ok)
    {
      if manualWithdraw || !gated {
        return;
      }
      var state := if read.Some? then read.value else Readiness(false, false);
      var ok := SetDefaultAnnouncements(state.v4, state.v6, Poll, answers);
    }

    /** A peer came up; the speaker announces by itself only without gating. */
    method PeerEstablished(all: bool, answers: Answers)
      requires Valid()
      modifies this`announcing4, this`announcing6, this`rib4, this`rib6, this`log
      ensures Valid() && Logged()
      ensures gated || !all ==> unchanged(this)
      ensures !gated && all ==> exists ok :: Applied(true, true, answers, ok)
    {
      if gated || !all {
        return;
      }
      var ok := SetDefaultAnnouncements(true, true, PeerUp, answers);
    }

    method Step(call: Call)
      requires Valid()
      modifies this
      ensures Valid() && Logged()
      ensures gated && old(manualWithdraw) && !call.Announce? ==>
                manualWithdraw && rib4 <= old(rib4) && rib6 <= old(rib6)
    {
      hide Applied;
      match call
      case Announce(read, answers) =>
        var ok := AnnounceRoutes(read, answers);
      case Withdraw(answers) =>
        var ok := WithdrawRoutes(answers);
      case PollReady(read, answers) =>
        ReconcileReady(read, answers);
      case Established(all, answers) =>
        PeerEstablished(all, answers);
    }

    /**
      Any interleaving of requests, polls and peer events: with gating, nothing but
      a request originates a path between a withdraw request and the announce
      request that is granted next; every path gained is one of those
      originations; and behind the latch, a run without an announce request gains
      no path at all.
    */
    method Run(calls: seq<Call>)
      requires Valid()
      modifies this
      ensures Valid() && Logged()
      ensures gated ==> forall i, j :: !Breach(log, i, j)
      ensures gated && old(manualWithdraw) && (forall n :: 0 <= n < |calls| ==> !calls[n].Announce?) ==>
                manualWithdraw && rib4 <= old(rib4) && rib6 <= old(rib6)
    {
      hide Explained;
      ExplainedNothing(log, |log|, true, rib4, rib4);
      ExplainedNothing(log, |log|, false, rib6, rib6);
      for n := 0 to |calls|
        invariant Valid() && Logged()
        invariant gated && old(manualWithdraw) && (forall k :: 0 <= k < n ==> !calls[k].Announce?) ==>
                    manualWithdraw && rib4 <= old(rib4) && rib6 <= old(rib6)
      {
        ghost var log0, a, b := log, rib4, rib6;
        Step(calls[n]);
        ExplainedJoin(log0, log, |old(log)|, true, old(rib4), a, rib4);
        ExplainedJoin(log0, log, |old(log)|, false, old(rib6), b, rib6);
      }
    }
  }

  /**
    Both exceptions of a success happen, whatever the prefixes and wherever the
    first attempt fails: it keeps the flag, so the opposite request finds nothing
    to do and succeeds. `left` is what stays originated after a successful
    withdrawal, `kept` what is originated after a successful announcement.
  */
  method HalfDoneIsForgotten(gated: bool, prefixes: seq<nat>, n: nat)
    returns (oks: seq<bool>, left: set<nat>, kept: set<nat>)
    requires n < |prefixes|
    ensures oks == [false, true, true, false, true]
    ensures left == All(prefixes[..n]) && kept == All(prefixes) - All(prefixes[..n])
  {
    var ready := Some(Readiness(true, true));
    var agent := new Agent(gated, prefixes, [], false);
    var failed := agent.AnnounceRoutes(ready, Answers(n, 0));
    var withdrawn := agent.WithdrawRoutes(Answers(0, 0));
    left := agent.rib4;
    agent := new Agent(gated, prefixes, [], false);
    var announced := agent.AnnounceRoutes(ready, Answers(|prefixes|, 0));
    assert prefixes[..|prefixes|] == prefixes;
    var half := agent.WithdrawRoutes(Answers(n, 0));
    var again := agent.AnnounceRoutes(ready, Answers(0, 0));
    oks, kept := [failed, withdrawn, announced, half, again], agent.rib4;
  }

  datatype Call =
    | Announce(read: Option<Readiness>, answers: Answers)
    | Withdraw(answers: Answers)
    | PollReady(read: Option<Readiness>, answers: Answers)
    | Established(all: bool, answers: Answers)
}
