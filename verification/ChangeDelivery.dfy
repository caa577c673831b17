/**
  Delivery of session states to listeners. Any thread may queue a state under
  the lock and then try to deliver; whoever finds no delivery in progress hands
  out queued states, releasing the lock around the listener calls. Each step
  below is one critical section or one listener call, in any interleaving.
*/
module ChangeDelivery {
  import opened Wire

  /** A thread is elsewhere, about to call `deliverChanges`, or calling listeners with one state. */
  datatype Thread = Away | Ready | Calling(state: nat, listeners: seq<nat>, next: nat)

  /**
    The shared fields, the threads, and the history: every state queued, how many
    of them were taken, what each listener saw, and the position it joined at.
  */
  datatype System = System(pending: seq<nat>, delivering: bool, listeners: seq<nat>, threads: map<nat, Thread>,
                           queued: seq<nat>, taken: nat, seen: map<nat, seq<nat>>, joined: map<nat, nat>)

  datatype Step =
    | Queue(thread: nat, state: nat)
    | Arrive(thread: nat)
    | Deliver(thread: nat)
    | Call(thread: nat)
    | Continue(thread: nat)
    | Listen(listener: nat)

  function At(s: System, t: nat): Thread {
    if t in s.threads then s.threads[t] else Away
  }

  predicate Enabled(s: System, step: Step) {
    match step
    case Queue(t, _) => At(s, t).Away?
    case Arrive(t) => At(s, t).Away?
    case Deliver(t) => At(s, t).Ready?
    case Call(t) => At(s, t).Calling? && At(s, t).next < |At(s, t).listeners|
      && At(s, t).listeners[At(s, t).next] in s.seen
    case Continue(t) => At(s, t).Calling? && At(s, t).next >= |At(s, t).listeners|
    case Listen(l) => l !in s.seen
  }

  /** Takes the next queued state, or ends the delivery. The thread holds the lock. */
  function TakeNext(s: System, t: nat): System {
    if s.pending == [] then s.(delivering := false, threads := s.threads[t := Away])
    else s.(delivering := true, pending := s.pending[1..], taken := s.taken + 1,
            threads := s.threads[t := Calling(s.pending[0], s.listeners, 0)])
  }

  function Next(s: System, step: Step): System
    requires Enabled(s, step)
  {
    match step
    case Queue(t, state) =>
      s.(pending := s.pending + [state], queued := s.queued + [state], threads := s.threads[t := Ready])
    case Arrive(t) => s.(threads := s.threads[t := Ready])
    case Deliver(t) => if s.delivering then s.(threads := s.threads[t := Away]) else TakeNext(s, t)
    case Call(t) =>
      var c := At(s, t);
      var l := c.listeners[c.next];
      s.(seen := s.seen[l := s.seen[l] + [c.state]], threads := s.threads[t := c.(next := c.next + 1)])
    case Continue(t) => TakeNext(s, t)
    case Listen(l) =>
      s.(listeners := s.listeners + [l], seen := s.seen[l := []], joined := s.joined[l := s.taken])
  }

  function Start(): System {
    System([], false, [], map[], [], 0, map[], map[])
  }

  /** The system after a run; a step that is not enabled does not happen. */
  function After(steps: seq<Step>): System {
    if steps == [] then Start()
    else
      var s := After(steps[..|steps| - 1]);
      if Enabled(s, steps[|steps| - 1]) then Next(s, steps[|steps| - 1]) else s
  }

  // The invariant, given the thread that is delivering.

  /** How many of the taken states listener number `i` has been called for. */
  ghost function CalledFor(s: System, c: Option<nat>, i: nat): int {
    if c.Some? && At(s, c.value).Calling?
      && At(s, c.value).next <= i < |At(s, c.value).listeners| then s.taken - 1 else s.taken
  }

  ghost predicate OneCaller(s: System, c: Option<nat>) {
    && s.delivering == c.Some?
    && (forall t: nat :: At(s, t).Calling? ==> c == Some(t))
    && (c.Some? ==>
          && At(s, c.value).Calling? && At(s, c.value).next <= |At(s, c.value).listeners|
          && At(s, c.value).listeners <= s.listeners
          && 0 < s.taken <= |s.queued| && At(s, c.value).state == s.queued[s.taken - 1])
  }

  /** The queue holds exactly the states not taken yet, in order, and somebody will take them. */
  ghost predicate QueueOk(s: System, c: Option<nat>) {
    && s.taken <= |s.queued| && s.pending == s.queued[s.taken..]
    && (s.pending != [] ==> c.Some? || exists t :: At(s, t).Ready?)
  }

  ghost predicate ListenersOk(s: System) {
    && (forall l :: l in s.seen <==> l in s.listeners) && s.joined.Keys == s.seen.Keys
    && (forall i, j :: 0 <= i < j < |s.listeners| ==> s.listeners[i] != s.listeners[j])
  }

  /** Listener number `i` has seen every state since it joined, in order and once each. */
  ghost predicate SawAll(s: System, c: Option<nat>, i: nat)
    requires i < |s.listeners| && s.listeners[i] in s.seen && s.listeners[i] in s.joined && s.taken <= |s.queued|
  {
    var l := s.listeners[i];
    s.joined[l] <= CalledFor(s, c, i) <= |s.queued| && s.seen[l] == s.queued[s.joined[l]..CalledFor(s, c, i)]
  }

  ghost predicate Inv(s: System, c: Option<nat>) {
    && OneCaller(s, c) && QueueOk(s, c) && ListenersOk(s)
    && forall i :: 0 <= i < |s.listeners| ==> SawAll(s, c, i)
  }

  lemma StartInv()
    ensures Inv(Start(), None)
  {
  }

  lemma QueueKeeps(s: System, c: Option<nat>, step: Step)
    requires Inv(s, c) && step.Queue? && Enabled(s, step)
    ensures Inv(Next(s, step), c)
  {
    var s' := Next(s, step);
    assert At(s', step.thread).Ready?;
    assert forall t :: t != step.thread ==> At(s', t) == At(s, t);
    forall i | 0 <= i < |s'.listeners| ensures SawAll(s', c, i) {
      assert SawAll(s, c, i) && CalledFor(s', c, i) == CalledFor(s, c, i);
    }
  }

  lemma ArriveKeeps(s: System, c: Option<nat>, step: Step)
    requires Inv(s, c) && step.Arrive? && Enabled(s, step)
    ensures Inv(Next(s, step), c)
  {
    var s' := Next(s, step);
    assert At(s', step.thread).Ready?;
    assert forall t :: t != step.thread ==> At(s', t) == At(s, t);
    forall i | 0 <= i < |s'.listeners| ensures SawAll(s', c, i) {
      assert SawAll(s, c, i);
    }
  }

  /** Taking the next state: by a thread that just claimed the delivery, or the caller when it is done. */
  lemma TakeKeeps(s: System, c: Option<nat>, t: nat)
    requires Inv(s, c) && (c == None || (c == Some(t) && At(s, t).next == |At(s, t).listeners|))
    ensures Inv(TakeNext(s, t), if s.pending == [] then None else Some(t))
  {
    var s', c' := TakeNext(s, t), if s.pending == [] then None else Some(t);
    assert forall u :: u != t ==> At(s', u) == At(s, u);
    if s.pending != [] {
      assert s.pending[0] == s.queued[s.taken];
      assert s.pending[1..] == s.queued[s.taken + 1..];
    }
    forall i | 0 <= i < |s'.listeners| ensures SawAll(s', c', i) {
      assert SawAll(s, c, i) && CalledFor(s, c, i) == s.taken;
    }
  }

  lemma DeliverKeeps(s: System, c: Option<nat>, step: Step) returns (c': Option<nat>)
    requires Inv(s, c) && step.Deliver? && Enabled(s, step)
    ensures Inv(Next(s, step), c')
  {
    var s' := Next(s, step);
    if !s.delivering {
      TakeKeeps(s, c, step.thread);
      c' := if s.pending == [] then None else Some(step.thread);
    } else {
      c' := c;
      assert forall t :: t != step.thread ==> At(s', t) == At(s, t);
      forall i | 0 <= i < |s'.listeners| ensures SawAll(s', c, i) {
        assert SawAll(s, c, i);
      }
    }
  }

  lemma CallKeeps(s: System, c: Option<nat>, step: Step)
    requires Inv(s, c) && step.Call? && Enabled(s, step)
    ensures Inv(Next(s, step), c)
  {
    var s' := Next(s, step);
    var caller := At(s, step.thread);
    assert c == Some(step.thread) && forall t :: t != step.thread ==> At(s', t) == At(s, t);
    assert caller.listeners[caller.next] == s.listeners[caller.next];
    forall i | 0 <= i < |s'.listeners| ensures SawAll(s', c, i) {
      assert SawAll(s, c, i);
      if i == caller.next {
        var l := s.listeners[i];
        assert s'.seen[l] == s.queued[s.joined[l]..s.taken - 1] + [s.queued[s.taken - 1]];
      }
    }
  }

  lemma ListenKeeps(s: System, c: Option<nat>, step: Step)
    requires Inv(s, c) && step.Listen? && Enabled(s, step)
    ensures Inv(Next(s, step), c)
  {
    var s' := Next(s, step);
    assert forall t :: At(s', t) == At(s, t);
    forall i | 0 <= i < |s'.listeners| ensures SawAll(s', c, i) {
      if i < |s.listeners| {
        assert SawAll(s, c, i);
      }
    }
  }

  /** Every reachable state is sound for some delivering thread, or none. */
  lemma {:induction false} RunInv(steps: seq<Step>) returns (c: Option<nat>)
    ensures Inv(After(steps), c)
  {
    if steps == [] {
      StartInv();
      return None;
    }
    var s, step := After(steps[..|steps| - 1]), steps[|steps| - 1];
    c := RunInv(steps[..|steps| - 1]);
    if Enabled(s, step) {
      match step
      case Queue(_, _) => QueueKeeps(s, c, step);
      case Arrive(_) => ArriveKeeps(s, c, step);
      case Deliver(_) => c := DeliverKeeps(s, c, step);
      case Call(_) => CallKeeps(s, c, step);
      case Continue(t) =>
        TakeKeeps(s, c, t);
        c := if s.pending == [] then None else Some(t);
      case Listen(_) => ListenKeeps(s, c, step);
    }
  }

  /** At most one thread calls listeners at a time. */
  lemma OneDelivererAtATime(steps: seq<Step>, t: nat, u: nat)
    requires At(After(steps), t).Calling? && At(After(steps), u).Calling?
    ensures t == u
  {
    var c := RunInv(steps);
  }

  // The history, read off the run itself.

  /** The states of the run's queueing steps, in order. */
  ghost function QueuedIn(steps: seq<Step>): seq<nat> {
    if steps == [] then []
    else
      var most, last := steps[..|steps| - 1], steps[|steps| - 1];
      QueuedIn(most) + if last.Queue? && Enabled(After(most), last) then [last.state] else []
  }

  /** The states a listener is called with in the run, in order. */
  ghost function CallsOf(steps: seq<Step>, l: nat): seq<nat> {
    if steps == [] then []
    else
      var most, last := steps[..|steps| - 1], steps[|steps| - 1];
      CallsOf(most, l) + if last.Call? && Enabled(After(most), last) && Callee(After(most), last.thread) == l
                         then [At(After(most), last.thread).state] else []
  }

  ghost function Callee(s: System, t: nat): nat
    requires Enabled(s, Call(t))
  {
    At(s, t).listeners[At(s, t).next]
  }

  /** How many of the states queued before a listener joined were already taken from the queue then. */
  ghost function MissedBy(steps: seq<Step>, l: nat): int {
    if steps == [] then 0
    else
      var most, last := steps[..|steps| - 1], steps[|steps| - 1];
      if last == Listen(l) && Enabled(After(most), last) then |QueuedIn(most)| - |After(most).pending|
      else MissedBy(most, l)
  }

  /** What one step adds to the history. */
  lemma StepRecords(s: System, step: Step, l: nat)
    requires Enabled(s, step) && s.joined.Keys == s.seen.Keys
    ensures var s' := Next(s, step);
            && s'.queued == s.queued + (if step.Queue? then [step.state] else [])
            && s'.joined.Keys == s'.seen.Keys && (l in s'.seen <==> l in s.seen || step == Listen(l))
            && (step == Listen(l) ==> l !in s.seen && s'.seen[l] == [] && s'.joined[l] == s.taken)
            && (step != Listen(l) && l in s.seen ==>
                  && s'.joined[l] == s.joined[l]
                  && s'.seen[l] == s.seen[l] + if step.Call? && Callee(s, step.thread) == l
                                               then [At(s, step.thread).state] else [])
            && (step.Call? ==> Callee(s, step.thread) in s.seen)
  {
  }

  lemma Counted(s: System, c: Option<nat>)
    requires Inv(s, c)
    ensures s.joined.Keys == s.seen.Keys && s.taken == |s.queued| - |s.pending|
  {
  }

  /** The recorded history is the run's. */
  lemma {:induction false} HistoryIsRun(steps: seq<Step>, l: nat)
    ensures After(steps).queued == QueuedIn(steps)
    ensures l in After(steps).seen ==>
              && After(steps).seen[l] == CallsOf(steps, l)
              && l in After(steps).joined && After(steps).joined[l] == MissedBy(steps, l)
    ensures l !in After(steps).seen ==> CallsOf(steps, l) == []
  {
    hide Next, Inv, Enabled, Callee;
    if steps != [] {
      var most, last := steps[..|steps| - 1], steps[|steps| - 1];
      HistoryIsRun(most, l);
      var c := RunInv(most);
      Counted(After(most), c);
      if Enabled(After(most), last) {
        StepRecords(After(most), last, l);
      }
    }
  }

  /**
    A listener is called with the states queued in the run, from the first one not
    taken when it joined, in order and once each; it lags by no more than the
    state being delivered and those still queued.
  */
  lemma InOrderOnceEach(steps: seq<Step>, l: nat)
    requires l in After(steps).seen
    ensures var queued, calls, missed := QueuedIn(steps), CallsOf(steps, l), MissedBy(steps, l);
            && 0 <= missed <= |queued| && calls <= queued[missed..]
            && |queued| - missed <= |calls| + 1 + |After(steps).pending|
  {
    var c := RunInv(steps);
    HistoryIsRun(steps, l);
    var s := After(steps);
    var i :| 0 <= i < |s.listeners| && s.listeners[i] == l;
    assert SawAll(s, c, i);
  }

  /** No wake-up is lost: once no thread is delivering or about to, every listener was called with everything. */
  lemma NoLostWakeUp(steps: seq<Step>)
    requires forall t :: At(After(steps), t).Away?
    ensures After(steps).pending == [] && !After(steps).delivering
    ensures forall l :: l in After(steps).seen ==>
              0 <= MissedBy(steps, l) <= |QueuedIn(steps)| && CallsOf(steps, l) == QueuedIn(steps)[MissedBy(steps, l)..]
  {
    var c := RunInv(steps);
    var s := After(steps);
    forall l | l in s.seen
      ensures 0 <= MissedBy(steps, l) <= |QueuedIn(steps)|
      ensures CallsOf(steps, l) == QueuedIn(steps)[MissedBy(steps, l)..]
    {
      HistoryIsRun(steps, l);
      var i :| 0 <= i < |s.listeners| && s.listeners[i] == l;
      assert SawAll(s, c, i);
    }
  }
}
