/** What the worker pool gets done: workers leave only after shutdown, and every task can be finished. */
module TaskProgress {
  import opened TaskQueue

  // ---------- workers leave only after shutdown ----------

  predicate Staffed(s: State) {
    forall w | 0 <= w < |s.shared.workers| :: s.shared.workers[w].Exited? ==> !s.shared.active
  }

  lemma NextStaffed(s: State, step: Step)
    requires Staffed(s) && Enabled(s.shared, step)
    ensures Staffed(Next(s, step))
  {
    hide Ready;
  }

  lemma {:induction false} RunStaffed(s: State, steps: seq<Step>)
    requires Staffed(s)
    ensures Staffed(Run(s, steps))
    decreases |steps|
  {
    hide Staffed, Next, Enabled;
    if steps != [] {
      if Enabled(s.shared, steps[0]) { NextStaffed(s, steps[0]); }
      RunStaffed(if Enabled(s.shared, steps[0]) then Next(s, steps[0]) else s, steps[1..]);
    }
  }

  /** In every run a worker that has left its loop has seen the shutdown. */
  lemma ExitedAfterShutdown(accepting: bool, steps: seq<Step>, w: nat)
    requires w < |Run(Start(accepting), steps).shared.workers|
    ensures Run(Start(accepting), steps).shared.workers[w].Exited? ==> !Run(Start(accepting), steps).shared.active
  {
    RunStaffed(Start(accepting), steps);
  }

  // ---------- schedules ----------

  /** A worker makes n steps on its own. */
  function Alone(w: nat, n: nat): (steps: seq<Step>)
    ensures |steps| == n && forall i | 0 <= i < n :: steps[i] == Advance(w)
  {
    if n == 0 then [] else [Advance(w)] + Alone(w, n - 1)
  }

  lemma {:induction false} RunAppend(s: State, a: seq<Step>, b: seq<Step>)
    ensures Run(s, a + b) == Run(Run(s, a), b)
    decreases |a|
  {
    hide Next, Enabled;
    if a == [] {
      assert a + b == b;
    } else {
      assert (a + b)[0] == a[0] && (a + b)[1..] == a[1..] + b;
      RunAppend(if Enabled(s.shared, a[0]) then Next(s, a[0]) else s, a[1..], b);
    }
  }

  lemma AloneStep(s: State, w: nat, n: nat)
    requires Enabled(s.shared, Advance(w))
    ensures Run(s, Alone(w, n + 1)) == Run(Next(s, Advance(w)), Alone(w, n))
  {
    hide Next, Enabled;
    assert Alone(w, n + 1)[1..] == Alone(w, n);
  }

  // ---------- the head of the queue ----------

  /** A worker of an active pool with a task in the queue, and nobody else in the critical section. */
  predicate Free(s: State, w: nat) {
    && Inv(s) && s.shared.active && s.shared.queue != []
    && w < |s.shared.workers| && !s.shared.workers[w].Exited?
    && (s.shared.lock == Nobody || s.shared.lock == Worker(w))
  }

  /** How many steps a worker is away from taking a task. */
  function Distance(p: Place): nat {
    match p
    case Working(_, _) => 7
    case Top => 6
    case Waiting => 6
    case Locking => 5
    case Checking => 4
    case Woken => 3
    case Deciding => 2
    case Taking => 1
    case Exited => 0
  }

  /** Only the worker's own place and the lock change, and a task it was working on is done. */
  predicate Untouched(s: State, t: State, w: nat)
    requires w < |s.shared.workers|
  {
    && t.shared.active == s.shared.active && |t.shared.workers| == |s.shared.workers|
    && (forall v | 0 <= v < |s.shared.workers| && v != w :: t.shared.workers[v] == s.shared.workers[v])
    && t.history.pushed == s.history.pushed && s.history.done <= t.history.done
  }

  lemma Closer(s: State, w: nat)
    requires Free(s, w) && 1 < Distance(s.shared.workers[w])
    ensures Enabled(s.shared, Advance(w))
    ensures var t := Next(s, Advance(w));
            && Free(t, w) && Untouched(s, t, w)
            && Distance(t.shared.workers[w]) == Distance(s.shared.workers[w]) - 1
            && t.shared.queue == s.shared.queue && t.history.takenBy == s.history.takenBy
  {
    TakesFromNonEmpty(s, w);
    NextKeeps(s, Advance(w));
    FreePlace(s, w);
    hide TasksOk, LockOk, Inv;
  }

  /** What the invariant says of the worker's own place. */
  lemma FreePlace(s: State, w: nat)
    requires Free(s, w)
    ensures HoldsLock(s.shared.workers[w]) <==> s.shared.lock == Worker(w)
    ensures PlaceOk(s.shared, s.shared.workers[w])
  {}

  /** By its own steps alone the worker comes to take the head of the queue. */
  lemma {:induction false} TakesHead(s: State, w: nat)
    requires Free(s, w)
    ensures var t := Run(s, Alone(w, Distance(s.shared.workers[w])));
            && Inv(t) && Untouched(s, t, w) && t.shared.lock == Nobody
            && t.history.takenBy == s.history.takenBy + [w] && t.shared.queue == s.shared.queue[1..]
            && t.shared.workers[w] == Working(|s.history.takenBy|, s.shared.queue[0])
    decreases Distance(s.shared.workers[w])
  {
    hide Inv, Next, Enabled, Run, Alone;
    if s.shared.workers[w].Taking? {
      AtLast(s, w);
    } else {
      Closer(s, w);
      AloneStep(s, w, Distance(s.shared.workers[w]) - 1);
      TakesHead(Next(s, Advance(w)), w);
    }
  }

  lemma AtLast(s: State, w: nat)
    requires Free(s, w) && s.shared.workers[w].Taking?
    ensures var t := Run(s, Alone(w, 1));
            && Inv(t) && Untouched(s, t, w) && t.shared.lock == Nobody
            && t.history.takenBy == s.history.takenBy + [w] && t.shared.queue == s.shared.queue[1..]
            && t.shared.workers[w] == Working(|s.history.takenBy|, s.shared.queue[0])
  {
    TakesFromNonEmpty(s, w);
    NextKeeps(s, Advance(w));
    AloneStep(s, w, 0);
    hide Inv;
  }

  /** One step more, and the task is done. */
  lemma FinishesTask(s: State, w: nat)
    requires Inv(s) && w < |s.shared.workers| && s.shared.workers[w].Working?
    ensures var t := Run(s, Alone(w, 1));
            && Inv(t) && Untouched(s, t, w) && t.shared.lock == s.shared.lock && t.shared.workers[w].Top?
            && t.shared.queue == s.shared.queue && t.history.takenBy == s.history.takenBy
            && t.history.done == s.history.done + [s.shared.workers[w].number]
  {
    TakesFromNonEmpty(s, w);
    NextKeeps(s, Advance(w));
    AloneStep(s, w, 0);
    hide Inv;
  }

  /** An active pool in which some worker is still in its loop. */
  predicate Running(s: State) {
    Inv(s) && Staffed(s) && s.shared.active && s.shared.workers != []
  }

  /** The worker in the critical section, or the first one. */
  function Chosen(s: State): nat {
    if s.shared.lock.Worker? then s.shared.lock.w else 0
  }

  lemma ChosenIsFree(s: State)
    requires Running(s) && s.shared.queue != []
    ensures Free(s, Chosen(s))
  {
    if s.shared.lock.Worker? { assert HoldsLock(s.shared.workers[s.shared.lock.w]); }
  }

  /** In every running pool there is a schedule of the workers that finishes the head of the queue. */
  lemma HeadFinished(s: State) returns (steps: seq<Step>)
    requires Running(s) && s.shared.queue != []
    ensures forall i | 0 <= i < |steps| :: steps[i].Advance?
    ensures var t := Run(s, steps);
            && Running(t) && t.shared.queue == s.shared.queue[1..] && t.history.pushed == s.history.pushed
            && t.history.takenBy == s.history.takenBy + [Chosen(s)]
            && s.history.done <= t.history.done && |s.history.takenBy| in t.history.done
            && s.history.pushed[|s.history.takenBy|..] == s.shared.queue
  {
    hide TasksOk, LockOk, PlaceOk, Next, Enabled, Alone, Run;
    var w := Chosen(s);
    ChosenIsFree(s);
    TakesHead(s, w);
    var a := Alone(w, Distance(s.shared.workers[w]));
    var t := Run(s, a);
    FinishesTask(t, w);
    steps := a + Alone(w, 1);
    RunAppend(s, a, Alone(w, 1));
    QueueIsRest(s);
  }

  lemma QueueIsRest(s: State)
    requires Inv(s)
    ensures |s.history.takenBy| <= |s.history.pushed| && s.history.pushed[|s.history.takenBy|..] == s.shared.queue
  {}

  // ---------- all tasks ----------

  /** In every running pool there is a schedule of the workers that takes every task in the queue. */
  lemma {:induction false} QueueEmptied(s: State) returns (steps: seq<Step>)
    requires Running(s)
    ensures forall i | 0 <= i < |steps| :: steps[i].Advance?
    ensures var t := Run(s, steps);
            Running(t) && t.shared.queue == [] && t.history.pushed == s.history.pushed && s.history.done <= t.history.done
    decreases |s.shared.queue|
  {
    hide Inv, Staffed, Next, Enabled, Run;
    if s.shared.queue == [] {
      steps := [];
      RunNothing(s);
    } else {
      var first := HeadFinished(s);
      var rest := QueueEmptied(Run(s, first));
      steps := first + rest;
      RunAppend(s, first, rest);
    }
  }

  lemma RunNothing(s: State)
    ensures Run(s, []) == s
  {}

  /** Lets the first k workers finish what they are working on. */
  lemma {:induction false} WorkersFinish(s: State, k: nat) returns (steps: seq<Step>)
    requires Inv(s) && k <= |s.shared.workers|
    ensures forall i | 0 <= i < |steps| :: steps[i].Advance?
    ensures var t := Run(s, steps);
            && Inv(t) && t.shared.queue == s.shared.queue && t.history.pushed == s.history.pushed
            && |t.shared.workers| == |s.shared.workers| && s.history.done <= t.history.done
            && (forall w | 0 <= w < k :: !t.shared.workers[w].Working?)
            && (forall w | k <= w < |s.shared.workers| :: t.shared.workers[w] == s.shared.workers[w])
    decreases k
  {
    hide Inv, Next, Enabled, Run, Alone;
    if k == 0 {
      steps := [];
      RunNothing(s);
    } else {
      var before := WorkersFinish(s, k - 1);
      var t := Run(s, before);
      if t.shared.workers[k - 1].Working? {
        FinishesTask(t, k - 1);
        steps := before + Alone(k - 1, 1);
        RunAppend(s, before, Alone(k - 1, 1));
      } else {
        steps := before;
      }
    }
  }

  /** In every running pool there is a schedule of the workers after which every task ever pushed is
      done. */
  lemma EverythingDone(s: State) returns (steps: seq<Step>)
    requires Running(s)
    ensures forall i | 0 <= i < |steps| :: steps[i].Advance?
    ensures var t := Run(s, steps);
            && t.history.pushed == s.history.pushed && t.shared.queue == []
            && forall n | 0 <= n < |s.history.pushed| :: n in t.history.done
  {
    hide LockOk, PlaceOk, Next, Enabled, Run;
    var first := QueueEmptied(s);
    var t := Run(s, first);
    var rest := WorkersFinish(t, |t.shared.workers|);
    steps := first + rest;
    RunAppend(s, first, rest);
  }

  /** So it is in every run from the start that has spawned a worker and has not been shut down. */
  lemma EveryTaskCanBeDone(accepting: bool, steps: seq<Step>) returns (more: seq<Step>)
    requires var s := Run(Start(accepting), steps).shared; s.active && s.workers != []
    ensures forall i | 0 <= i < |more| :: more[i].Advance?
    ensures var s, t := Run(Start(accepting), steps), Run(Start(accepting), steps + more);
            && t.history.pushed == s.history.pushed && t.shared.queue == []
            && forall n | 0 <= n < |s.history.pushed| :: n in t.history.done
  {
    hide Next, Enabled, Run;
    RunKeeps(Start(accepting), steps);
    RunStaffed(Start(accepting), steps);
    more := EverythingDone(Run(Start(accepting), steps));
    RunAppend(Start(accepting), steps, more);
  }

  // ---------- a worker without work ----------

  /** A worker with nothing to do comes to wait in at most eight steps, and the pool accepts tasks again. */
  lemma IdleWaits(s: State, w: nat)
    requires s.shared.active && s.shared.queue == [] && s.shared.lock == Nobody
    requires w < |s.shared.workers| && s.shared.workers[w].Top?
    ensures var t := Run(s, Alone(w, if s.shared.accepting then 3 else 8));
            && t.shared.workers == s.shared.workers[w := Waiting] && t.shared.accepting && t.shared.lock == Nobody
            && t.shared.queue == [] && t.history == s.history
  {
    hide Inv, Run, Alone;
    if !s.shared.accepting {
      var t := AcceptsAgain(s, w);
      WaitsNext(t, w);
      RunAlone(s, w, 5, 3);
    } else {
      WaitsNext(s, w);
    }
  }

  lemma RunAlone(s: State, w: nat, m: nat, n: nat)
    ensures Run(Run(s, Alone(w, m)), Alone(w, n)) == Run(s, Alone(w, m + n))
  {
    RunAppend(s, Alone(w, m), Alone(w, n));
    assert Alone(w, m) + Alone(w, n) == Alone(w, m + n);
  }

  lemma WaitsNext(s: State, w: nat)
    requires s.shared.active && s.shared.queue == [] && s.shared.lock == Nobody && s.shared.accepting
    requires w < |s.shared.workers| && s.shared.workers[w].Top?
    ensures Run(s, Alone(w, 3)) == s.(shared := s.shared.(workers := s.shared.workers[w := Waiting]))
  {
    hide Run, Alone;
    var s1 := Next(s, Advance(w));
    var s2 := Next(s1, Advance(w));
    var s3 := Next(s2, Advance(w));
    AloneStep(s, w, 2);
    AloneStep(s1, w, 1);
    AloneStep(s2, w, 0);
    RunNoSteps(s3, w);
  }

  lemma RunNoSteps(s: State, w: nat)
    ensures Run(s, Alone(w, 0)) == s
  {}

  lemma AcceptsAgain(s: State, w: nat) returns (t: State)
    requires s.shared.active && s.shared.queue == [] && s.shared.lock == Nobody && !s.shared.accepting
    requires w < |s.shared.workers| && s.shared.workers[w].Top?
    ensures t == Run(s, Alone(w, 5)) && t == s.(shared := s.shared.(accepting := true))
  {
    hide Run, Alone;
    var s1 := Next(s, Advance(w));
    var s2 := Next(s1, Advance(w));
    var s3 := Next(s2, Advance(w));
    var s4 := Next(s3, Advance(w));
    t := Next(s4, Advance(w));
    AloneStep(s, w, 4);
    AloneStep(s1, w, 3);
    AloneStep(s2, w, 2);
    AloneStep(s3, w, 1);
    AloneStep(s4, w, 0);
    RunNoSteps(t, w);
    assert t.shared.workers == s.shared.workers;
  }
}
