/** The worker pool as a step system: pushers, workers and shutdown interleave in any order. */
module TaskQueue {

  /** A task is known by what it does; the n-th task pushed has number n. */
  type Task = string

  /** Where a worker is in its loop. It holds the lock in the states from Checking to Taking. */
  datatype Place =
    | Top
    | Locking
    | Checking
    | Waiting
    | Woken
    | Deciding
    | Taking
    | Working(number: nat, task: Task)
    | Exited

  predicate HoldsLock(p: Place) {
    p.Checking? || p.Woken? || p.Deciding? || p.Taking?
  }

  datatype Owner = Nobody | Worker(w: nat)

  datatype Shared = Shared(
    queue: seq<Task>,
    active: bool,
    accepting: bool,
    lock: Owner,
    workers: seq<Place>)

  /** What has happened: the tasks pushed, the worker that took the n-th task, and the numbers of the
      tasks that have run to their end. */
  datatype History = History(pushed: seq<Task>, takenBy: seq<nat>, done: seq<nat>)

  datatype State = State(shared: Shared, history: History)

  datatype Step =
    | Push(task: Task)
    | Spawn
    | StopAccepting
    | Shutdown
    | Advance(w: nat)

  /** Nothing is said of the flag at the start: the object does not initialise it. */
  function Start(accepting: bool): State {
    State(Shared([], true, accepting, Nobody, []), History([], [], []))
  }

  // ---------- steps ----------

  function At(s: Shared, w: nat, p: Place): Shared
    requires w < |s.workers|
  {
    s.(workers := s.workers[w := p])
  }

  /** A worker leaves its critical section. */
  function Unlock(s: Shared, w: nat, p: Place): Shared
    requires w < |s.workers|
  {
    At(s, w, p).(lock := Nobody)
  }

  /** The condition a worker waits for. */
  predicate Ready(s: Shared) {
    !s.accepting || s.queue != [] || !s.active
  }

  /** A step can be made: a worker that needs the lock gets it when nobody holds it. */
  predicate Enabled(s: Shared, step: Step) {
    match step
    case Push(_) => s.lock == Nobody
    case StopAccepting => s.lock == Nobody
    case Spawn => true
    case Shutdown => true
    case Advance(w) =>
      && w < |s.workers| && !s.workers[w].Exited?
      && (s.workers[w].Locking? ==> s.lock == Nobody)
      && (s.workers[w].Taking? ==> s.queue != [])
  }

  /** The next step of a worker. A waiting worker may wake at any time and then needs the lock again. */
  function AdvanceShared(s: Shared, w: nat, number: nat): Shared
    requires w < |s.workers| && (s.workers[w].Taking? ==> s.queue != [])
  {
    match s.workers[w]
    case Top => At(s, w, if s.active then Locking else Exited)
    case Locking => At(s, w, Checking).(lock := Worker(w))
    case Checking => if Ready(s) then At(s, w, Woken) else Unlock(s, w, Waiting)
    case Waiting => At(s, w, Locking)
    case Woken => if s.active then At(s, w, Deciding) else Unlock(s, w, Exited)
    case Deciding => if !s.accepting && s.queue == [] then Unlock(s, w, Top).(accepting := true) else At(s, w, Taking)
    case Taking => Unlock(s, w, Working(number, s.queue[0])).(queue := s.queue[1..], accepting := true)
    case Working(_, _) => At(s, w, Top)
    case Exited => s
  }

  function AdvanceHistory(h: History, p: Place, w: nat): History {
    match p
    case Taking => h.(takenBy := h.takenBy + [w])
    case Working(number, _) => h.(done := h.done + [number])
    case _ => h
  }

  function Next(s: State, step: Step): State
    requires Enabled(s.shared, step)
  {
    match step
    case Push(task) =>
      State(s.shared.(queue := s.shared.queue + [task]), s.history.(pushed := s.history.pushed + [task]))
    case Spawn => s.(shared := s.shared.(workers := s.shared.workers + [Top]))
    case StopAccepting => s.(shared := s.shared.(accepting := false))
    case Shutdown => s.(shared := s.shared.(active := false))
    case Advance(w) =>
      State(AdvanceShared(s.shared, w, |s.history.takenBy|), AdvanceHistory(s.history, s.shared.workers[w], w))
  }

  // ---------- the invariant ----------

  /** What a worker that holds the lock knows about the shared fields. */
  predicate PlaceOk(s: Shared, p: Place) {
    match p
    case Woken => Ready(s)
    case Deciding => !s.accepting || s.queue != []
    case Taking => s.queue != []
    case _ => true
  }

  predicate LockOk(s: Shared) {
    && (s.lock.Worker? ==> s.lock.w < |s.workers|)
    && forall w | 0 <= w < |s.workers| :: HoldsLock(s.workers[w]) <==> s.lock == Worker(w)
  }

  /** Every task taken is with the worker that took it or done, and not both. */
  predicate TasksOk(s: State) {
    && |s.history.takenBy| <= |s.history.pushed|
    && s.history.pushed[|s.history.takenBy|..] == s.shared.queue
    && (forall w | 0 <= w < |s.shared.workers| && s.shared.workers[w].Working? ::
          var n := s.shared.workers[w].number;
          n < |s.history.takenBy| && s.history.takenBy[n] == w && s.shared.workers[w].task == s.history.pushed[n] && n !in s.history.done)
    && (forall i | 0 <= i < |s.history.done| :: s.history.done[i] < |s.history.takenBy|)
    && (forall i, j | 0 <= i < j < |s.history.done| :: s.history.done[i] != s.history.done[j])
    && (forall n | 0 <= n < |s.history.takenBy| && n !in s.history.done ::
          s.history.takenBy[n] < |s.shared.workers| && s.shared.workers[s.history.takenBy[n]].Working?
          && s.shared.workers[s.history.takenBy[n]].number == n)
  }

  predicate Inv(s: State) {
    && LockOk(s.shared)
    && (forall w | 0 <= w < |s.shared.workers| :: PlaceOk(s.shared, s.shared.workers[w]))
    && TasksOk(s)
  }

  /** Every step that can be made keeps the invariant. */
  lemma NextKeeps(s: State, step: Step)
    requires Inv(s) && Enabled(s.shared, step)
    ensures Inv(Next(s, step))
  {
    NextLock(s, step);
    NextPlaces(s, step);
    NextTasks(s, step);
  }

  lemma NextLock(s: State, step: Step)
    requires Inv(s) && Enabled(s.shared, step)
    ensures LockOk(Next(s, step).shared)
  {
    hide TasksOk;
  }

  lemma NextPlaces(s: State, step: Step)
    requires Inv(s) && Enabled(s.shared, step)
    ensures var t := Next(s, step).shared; forall w | 0 <= w < |t.workers| :: PlaceOk(t, t.workers[w])
  {
    hide TasksOk;
  }

  lemma NextTasks(s: State, step: Step)
    requires Inv(s) && Enabled(s.shared, step)
    ensures TasksOk(Next(s, step))
  {
    hide LockOk, Ready;
    match step
    case Advance(w) =>
      if s.shared.workers[w].Taking? {
        TakeKeeps(s, w);
      } else if s.shared.workers[w].Working? {
        FinishKeeps(s, w);
      } else {
        hide PlaceOk;
      }
    case Push(_) => hide PlaceOk;
    case Spawn => hide PlaceOk;
    case StopAccepting => hide PlaceOk, TasksOk; assert TasksOk(s); SameTasks(s, Next(s, step));
    case Shutdown => hide PlaceOk, TasksOk; assert TasksOk(s); SameTasks(s, Next(s, step));
  }

  lemma SameTasks(s: State, t: State)
    requires TasksOk(s) && t.history == s.history && t.shared.queue == s.shared.queue && t.shared.workers == s.shared.workers
    ensures TasksOk(t)
  {}

  /** The worker at the head of the queue takes the next task by number. */
  lemma TakeKeeps(s: State, w: nat)
    requires Inv(s) && w < |s.shared.workers| && s.shared.workers[w].Taking? && s.shared.queue != []
    ensures TasksOk(Next(s, Advance(w)))
  {
    hide LockOk, Ready, PlaceOk;
    var n, t := |s.history.takenBy|, Next(s, Advance(w));
    assert s.history.pushed[n..][0] == s.shared.queue[0];
    assert forall k | 0 <= k < n :: t.history.takenBy[k] == s.history.takenBy[k];
  }

  lemma FinishKeeps(s: State, w: nat)
    requires Inv(s) && w < |s.shared.workers| && s.shared.workers[w].Working?
    ensures TasksOk(Next(s, Advance(w)))
  {
    hide LockOk, Ready, PlaceOk;
    var n, t := s.shared.workers[w].number, Next(s, Advance(w));
    assert t.history.done == s.history.done + [n];
    assert n in t.history.done;
    forall k | k in s.history.done ensures k in t.history.done {}
  }

  /** A worker about to take a task finds one: apart from the lock, nothing ever stops a worker. */
  lemma TakesFromNonEmpty(s: State, w: nat)
    requires Inv(s) && w < |s.shared.workers| && !s.shared.workers[w].Exited?
    ensures s.shared.workers[w].Taking? ==> s.shared.queue != []
    ensures Enabled(s.shared, Advance(w)) <==> (s.shared.workers[w].Locking? ==> s.shared.lock == Nobody)
  {
    assert PlaceOk(s.shared, s.shared.workers[w]);
  }

  // ---------- runs ----------

  /** A schedule names the steps one after another; a step that is not possible is passed over. */
  function Run(s: State, steps: seq<Step>): State
    decreases |steps|
  {
    if steps == [] then s
    else Run(if Enabled(s.shared, steps[0]) then Next(s, steps[0]) else s, steps[1..])
  }

  lemma {:induction false} RunKeeps(s: State, steps: seq<Step>)
    requires Inv(s)
    ensures Inv(Run(s, steps))
    decreases |steps|
  {
    hide Inv, Next, Enabled;
    if steps != [] {
      if Enabled(s.shared, steps[0]) { NextKeeps(s, steps[0]); }
      RunKeeps(if Enabled(s.shared, steps[0]) then Next(s, steps[0]) else s, steps[1..]);
    }
  }

  /** In every interleaving the tasks pushed are the tasks taken followed by the tasks queued, a task
      taken is with the one worker that took it until it is done, no two workers have the same task
      and no task is done twice. */
  lemma EveryRun(accepting: bool, steps: seq<Step>)
    ensures var s := Run(Start(accepting), steps); var h := s.history;
            && |h.takenBy| <= |h.pushed| && h.pushed == h.pushed[..|h.takenBy|] + s.shared.queue
            && (forall v, w | 0 <= v < w < |s.shared.workers| && s.shared.workers[v].Working? && s.shared.workers[w].Working? ::
                  s.shared.workers[v].number != s.shared.workers[w].number)
            && (forall w | 0 <= w < |s.shared.workers| && s.shared.workers[w].Working? ::
                  var n := s.shared.workers[w].number;
                  n < |h.takenBy| && s.shared.workers[w].task == h.pushed[n] && n !in h.done)
            && (forall i, j | 0 <= i < j < |h.done| :: h.done[i] != h.done[j])
            && ((forall w | 0 <= w < |s.shared.workers| :: !s.shared.workers[w].Working?) ==>
                  forall n | 0 <= n < |h.takenBy| :: n in h.done)
  {
    RunKeeps(Start(accepting), steps);
    hide LockOk, PlaceOk;
  }

  // ---------- shutdown ----------

  /** The lock holder has passed the last test of the flag. */
  predicate Committed(s: Shared) {
    s.lock.Worker? && s.lock.w < |s.workers| && (s.workers[s.lock.w].Deciding? || s.workers[s.lock.w].Taking?)
  }

  function MayTake(s: State): nat {
    |s.history.takenBy| + if Committed(s.shared) then 1 else 0
  }

  lemma NextAfterShutdown(s: State, step: Step)
    requires Inv(s) && Enabled(s.shared, step) && !s.shared.active
    ensures !Next(s, step).shared.active && MayTake(Next(s, step)) <= MayTake(s)
  {
    hide TasksOk, PlaceOk;
  }

  /** After shutdown at most one more task is taken, by the worker that was then about to take it. */
  lemma {:induction false} AfterShutdown(s: State, steps: seq<Step>)
    requires Inv(s) && !s.shared.active
    ensures |Run(s, steps).history.takenBy| <= |s.history.takenBy| + if Committed(s.shared) then 1 else 0
    decreases |steps|
  {
    hide Inv, Next, Enabled, Committed;
    if steps != [] {
      var t := if Enabled(s.shared, steps[0]) then Next(s, steps[0]) else s;
      if Enabled(s.shared, steps[0]) {
        NextKeeps(s, steps[0]);
        NextAfterShutdown(s, steps[0]);
      }
      AfterShutdown(t, steps[1..]);
    }
  }

  // ---------- the object ----------

  class Pool {
    var queue: seq<Task>
    var active: bool
    var accepting: bool
    var lock: Owner
    var workers: array<Place>
    var count: nat
    /** The record of what has happened; the program does not keep it. */
    var history: History

    ghost predicate Valid()
      reads this, workers
    {
      count <= workers.Length && Inv(Now())
    }

    ghost function Now(): State
      requires count <= workers.Length
      reads this, workers
    {
      State(Shared(queue, active, accepting, lock, workers[..count]), history)
    }

    constructor (threads: nat, accepting: bool)
      ensures Valid() && Now() == Start(accepting) && workers.Length == threads && fresh(workers)
    {
      queue, active, lock, count := [], true, Nobody, 0;
      this.accepting := accepting;
      workers := new Place[threads];
      history := History([], [], []);
    }

    method PushToQueue(task: Task)
      requires Valid() && Enabled(Now().shared, Push(task))
      modifies this`queue, this`history
      ensures Valid() && Now() == Next(old(Now()), Push(task))
    {
      NextKeeps(Now(), Push(task));
      queue := queue + [task];
      history := history.(pushed := history.pushed + [task]);
    }

    /** Starts one thread after another, and then stops accepting. Until then the started workers may
        already have run; here they have not. */
    method DeployWorkers()
      requires Valid() && count == 0 && lock == Nobody
      modifies this, workers
      ensures Valid() && count == workers.Length == old(workers.Length) && workers == old(workers)
      ensures Now() == Run(old(Now()), Repeat(Spawn, count) + [StopAccepting])
    {
      while count < workers.Length
        invariant count <= workers.Length && workers == old(workers) && lock == Nobody
        invariant Inv(Now()) && Now() == Run(old(Now()), Repeat(Spawn, count))
      {
        NextKeeps(Now(), Spawn);
        StopAfter(old(Now()), Repeat(Spawn, count));
        ghost var before := workers[..count];
        workers[count] := Top;
        count := count + 1;
        assert workers[..count] == before + [Top];
      }
      NextKeeps(Now(), StopAccepting);
      StopAfter(old(Now()), Repeat(Spawn, count));
      accepting := false;
    }

    method Shutdown()
      requires Valid()
      modifies this`active
      ensures Valid() && Now() == Next(old(Now()), Step.Shutdown)
    {
      NextKeeps(Now(), Step.Shutdown);
      active := false;
    }

    /** The loop of a worker, one step at a time. */
    method WorkerLoop(w: nat)
      requires Valid() && Enabled(Now().shared, Advance(w))
      modifies this, workers
      ensures Valid() && workers == old(workers) && count == old(count)
      ensures Now() == Next(old(Now()), Advance(w))
    {
      NextKeeps(Now(), Advance(w));
      hide Inv, Ready;
      ghost var before := Now();
      var place := workers[w];
      history := AdvanceHistory(history, place, w);
      if place.Top? {
        place := if active then Locking else Exited;
      } else if place.Locking? {
        lock := Worker(w);
        place := Checking;
      } else if place.Checking? {
        if !accepting || queue != [] || !active {
          place := Woken;
        } else {
          lock := Nobody;
          place := Waiting;
        }
      } else if place.Waiting? {
        place := Locking;
      } else if place.Woken? {
        if active {
          place := Deciding;
        } else {
          lock := Nobody;
          place := Exited;
        }
      } else if place.Deciding? {
        if !accepting && queue == [] {
          accepting := true;
          lock := Nobody;
          place := Top;
        } else {
          place := Taking;
        }
      } else if place.Taking? {
        place := Working(|history.takenBy| - 1, queue[0]);
        queue := queue[1..];
        accepting := true;
        lock := Nobody;
      } else {
        place := Top;
      }
      workers[w] := place;
      assert workers[..count] == before.shared.workers[w := place];
    }
  }

  function Repeat(step: Step, n: nat): (r: seq<Step>)
    ensures |r| == n
  {
    if n == 0 then [] else Repeat(step, n - 1) + [step]
  }

  lemma {:induction false} StopAfter(s: State, steps: seq<Step>)
    ensures forall step | Enabled(Run(s, steps).shared, step) :: Run(s, steps + [step]) == Next(Run(s, steps), step)
    decreases |steps|
  {
    hide Next, Enabled;
    if steps != [] {
      var t := if Enabled(s.shared, steps[0]) then Next(s, steps[0]) else s;
      StopAfter(t, steps[1..]);
      forall step | Enabled(Run(s, steps).shared, step)
        ensures Run(s, steps + [step]) == Next(Run(s, steps), step)
      {
        assert (steps + [step])[0] == steps[0] && (steps + [step])[1..] == steps[1..] + [step];
      }
    }
  }
}
