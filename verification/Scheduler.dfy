/** The round-robin task selector: which task runs next, and how long any task can wait. */
module Scheduling {

  const MAX_TASKS: nat := 8

  datatype Status = Ready | Running | Sleeping | Finished

  datatype Task = Task(status: Status, started: bool)

  /** The registered tasks and the number of the current one. */
  datatype State = State(tasks: seq<Task>, current: nat)

  predicate Unfinished(ts: seq<Task>, i: int) {
    0 <= i < |ts| && !ts[i].status.Finished?
  }

  ghost predicate SomeUnfinished(ts: seq<Task>) {
    exists i :: Unfinished(ts, i)
  }

  predicate Proper(s: State) {
    |s.tasks| <= MAX_TASKS && (if s.tasks == [] then s.current == 0 else s.current < |s.tasks|)
  }

  /** Tasks passed over on the way from just after `from` to `i`, `n` tasks in the circle. */
  function Distance(from: nat, i: nat, n: nat): int {
    if i > from then i - from - 1 else i - from - 1 + n
  }

  /** The first unfinished task cyclically after `from`. */
  ghost predicate IsNext(ts: seq<Task>, from: nat, j: nat) {
    Unfinished(ts, j) && forall i :: Unfinished(ts, i) ==> Distance(from, j, |ts|) <= Distance(from, i, |ts|)
  }

  lemma NextUnique(ts: seq<Task>, from: nat, j: nat, k: nat)
    requires from < |ts| && IsNext(ts, from, j) && IsNext(ts, from, k)
    ensures j == k
  {
    assert Unfinished(ts, j) && Unfinished(ts, k);
  }

  /** The `d`th task after `from`. */
  function After(from: nat, d: nat, n: nat): (k: nat)
    requires from < n && d < n
    ensures k < n && Distance(from, k, n) == d
  {
    if from + 1 + d < n then from + 1 + d else from + 1 + d - n
  }

  lemma AfterDistance(from: nat, i: nat, n: nat)
    requires from < n && i < n
    ensures 0 <= Distance(from, i, n) < n && After(from, Distance(from, i, n), n) == i
  {
  }

  /** The search of both selection loops: `d` tasks have been passed over. */
  function SelectFrom(ts: seq<Task>, from: nat, d: nat): (j: nat)
    requires from < |ts| && d <= |ts| && SomeUnfinished(ts)
    requires forall i :: Unfinished(ts, i) ==> Distance(from, i, |ts|) >= d
    ensures IsNext(ts, from, j)
    decreases |ts| - d
  {
    FoundBefore(ts, from, d);
    var k := After(from, d, |ts|);
    if !ts[k].status.Finished? then k
    else
      PassedOver(ts, from, d);
      SelectFrom(ts, from, d + 1)
  }

  lemma FoundBefore(ts: seq<Task>, from: nat, d: nat)
    requires from < |ts| && d <= |ts| && SomeUnfinished(ts)
    requires forall i :: Unfinished(ts, i) ==> Distance(from, i, |ts|) >= d
    ensures d < |ts|
  {
    var i :| Unfinished(ts, i);
    AfterDistance(from, i, |ts|);
  }

  lemma PassedOver(ts: seq<Task>, from: nat, d: nat)
    requires from < |ts| && d < |ts| && ts[After(from, d, |ts|)].status.Finished?
    requires forall i :: Unfinished(ts, i) ==> Distance(from, i, |ts|) >= d
    ensures forall i :: Unfinished(ts, i) ==> Distance(from, i, |ts|) >= d + 1
  {
    forall i | Unfinished(ts, i)
      ensures Distance(from, i, |ts|) >= d + 1
    {
      AfterDistance(from, i, |ts|);
    }
  }

  function Select(ts: seq<Task>, from: nat): (j: nat)
    requires from < |ts| && SomeUnfinished(ts)
    ensures IsNext(ts, from, j)
  {
    SelectFrom(ts, from, 0)
  }

  // ---------------------------------------------------------------- events

  datatype Event = Tick | Exit | Create

  /** What a selected task becomes when it has never run. */
  function Started(t: Task): Task {
    if t.started then t else Task(Running, true)
  }

  function Retired(s: State): seq<Task>
    requires s.current < |s.tasks|
  {
    s.tasks[s.current := s.tasks[s.current].(status := Finished)]
  }

  ghost predicate Possible(s: State, e: Event) {
    && Proper(s)
    && (e.Tick? ==> SomeUnfinished(s.tasks))
    && (e.Exit? ==> s.tasks != [] && SomeUnfinished(Retired(s)))
  }

  /** The state after an event.  Without an unfinished task a tick would search for ever and an
      exit halts the system. */
  ghost function Next(s: State, e: Event): (r: State)
    requires Possible(s, e)
    ensures Proper(r)
  {
    match e
    case Tick =>
      var j := Select(s.tasks, s.current);
      State(s.tasks[j := Started(s.tasks[j])], j)
    case Exit => State(Retired(s), Select(Retired(s), s.current))
    case Create => if |s.tasks| >= MAX_TASKS then s else State(s.tasks + [Task(Ready, false)], s.current)
  }

  predicate Selects(e: Event) {
    e != Create
  }

  // ---------------------------------------------------------------- the code

  class Scheduler {
    var tasks: array<Task>
    var num: nat
    var current: nat

    ghost predicate Valid()
      reads this, tasks
    {
      tasks.Length == MAX_TASKS && num <= MAX_TASKS && Proper(View())
    }

    ghost function View(): State
      reads this, tasks
      requires num <= tasks.Length
    {
      State(tasks[..num], current)
    }

    constructor ()
      ensures Valid() && fresh(tasks) && View() == State([], 0)
    {
      tasks := new Task[MAX_TASKS](_ => Task(Ready, false));
      num, current := 0, 0;
    }

    method CreateTask()
      requires Valid()
      modifies this, tasks
      ensures Valid() && tasks == old(tasks) && View() == Next(old(View()), Create)
    {
      if num >= MAX_TASKS {
        return;
      }
      tasks[num] := Task(Ready, false);
      num := num + 1;
    }

    /** The loop shared by both selections: move on while the current task is finished.  On
        entry `d` tasks after `from` have been looked at, the current one being the next. */
    method SkipFinished(ghost from: nat, ghost d: int)
      requires tasks.Length == MAX_TASKS && num <= MAX_TASKS && from < num && SomeUnfinished(tasks[..num])
      requires -1 <= d < num && current == At(from, d, num)
      requires d == -1 ==> tasks[from].status == Finished
      requires forall k :: Unfinished(tasks[..num], k) ==> Distance(from, k, num) >= d
      modifies this`current
      ensures current < num && current == Select(tasks[..num], from)
    {
      ghost var ts := tasks[..num];
      ghost var e := d;
      while tasks[current].status == Finished
        invariant -1 <= e < num && current == At(from, e, num) < num
        invariant e == -1 ==> tasks[from].status == Finished
        invariant forall k :: Unfinished(ts, k) ==> Distance(from, k, num) >= e
        decreases num - e
      {
        Onward(ts, from, e);
        current := Successor(current, num);
        e := e + 1;
      }
      assert ts[current] == tasks[current];
      NextUnique(ts, from, current, Select(ts, from));
    }

    /** `scheduler_interrupt_handler` up to the context switch. */
    method InterruptHandler()
      requires Valid() && Possible(View(), Tick)
      modifies this, tasks
      ensures Valid() && tasks == old(tasks) && View() == Next(old(View()), Tick)
    {
      ghost var from := current;
      current := Successor(current, num);
      Onward(tasks[..num], from, -1);
      SkipFinished(from, 0);
      if !tasks[current].started {
        tasks[current] := Task(Running, true);
      }
    }

    /** `task_exit` up to the context switch; `halted` when no task is left to run. */
    method TaskExit() returns (halted: bool)
      requires Valid() && num > 0
      modifies this, tasks
      ensures Valid() && tasks == old(tasks)
      ensures halted <==> !SomeUnfinished(Retired(old(View())))
      ensures !halted ==> View() == Next(old(View()), Exit)
    {
      tasks[current] := tasks[current].(status := Finished);
      assert tasks[..num] == Retired(old(View()));
      var active := CountActive();
      if active == 0 {
        return true;
      }
      NonNegative(tasks[..num], current);
      SkipFinished(current, -1);
      halted := false;
    }

    method CountActive() returns (active: nat)
      requires num <= tasks.Length
      ensures active > 0 <==> SomeUnfinished(tasks[..num])
    {
      ghost var ts := tasks[..num];
      var i := 0;
      active := 0;
      while i < num
        invariant 0 <= i <= num
        invariant active > 0 <==> exists k :: k < i && Unfinished(ts, k)
      {
        if tasks[i].status != Finished {
          assert Unfinished(ts, i);
          active := active + 1;
        }
        i := i + 1;
      }
    }
  }

  /** `(k + 1) % n`. */
  function Successor(k: nat, n: nat): (r: nat)
    requires k < n
    ensures r == if k + 1 == n then 0 else k + 1
  {
    (k + 1) % n
  }

  /** The task reached when `d` have been passed over; the start itself for -1. */
  function At(from: nat, d: int, n: nat): (k: nat)
    requires from < n && -1 <= d < n
    ensures k < n
  {
    if d < 0 then from else After(from, d, n)
  }

  lemma NonNegative(ts: seq<Task>, from: nat)
    requires from < |ts|
    ensures forall k :: Unfinished(ts, k) ==> Distance(from, k, |ts|) >= 0
  {
    forall k | Unfinished(ts, k)
      ensures Distance(from, k, |ts|) >= 0
    {
      AfterDistance(from, k, |ts|);
    }
  }

  /** One step of the search. */
  lemma Onward(ts: seq<Task>, from: nat, e: int)
    requires from < |ts| && -1 <= e < |ts| && SomeUnfinished(ts)
    requires e >= 0 ==> ts[After(from, e, |ts|)].status.Finished?
    requires forall k :: Unfinished(ts, k) ==> Distance(from, k, |ts|) >= e
    ensures forall k :: Unfinished(ts, k) ==> Distance(from, k, |ts|) >= e + 1
    ensures e + 1 < |ts| && Successor(At(from, e, |ts|), |ts|) == At(from, e + 1, |ts|)
  {
    if e >= 0 {
      PassedOver(ts, from, e);
    } else {
      NonNegative(ts, from);
    }
    FoundBefore(ts, from, e + 1);
  }

  /** The task reached by stepping on `d` times from `from`, as the loops do. */
  function Stepped(from: nat, d: nat, n: nat): (k: nat)
    requires from < n
    ensures k < n
    decreases d
  {
    if d == 0 then from else Successor(Stepped(from, d - 1, n), n)
  }

  lemma {:induction false} SteppedIsAfter(from: nat, d: nat, n: nat)
    requires from < n && d < n
    ensures Stepped(from, d + 1, n) == After(from, d, n)
    decreases d
  {
    if d > 0 {
      SteppedIsAfter(from, d - 1, n);
    } else {
      assert Stepped(from, 1, n) == Successor(Stepped(from, 0, n), n);
    }
  }

  /** Stepping on comes to an unfinished task, and then within one round, exactly when there is
      one; with none the selection loops step on for ever. */
  lemma SelectionEndsExactly(ts: seq<Task>, from: nat)
    requires from < |ts|
    ensures SomeUnfinished(ts) <==> exists d: nat :: d > 0 && Unfinished(ts, Stepped(from, d, |ts|))
    ensures SomeUnfinished(ts) <==> exists d: nat :: 0 < d <= |ts| && Unfinished(ts, Stepped(from, d, |ts|))
  {
    if SomeUnfinished(ts) {
      var i :| Unfinished(ts, i);
      AfterDistance(from, i, |ts|);
      var d := Distance(from, i, |ts|);
      SteppedIsAfter(from, d, |ts|);
      assert Unfinished(ts, Stepped(from, d + 1, |ts|));
    }
  }

  // ---------------------------------------------------------------- fairness

  /** How far off task `i` is, measured on a circle of MAX_TASKS places so that creating tasks
      does not move it. */
  function Wait(current: nat, i: nat): (w: int)
    requires current < MAX_TASKS && i < MAX_TASKS
    ensures 0 <= w < MAX_TASKS
  {
    Distance(current, i, MAX_TASKS)
  }

  /** Every selection that passes over an unfinished task brings it nearer. */
  lemma SelectionBringsNearer(ts: seq<Task>, from: nat, i: nat, j: nat)
    requires |ts| <= MAX_TASKS && from < |ts| && Unfinished(ts, i) && IsNext(ts, from, j) && j != i
    ensures Wait(j, i) < Wait(from, i)
  {
    assert Distance(from, j, |ts|) <= Distance(from, i, |ts|);
  }

  ghost predicate IsRun(states: seq<State>, events: seq<Event>) {
    && |states| == |events| + 1
    && (forall k :: 0 <= k < |events| ==> Follows(states, events, k))
  }

  ghost predicate Follows(states: seq<State>, events: seq<Event>, k: nat)
    requires k < |events| && |states| == |events| + 1
  {
    Possible(states[k], events[k]) && states[k + 1] == Next(states[k], events[k])
  }

  function Selections(events: seq<Event>): nat {
    if events == [] then 0
    else Selections(events[..|events| - 1]) + (if Selects(events[|events| - 1]) then 1 else 0)
  }

  /** Task `i` exists and is unfinished throughout. */
  ghost predicate Stays(states: seq<State>, i: nat) {
    forall k :: 0 <= k < |states| ==> Proper(states[k]) && Unfinished(states[k].tasks, i)
  }

  ghost predicate ChosenAt(states: seq<State>, events: seq<Event>, k: nat, i: nat)
    requires k < |events| && |states| == |events| + 1
  {
    Selects(events[k]) && states[k + 1].current == i
  }

  lemma StepBringsNearer(s: State, e: Event, i: nat)
    requires Possible(s, e) && Unfinished(s.tasks, i) && Unfinished(Next(s, e).tasks, i)
    requires Selects(e) ==> Next(s, e).current != i
    ensures Wait(Next(s, e).current, i) + (if Selects(e) then 1 else 0) <= Wait(s.current, i)
  {
    match e
    case Tick => SelectionBringsNearer(s.tasks, s.current, i, Next(s, e).current);
    case Exit => SelectionBringsNearer(Retired(s), s.current, i, Next(s, e).current);
    case Create =>
  }

  lemma {:induction false} WaitShrinks(states: seq<State>, events: seq<Event>, i: nat)
    requires IsRun(states, events) && Stays(states, i)
    requires forall k :: 0 <= k < |events| ==> !ChosenAt(states, events, k, i)
    ensures Proper(states[0]) && i < MAX_TASKS && Proper(states[|events|])
    ensures Wait(states[|events|].current, i) + Selections(events) <= Wait(states[0].current, i)
    decreases |events|
  {
    assert Proper(states[0]) && Unfinished(states[0].tasks, i);
    if events != [] {
      var n := |events| - 1;
      var before, shorter := states[..n + 1], events[..n];
      forall k | 0 <= k < n
        ensures Follows(before, shorter, k) && !ChosenAt(before, shorter, k, i)
      {
        assert Follows(states, events, k) && !ChosenAt(states, events, k, i);
      }
      WaitShrinks(before, shorter, i);
      assert Follows(states, events, n) && !ChosenAt(states, events, n, i);
      assert Unfinished(states[n].tasks, i) && Unfinished(states[n + 1].tasks, i);
      StepBringsNearer(states[n], events[n], i);
    }
  }

  /** Over every run of ticks, exits and creations, a task that stays unfinished is chosen
      within MAX_TASKS selections. */
  lemma Fair(states: seq<State>, events: seq<Event>, i: nat)
    requires IsRun(states, events) && Stays(states, i) && Selections(events) >= MAX_TASKS
    ensures exists k :: 0 <= k < |events| && ChosenAt(states, events, k, i)
  {
    if forall k :: 0 <= k < |events| ==> !ChosenAt(states, events, k, i) {
      WaitShrinks(states, events, i);
    }
  }

  // ---------------------------------------------------------------- the life of a task

  /** A tick changes the task it selects only if that never ran, which then is running and started;
      an exit finishes the task that called it; a creation appends a ready, unstarted task while
      there are fewer than eight.  No event changes anything else. */
  lemma EventChanges(s: State, e: Event)
    requires Possible(s, e)
    ensures var r := Next(s, e);
            match e
            case Tick =>
              && IsNext(s.tasks, s.current, r.current)
              && r.tasks == if s.tasks[r.current].started then s.tasks
                            else s.tasks[r.current := Task(Running, true)]
            case Exit =>
              && r.tasks == s.tasks[s.current := Task(Finished, s.tasks[s.current].started)]
              && IsNext(r.tasks, s.current, r.current)
            case Create =>
              && r.current == s.current
              && r.tasks == s.tasks + (if |s.tasks| < 8 then [Task(Ready, false)] else [])
  {
  }

  /** The task a tick selects has been started, always; the one an exit selects exactly if it had been
      before: `task_exit` switches to a task that never ran without preparing its stack. */
  lemma SelectedIsStarted(s: State, e: Event)
    requires Possible(s, e) && Selects(e)
    ensures var r := Next(s, e);
            && r.current < |s.tasks| == |r.tasks| && !r.tasks[r.current].status.Finished?
            && (r.tasks[r.current].started <==> e.Tick? || s.tasks[r.current].started)
  {
  }

  /** An exit that selects a task which never ran. */
  lemma ExitSelectsUnstarted(s: State)
    requires s == State([Task(Running, true), Task(Ready, false)], 0)
    ensures Possible(s, Exit) && Next(s, Exit) == State([Task(Finished, true), Task(Ready, false)], 1)
  {
    assert Unfinished(Retired(s), 1);
    assert IsNext(Retired(s), 0, 1);
    NextUnique(Retired(s), 0, 1, Next(s, Exit).current);
  }

  /** Ready and never started, running and started, or finished. */
  predicate Lived(t: Task) {
    match t.status
    case Ready => !t.started
    case Running => t.started
    case Sleeping => false
    case Finished => true
  }

  /** Over every run from an empty table each task is in one of the three. */
  lemma {:induction false} RunKeepsLived(states: seq<State>, events: seq<Event>, k: nat, i: nat)
    requires IsRun(states, events) && states[0].tasks == [] && k < |states| && i < |states[k].tasks|
    ensures Lived(states[k].tasks[i])
    decreases k
  {
    if k > 0 {
      assert Follows(states, events, k - 1);
      EventChanges(states[k - 1], events[k - 1]);
      if i < |states[k - 1].tasks| {
        RunKeepsLived(states, events, k - 1, i);
      }
    }
  }

  /** Tasks never leave the table and a finished one stays finished. */
  lemma {:induction false} FinishedForGood(states: seq<State>, events: seq<Event>, k: nat, m: nat, i: nat)
    requires IsRun(states, events) && k <= m < |states| && i < |states[k].tasks|
    ensures i < |states[m].tasks|
    ensures states[k].tasks[i].status.Finished? ==> states[m].tasks[i].status.Finished?
    decreases m
  {
    if k < m {
      FinishedForGood(states, events, k, m - 1, i);
      assert Follows(states, events, m - 1);
      EventChanges(states[m - 1], events[m - 1]);
    }
  }
}
