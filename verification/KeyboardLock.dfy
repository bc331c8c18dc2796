/** The keyboard ring guarded by an interrupt-saving spinlock, as a step system: any number of
    CPUs and execution contexts (tasks and interrupt handlers), one machine action at a time. */
module KeyboardLock {

  const SIZE: nat := 256

  datatype Kind = Push(ch: char) | Pop

  /** Where a context is inside `input_queue_push` or `input_queue_pop`. */
  datatype Pc =
    | Outside
    | ReadFlags    // pushf; pop
    | Disable      // cli
    | Acquire      // the test-and-set loop
    | Look         // compute the next tail and compare, or compare head and tail
    | Touch        // store the character, or fetch it
    | Advance      // store the new tail, or the new head
    | Release      // clear the lock
    | Restore      // push; popf

  /** `enabled` is the context's interrupt flag: the CPU's while it runs, the saved one while it
      does not.  `entry` remembers the flag at the call.  `ch` is what a pop returns and `ok` what a
      push returns. */
  datatype Context = Context(
    pc: Pc, kind: Kind, enabled: bool, entry: bool, flags: bool, next: nat, ch: char, ok: bool)

  /** `accepted` and `popped` record the characters stored in and taken from the ring. */
  datatype State = State(
    lock: bool, head: nat, tail: nat, ring: seq<char>,
    contexts: seq<Context>, running: seq<nat>,
    accepted: seq<char>, popped: seq<char>)

  datatype Action =
    | Switch(cpu: nat, to: nat)        // an interrupt, a return from one, or a task switch
    | SetInterrupts(cpu: nat, on: bool) // code outside the queue functions
    | Call(cpu: nat, kind: Kind)
    | Go(cpu: nat)                      // the next instruction of the queue function

  predicate Proper(s: State) {
    && |s.ring| == SIZE && s.head < SIZE && s.tail < SIZE
    && (forall c :: 0 <= c < |s.running| ==> s.running[c] < |s.contexts|)
    && (forall c, d :: 0 <= c < d < |s.running| ==> s.running[c] != s.running[d])
  }

  // ---------------------------------------------------------------- actions

  /** A context may be left only while interrupts are on or while it is outside the queue
      functions, and a CPU may continue only a context that no CPU is running. */
  predicate Enabled(s: State, a: Action) {
    && Proper(s) && a.cpu < |s.running|
    && var me := s.contexts[s.running[a.cpu]];
       match a
       case Switch(_, to) => to < |s.contexts| && to !in s.running && (me.enabled || me.pc == Outside)
       case SetInterrupts(_, _) => me.pc == Outside
       case Call(_, _) => me.pc == Outside
       case Go(_) => me.pc != Outside
  }

  function With(s: State, i: nat, c: Context): State
    requires i < |s.contexts|
  {
    s.(contexts := s.contexts[i := c])
  }

  function Apply(s: State, a: Action): State
    requires Enabled(s, a)
  {
    var i := s.running[a.cpu];
    var me := s.contexts[i];
    match a
    case Switch(cpu, to) => s.(running := s.running[cpu := to])
    case SetInterrupts(_, on) => With(s, i, me.(enabled := on))
    case Call(_, kind) => With(s, i, me.(pc := ReadFlags, kind := kind, entry := me.enabled))
    case Go(_) => Execute(s, i)
  }

  function Execute(s: State, i: nat): State
    requires Proper(s) && i < |s.contexts| && s.contexts[i].pc != Outside
  {
    var me := s.contexts[i];
    match me.pc
    case ReadFlags => With(s, i, me.(flags := me.enabled, pc := Disable))
    case Disable => With(s, i, me.(enabled := false, pc := Acquire))
    case Acquire => if s.lock then s else With(s, i, me.(pc := Look)).(lock := true)
    case Look =>
      if me.kind.Pop? then
        With(s, i, if s.head == s.tail then me.(ch := '\0', pc := Release) else me.(pc := Touch))
      else
        var next := (s.tail + 1) % SIZE;
        With(s, i, if next == s.head then me.(ok := false, pc := Release) else me.(next := next, pc := Touch))
    case Touch =>
      if me.kind.Pop? then With(s, i, me.(ch := s.ring[s.head], pc := Advance))
      else With(s, i, me.(pc := Advance)).(ring := s.ring[s.tail := me.kind.ch])
    case Advance =>
      if me.kind.Pop? then
        With(s, i, me.(pc := Release)).(head := (s.head + 1) % SIZE, popped := s.popped + [me.ch])
      else
        With(s, i, me.(ok := true, pc := Release)).(tail := me.next, accepted := s.accepted + [me.kind.ch])
    case Release => With(s, i, me.(pc := Restore)).(lock := false)
    case Restore => With(s, i, me.(enabled := me.flags, pc := Outside))
  }

  // ---------------------------------------------------------------- the invariant

  predicate Holds(c: Context) {
    c.pc in {Look, Touch, Advance, Release}
  }

  /** Between `cli` and the restoring `popf`. */
  predicate Shielded(c: Context) {
    Holds(c) || c.pc == Acquire || c.pc == Restore
  }

  /** Position `i` places after `head` around the ring. */
  function Around(head: nat, i: nat): (k: nat)
    requires head < SIZE && i < SIZE
    ensures k < SIZE
  {
    if head + i < SIZE then head + i else head + i - SIZE
  }

  function Length(head: nat, tail: nat): (n: nat)
    requires head < SIZE && tail < SIZE
    ensures n < SIZE
  {
    if head <= tail then tail - head else tail - head + SIZE
  }

  /** The queued characters, oldest first. */
  function Queued(ring: seq<char>, head: nat, tail: nat): seq<char>
    requires |ring| == SIZE && head < SIZE && tail < SIZE
  {
    seq(Length(head, tail), i requires 0 <= i < SIZE => ring[Around(head, i)])
  }

  predicate FlagsKept(c: Context) {
    match c.pc
    case Outside => true
    case ReadFlags => c.enabled == c.entry
    case Disable => c.enabled == c.entry == c.flags
    case _ => c.flags == c.entry && !c.enabled
  }

  /** What the holder of the lock knows of the ring at each point. */
  predicate Midway(s: State, c: Context)
    requires Proper(s)
  {
    match c.pc
    case Touch =>
      if c.kind.Pop? then s.head != s.tail else c.next == (s.tail + 1) % SIZE && c.next != s.head
    case Advance =>
      if c.kind.Pop? then s.head != s.tail && c.ch == s.ring[s.head]
      else c.next == (s.tail + 1) % SIZE && c.next != s.head && s.ring[s.tail] == c.kind.ch
    case _ => true
  }

  ghost predicate Inv(s: State) {
    && Proper(s)
    && (forall i :: 0 <= i < |s.contexts| ==> FlagsKept(s.contexts[i]) && Midway(s, s.contexts[i]))
    && (forall i :: 0 <= i < |s.contexts| && Shielded(s.contexts[i]) ==> i in s.running)
    && (forall i :: 0 <= i < |s.contexts| && Holds(s.contexts[i]) ==> s.lock)
    && (s.lock ==> exists i :: 0 <= i < |s.contexts| && Holds(s.contexts[i]))
    && (forall i, j :: 0 <= i < j < |s.contexts| ==> !(Holds(s.contexts[i]) && Holds(s.contexts[j])))
    && s.accepted == s.popped + Queued(s.ring, s.head, s.tail)
  }

  /** Nobody has called anything yet; the rest of the state is arbitrary. */
  predicate Init(s: State) {
    && Proper(s) && !s.lock && s.head == s.tail && s.accepted == [] && s.popped == []
    && forall i :: 0 <= i < |s.contexts| ==> s.contexts[i].pc == Outside
  }

  lemma InitHolds(s: State)
    requires Init(s)
    ensures Inv(s)
  {
  }

  // ---------------------------------------------------------------- the ring

  lemma PushQueued(ring: seq<char>, head: nat, tail: nat, ch: char)
    requires |ring| == SIZE && head < SIZE && tail < SIZE && (tail + 1) % SIZE != head
    ensures Queued(ring[tail := ch], head, tail) == Queued(ring, head, tail)
    ensures Queued(ring[tail := ch], head, (tail + 1) % SIZE) == Queued(ring, head, tail) + [ch]
  {
    var n, ring' := Length(head, tail), ring[tail := ch];
    assert Length(head, (tail + 1) % SIZE) == n + 1 && Around(head, n) == tail;
    forall i | 0 <= i < n
      ensures ring'[Around(head, i)] == ring[Around(head, i)]
    {
      assert Around(head, i) != tail;
    }
  }

  lemma PopQueued(ring: seq<char>, head: nat, tail: nat)
    requires |ring| == SIZE && head < SIZE && tail < SIZE && head != tail
    ensures Queued(ring, head, tail) == [ring[head]] + Queued(ring, (head + 1) % SIZE, tail)
  {
    var n, head' := Length(head, tail), (head + 1) % SIZE;
    assert Length(head', tail) == n - 1 && Around(head, 0) == head;
    forall i | 0 <= i < n - 1
      ensures ring[Around(head', i)] == ring[Around(head, i + 1)]
    {
      assert Around(head', i) == Around(head, i + 1);
    }
  }

  // ---------------------------------------------------------------- every step keeps it

  lemma SwitchKeeps(s: State, a: Action)
    requires Inv(s) && Enabled(s, a) && a.Switch?
    ensures Inv(Apply(s, a))
  {
    var s' := Apply(s, a);
    forall i | 0 <= i < |s.contexts| && Shielded(s.contexts[i])
      ensures i in s'.running
    {
      assert FlagsKept(s.contexts[i]) && i != s.running[a.cpu];
      var c :| 0 <= c < |s.running| && s.running[c] == i;
      assert s'.running[c] == i;
    }
  }

  /** Changing one context, the lock and the ring around it: what has to be shown. */
  lemma OneContextKeeps(s: State, i: nat, s': State)
    requires Inv(s) && i < |s.contexts| && i in s.running && Proper(s')
    requires s'.running == s.running && |s'.contexts| == |s.contexts|
    requires s'.contexts == s.contexts[i := s'.contexts[i]]
    requires FlagsKept(s'.contexts[i]) && Midway(s', s'.contexts[i])
    requires Holds(s'.contexts[i]) ==> s'.lock
    requires Holds(s.contexts[i]) && !Holds(s'.contexts[i]) ==> !s'.lock
    requires !Holds(s.contexts[i]) && !Holds(s'.contexts[i]) ==> s'.lock == s.lock
    requires Holds(s'.contexts[i]) ==> Holds(s.contexts[i]) || !s.lock
    requires (s'.ring == s.ring && s'.head == s.head && s'.tail == s.tail) || Holds(s.contexts[i])
    requires s'.accepted == s'.popped + Queued(s'.ring, s'.head, s'.tail)
    ensures Inv(s')
  {
    forall j | 0 <= j < |s.contexts| && j != i
      ensures s'.contexts[j] == s.contexts[j] && Midway(s', s'.contexts[j]) && FlagsKept(s'.contexts[j])
      ensures Holds(s.contexts[j]) ==> s'.lock && !Holds(s'.contexts[i])
    {
      assert FlagsKept(s.contexts[j]) && Midway(s, s.contexts[j]);
      assert !(Holds(s.contexts[if i < j then i else j]) && Holds(s.contexts[if i < j then j else i]));
    }
    if s'.lock && !Holds(s'.contexts[i]) {
      var j :| 0 <= j < |s.contexts| && Holds(s.contexts[j]);
      assert Holds(s'.contexts[j]);
    }
  }

  lemma PushStepKeeps(s: State, i: nat)
    requires Inv(s) && i < |s.contexts| && i in s.running
    requires s.contexts[i].pc in {Touch, Advance} && s.contexts[i].kind.Push?
    ensures Inv(Execute(s, i))
  {
    var me, s' := s.contexts[i], Execute(s, i);
    assert FlagsKept(me) && Midway(s, me);
    PushQueued(s.ring, s.head, s.tail, me.kind.ch);
    assert me.pc == Advance ==> s.ring[s.tail := me.kind.ch] == s.ring;
    OneContextKeeps(s, i, s');
  }

  lemma PopStepKeeps(s: State, i: nat)
    requires Inv(s) && i < |s.contexts| && i in s.running
    requires s.contexts[i].pc in {Touch, Advance} && s.contexts[i].kind.Pop?
    ensures Inv(Execute(s, i))
  {
    var me, s' := s.contexts[i], Execute(s, i);
    assert FlagsKept(me) && Midway(s, me);
    PopQueued(s.ring, s.head, s.tail);
    OneContextKeeps(s, i, s');
  }

  lemma ExecuteKeeps(s: State, i: nat)
    requires Inv(s) && i < |s.contexts| && i in s.running && s.contexts[i].pc != Outside
    ensures Inv(Execute(s, i))
  {
    var me := s.contexts[i];
    assert FlagsKept(me) && Midway(s, me);
    if me.pc in {Touch, Advance} {
      if me.kind.Push? {
        PushStepKeeps(s, i);
      } else {
        PopStepKeeps(s, i);
      }
    } else if me.pc != Acquire || !s.lock {
      OneContextKeeps(s, i, Execute(s, i));
    }
  }

  lemma StepKeeps(s: State, a: Action)
    requires Inv(s) && Enabled(s, a)
    ensures Inv(Apply(s, a))
  {
    var i := s.running[a.cpu];
    match a
    case Switch(_, _) => SwitchKeeps(s, a);
    case SetInterrupts(_, _) => OneContextKeeps(s, i, Apply(s, a));
    case Call(_, _) => OneContextKeeps(s, i, Apply(s, a));
    case Go(_) => ExecuteKeeps(s, i);
  }

  // ---------------------------------------------------------------- every run

  /** `run` starts in an initial state and each state follows by an enabled action. */
  ghost predicate IsRun(states: seq<State>, actions: seq<Action>) {
    && |states| == |actions| + 1 && Init(states[0])
    && forall k :: 0 <= k < |actions| ==> Follows(states, actions, k)
  }

  ghost predicate Follows(states: seq<State>, actions: seq<Action>, k: nat)
    requires k < |actions| && |states| == |actions| + 1
  {
    Enabled(states[k], actions[k]) && states[k + 1] == Apply(states[k], actions[k])
  }

  lemma {:induction false} RunKeeps(states: seq<State>, actions: seq<Action>, k: nat)
    requires IsRun(states, actions) && k < |states|
    ensures Inv(states[k])
    decreases k
  {
    if k == 0 {
      InitHolds(states[0]);
    } else {
      RunKeeps(states, actions, k - 1);
      assert Follows(states, actions, k - 1);
      StepKeeps(states[k - 1], actions[k - 1]);
    }
  }

  /** In every state of every run at most one context holds the lock; the holder has interrupts
      off and is being run by a CPU. */
  lemma MutualExclusion(states: seq<State>, actions: seq<Action>, k: nat, i: nat, j: nat)
    requires IsRun(states, actions) && k < |states| && i < |states[k].contexts| && j < |states[k].contexts|
    requires Holds(states[k].contexts[i])
    ensures !states[k].contexts[i].enabled && i in states[k].running && states[k].lock
    ensures Holds(states[k].contexts[j]) ==> i == j
  {
    RunKeeps(states, actions, k);
    var s := states[k];
    assert FlagsKept(s.contexts[i]);
    if i != j {
      assert !(Holds(s.contexts[if i < j then i else j]) && Holds(s.contexts[if i < j then j else i]));
    }
  }

  /** A context that finds the lock taken never waits for one it interrupted: some other CPU
      is running the holder at that very moment. */
  lemma NeverSpinsOnInterrupted(states: seq<State>, actions: seq<Action>, k: nat, cpu: nat)
    requires IsRun(states, actions) && k < |states| && cpu < |states[k].running|
    requires states[k].running[cpu] < |states[k].contexts|
    requires states[k].contexts[states[k].running[cpu]].pc == Acquire && states[k].lock
    ensures exists other :: 0 <= other < |states[k].running| && other != cpu
              && states[k].running[other] < |states[k].contexts|
              && Holds(states[k].contexts[states[k].running[other]])
  {
    RunKeeps(states, actions, k);
    var holder :| 0 <= holder < |states[k].contexts| && Holds(states[k].contexts[holder]);
    assert Shielded(states[k].contexts[holder]);
    var other :| 0 <= other < |states[k].running| && states[k].running[other] == holder;
  }

  /** Finishing a queue operation puts the interrupt flag back to what it was at the call. */
  lemma FlagRestored(states: seq<State>, actions: seq<Action>, k: nat)
    requires IsRun(states, actions) && k < |actions| && actions[k].Go? && Enabled(states[k], actions[k])
    requires states[k].contexts[states[k].running[actions[k].cpu]].pc == Restore
    ensures var i := states[k].running[actions[k].cpu];
            && i < |states[k + 1].contexts| && states[k + 1].contexts[i].pc == Outside
            && states[k + 1].contexts[i].enabled == states[k].contexts[i].entry
  {
    RunKeeps(states, actions, k);
    assert Follows(states, actions, k);
    assert FlagsKept(states[k].contexts[states[k].running[actions[k].cpu]]);
  }

  /** In every state of every run what has been popped is a prefix of what has been accepted,
      and the at most 255 characters between are exactly those in the ring, in order. */
  lemma FirstInFirstOut(states: seq<State>, actions: seq<Action>, k: nat)
    requires IsRun(states, actions) && k < |states|
    ensures Proper(states[k])
    ensures states[k].popped <= states[k].accepted
    ensures states[k].accepted[|states[k].popped|..]
         == Queued(states[k].ring, states[k].head, states[k].tail)
    ensures |states[k].accepted| - |states[k].popped| <= SIZE - 1
  {
    RunKeeps(states, actions, k);
  }

  /** Instructions the holder still has to execute inside the critical section. */
  function Remaining(c: Context): nat
    requires Holds(c)
  {
    match c.pc
    case Look => 4
    case Touch => 3
    case Advance => 2
    case _ => 1
  }

  /** The holder is never held up: no action of others changes it, it can always take its next
      instruction, and each one brings the release nearer, the last one freeing the lock. */
  lemma HolderAdvances(s: State, a: Action, i: nat)
    requires Inv(s) && Enabled(s, a) && i < |s.contexts| && Holds(s.contexts[i])
    ensures exists cpu :: 0 <= cpu < |s.running| && s.running[cpu] == i && Enabled(s, Go(cpu))
    ensures s.running[a.cpu] != i ==> Apply(s, a).contexts[i] == s.contexts[i] && i in Apply(s, a).running
    ensures s.running[a.cpu] == i ==> a.Go?
    ensures s.running[a.cpu] == i ==>
              if Remaining(s.contexts[i]) == 1 then !Apply(s, a).lock
              else Holds(Apply(s, a).contexts[i]) && Remaining(Apply(s, a).contexts[i]) < Remaining(s.contexts[i])
  {
    assert FlagsKept(s.contexts[i]) && Shielded(s.contexts[i]);
    var cpu :| 0 <= cpu < |s.running| && s.running[cpu] == i;
    assert Enabled(s, Go(cpu));
    if a.Switch? && s.running[a.cpu] != i {
      assert Apply(s, a).running[cpu] == i;
    }
  }

  // ---------------------------------------------------------------- what a call does

  function Queue(s: State): seq<char>
    requires Proper(s)
  {
    Queued(s.ring, s.head, s.tail)
  }

  /** What one call, that of context `c`, makes of a queue found as in `before`: a pop takes and
      returns the oldest character, or returns the null character; a push adds its character and
      returns true exactly when fewer than 255 are queued. */
  ghost predicate Effect(before: State, after: State, c: Context)
    requires Proper(before)
  {
    var q := Queue(before);
    if c.kind.Pop? then
      && after.accepted == before.accepted
      && after.popped == before.popped + q[..if q == [] then 0 else 1]
      && c.ch == if q == [] then '\0' else q[0]
    else
      && after.popped == before.popped
      && after.accepted == before.accepted + (if |q| < 255 then [c.kind.ch] else [])
      && (c.ok <==> |q| < 255)
  }

  /** How far the holder `i` has come with a queue it found as in `before`. */
  ghost predicate Doing(before: State, s: State, i: nat)
    requires Proper(before) && i < |s.contexts|
  {
    if s.contexts[i].pc == Release then Effect(before, s, s.contexts[i])
    else s.accepted == before.accepted && s.popped == before.popped
  }

  lemma SameQueue(a: State, b: State)
    requires Inv(a) && Inv(b) && a.accepted == b.accepted && a.popped == b.popped
    ensures Queue(a) == Queue(b)
  {
    assert Queue(a) == a.accepted[|a.popped|..];
    assert Queue(b) == b.accepted[|b.popped|..];
  }

  /** The two comparisons of the code, and what they mean. */
  lemma Comparisons(s: State)
    requires Proper(s)
    ensures s.head == s.tail <==> Queue(s) == []
    ensures (s.tail + 1) % SIZE == s.head <==> |Queue(s)| >= 255
    ensures s.head != s.tail ==> Queue(s)[0] == s.ring[s.head]
  {
  }

  /** The holder's own step. */
  lemma HolderStep(before: State, s: State, i: nat)
    requires Inv(before) && Inv(s) && i < |s.contexts| && Holds(s.contexts[i]) && Doing(before, s, i)
    requires s.contexts[i].pc != Release
    ensures Doing(before, Execute(s, i), i) && Holds(Execute(s, i).contexts[i])
    ensures Execute(s, i).contexts[i].kind == s.contexts[i].kind
  {
    SameQueue(before, s);
    Comparisons(s);
    assert Midway(s, s.contexts[i]);
  }

  /** Nobody else touches the queue meanwhile. */
  lemma OtherStep(s: State, a: Action, i: nat)
    requires Inv(s) && Enabled(s, a) && i < |s.contexts| && s.running[a.cpu] != i && Holds(s.contexts[i])
    ensures var s' := Apply(s, a);
            && |s'.contexts| == |s.contexts| && s'.contexts[i] == s.contexts[i]
            && s'.accepted == s.accepted && s'.popped == s.popped
  {
    var j := s.running[a.cpu];
    assert !(Holds(s.contexts[if i < j then i else j]) && Holds(s.contexts[if i < j then j else i]));
  }

  lemma DoingStep(before: State, s: State, a: Action, i: nat)
    requires Inv(before) && Inv(s) && Enabled(s, a) && i < |s.contexts| && Holds(s.contexts[i]) && Doing(before, s, i)
    ensures var c, s' := s.contexts[i], Apply(s, a);
            && |s'.contexts| == |s.contexts| && s'.contexts[i].kind == c.kind
            && if Holds(s'.contexts[i]) then Doing(before, s', i)
               else c.pc == Release && s'.contexts[i] == c.(pc := Restore)
  {
    if s.running[a.cpu] != i {
      OtherStep(s, a, i);
    } else {
      assert FlagsKept(s.contexts[i]);
      if s.contexts[i].pc != Release {
        HolderStep(before, s, i);
      }
    }
  }

  /** Outside the critical section a context in a call goes on step by step, whoever acts. */
  lemma OutsideStep(s: State, a: Action, i: nat)
    requires Inv(s) && Enabled(s, a) && i < |s.contexts|
    requires s.contexts[i].pc != Outside && !Holds(s.contexts[i])
    ensures |Apply(s, a).contexts| == |s.contexts|
    ensures var c, c' := s.contexts[i], Apply(s, a).contexts[i];
            && c'.kind == c.kind
            && if c.pc == Restore then c'.pc in {Restore, Outside} && c'.ch == c.ch && c'.ok == c.ok
               else c'.pc in {ReadFlags, Disable, Acquire} || (c'.pc == Look && c.pc == Acquire && !s.lock)
    ensures Holds(Apply(s, a).contexts[i]) ==> Apply(s, a).accepted == s.accepted && Apply(s, a).popped == s.popped
  {
  }

  /** Context `i` is called with `kind` at step `k` and is in that call up to state `n`. */
  ghost predicate InCall(states: seq<State>, actions: seq<Action>, i: nat, kind: Kind, k: nat, n: nat) {
    && IsRun(states, actions) && k < n < |states| && Enabled(states[k], actions[k])
    && actions[k].Call? && actions[k].kind == kind && states[k].running[actions[k].cpu] == i
    && forall x :: k < x < n ==> i < |states[x].contexts| && states[x].contexts[i].pc != Outside
  }

  /** In state `n` the call still waits for the lock. */
  ghost predicate Waiting(states: seq<State>, i: nat, n: nat)
    requires n < |states|
  {
    i < |states[n].contexts| && states[n].contexts[i].pc in {ReadFlags, Disable, Acquire}
  }

  ghost predicate Holding(states: seq<State>, i: nat, n: nat)
    requires n < |states|
  {
    i < |states[n].contexts| && Holds(states[n].contexts[i])
  }

  /** The call of step `k` takes the lock in state `j` and holds it from then on up to state `n`. */
  ghost predicate Entered(states: seq<State>, i: nat, k: nat, j: nat, n: nat)
    requires n < |states|
  {
    && k < j < n && Proper(states[j]) && !states[j].lock
    && (forall x :: k < x <= j ==> Waiting(states, i, x))
    && (forall x :: j < x <= n ==> Holding(states, i, x))
  }

  /** The call found the queue as in state `j`, had done its work on it in state `r`, and then only
      restored the flag, up to state `n`. */
  ghost predicate Left(states: seq<State>, i: nat, k: nat, j: nat, r: nat, n: nat, c: Context)
    requires n < |states|
  {
    && r < n && Entered(states, i, k, j, r) && Effect(states[j], states[r], c)
    && Holding(states, i, r) && states[r].contexts[i].pc == Release
    && forall x :: r < x < n ==> i < |states[x].contexts| && states[x].contexts[i].pc == Restore
  }

  /** Where a call is in state `n`: before, in or behind its critical section. */
  ghost predicate Stage(states: seq<State>, i: nat, kind: Kind, k: nat, j: nat, r: nat, n: nat)
    requires n < |states|
  {
    && i < |states[n].contexts| && states[n].contexts[i].kind == kind
    && var c := states[n].contexts[i];
       if Holds(c) then Entered(states, i, k, j, n) && Doing(states[j], states[n], i)
       else if c.pc == Restore || c.pc == Outside then Left(states, i, k, j, r, n, c)
       else forall x :: k < x <= n ==> Waiting(states, i, x)
  }

  /** The state after the call instruction. */
  lemma CallStarts(s: State, a: Action, i: nat)
    requires Enabled(s, a) && a.Call? && s.running[a.cpu] == i
    ensures |Apply(s, a).contexts| == |s.contexts| && i < |s.contexts|
    ensures Apply(s, a).contexts[i].kind == a.kind && Apply(s, a).contexts[i].pc == ReadFlags
  {
  }

  lemma FirstStage(states: seq<State>, actions: seq<Action>, i: nat, kind: Kind, k: nat)
    requires InCall(states, actions, i, kind, k, k + 1)
    ensures Stage(states, i, kind, k, 0, 0, k + 1)
  {
    assert Follows(states, actions, k);
    CallStarts(states[k], actions[k], i);
  }

  lemma {:induction false} CallProgress(states: seq<State>, actions: seq<Action>, i: nat, kind: Kind, k: nat, n: nat)
      returns (j: nat, r: nat)
    requires InCall(states, actions, i, kind, k, n)
    ensures Stage(states, i, kind, k, j, r, n)
    decreases n
  {
    if n == k + 1 {
      j, r := 0, 0;
      FirstStage(states, actions, i, kind, k);
    } else {
      j, r := CallProgress(states, actions, i, kind, k, n - 1);
      assert states[n - 1].contexts[i].pc != Outside;
      j, r := StageStep(states, actions, i, kind, k, j, r, n - 1);
    }
  }

  lemma StageStep(states: seq<State>, actions: seq<Action>, i: nat, kind: Kind, k: nat, j0: nat, r0: nat, n: nat)
      returns (j: nat, r: nat)
    requires IsRun(states, actions) && k < n < |actions| && Stage(states, i, kind, k, j0, r0, n)
    requires states[n].contexts[i].pc != Outside
    ensures Stage(states, i, kind, k, j, r, n + 1)
  {
    RunKeeps(states, actions, n);
    assert Follows(states, actions, n);
    j, r := j0, r0;
    if Holds(states[n].contexts[i]) {
      HoldingStage(states, actions, i, kind, k, j, n);
      r := n;
    } else {
      OutsideStep(states[n], actions[n], i);
      if states[n].contexts[i].pc != Restore && Holds(states[n + 1].contexts[i]) {
        j := n;
      }
    }
  }

  lemma HoldingStage(states: seq<State>, actions: seq<Action>, i: nat, kind: Kind, k: nat, j: nat, n: nat)
    requires IsRun(states, actions) && k < n < |actions| && Stage(states, i, kind, k, j, 0, n)
    requires Inv(states[n]) && Follows(states, actions, n) && Holds(states[n].contexts[i])
    ensures Stage(states, i, kind, k, j, n, n + 1)
  {
    RunKeeps(states, actions, j);
    DoingStep(states[j], states[n], actions[n], i);
  }

  /** Every call that returns has acted on the queue at once and exactly once: from the moment it
      took the lock to the moment it gave it back nobody else touched the queue, and in between it
      did to it, and returned, what a call on the queue found there does. */
  lemma CallIsAtomic(states: seq<State>, actions: seq<Action>, i: nat, kind: Kind, k: nat, m: nat)
      returns (j: nat, r: nat)
    requires InCall(states, actions, i, kind, k, m)
    requires i < |states[m].contexts| && states[m].contexts[i].pc == Outside
    ensures states[m].contexts[i].kind == kind
    ensures Left(states, i, k, j, r, m, states[m].contexts[i])
  {
    j, r := CallProgress(states, actions, i, kind, k, m);
  }
}
