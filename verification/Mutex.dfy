/** The mutex over its spinlock and wait queue, one action per access, any number of threads
    in any interleaving. */
module Mutex {
  import opened Common

  /** Where a thread is inside mutex_lock and mutex_unlock. */
  datatype Pc =
    | Out           // in neither call
    | LockEntry     // waiting for the spinlock in mutex_lock
    | LockLoop      // at the head of the retry loop, holding the spinlock
    | Queued        // its block is queued and its status is "wait", still holding the spinlock
    | Asleep        // scheduled out, or waiting for the spinlock after being made runnable
    | Finish        // in finish_wait, holding the spinlock
    | UnlockEntry   // waiting for the spinlock in mutex_unlock
    | UnlockIn      // holding the spinlock in mutex_unlock
    | UnlockWake    // in the loop of sync_wake, holding the spinlock

  /** `held` counts the lock calls that returned and are not yet undone. */
  datatype Thread = Thread(pc: Pc, runnable: bool, events: bool, held: nat)

  /** Threads are numbered; -1 stands for no thread.  `failed` says that an assertion of mutex_unlock has failed,
      which stops everything.  `interruptible` is the kind of wait of the sync
      object: mutex_init asks for one that events do not end. */
  datatype State = State(recursive: bool, interruptible: bool, thr: seq<Thread>,
                         counter: int, owner: int, queue: seq<nat>, spin: int, failed: bool)

  datatype Action =
    | CallLock(t: nat)
    | CallUnlock(t: nat)
    | Run(t: nat)          // the thread takes its next step
    | Masked(t: nat)       // an event that the thread masks: it becomes pending and ends no wait
    | Event(t: nat)        // another event but KILL: it becomes pending and ends an interruptible wait
    | Kill(t: nat)         // KILL ends an interruptible wait, but its pending bit is never set
    | Deliver(t: nat)      // the thread handles its events outside the mutex calls
    | Taken(t: nat)        // another thread of the process takes the event that was pending for this one

  predicate Holds(pc: Pc) {
    pc.LockLoop? || pc.Queued? || pc.Finish? || pc.UnlockIn? || pc.UnlockWake?
  }

  function Init(recursive: bool, interruptible: bool, n: nat): State {
    State(recursive, interruptible, seq(n, _ => Thread(Out, true, false, 0)), 0, -1, [], -1, false)
  }

  predicate Enabled(s: State, a: Action) {
    !s.failed && a.t < |s.thr| &&
    var me := s.thr[a.t];
    match a
    case CallLock(_) => me.pc.Out?
    case CallUnlock(_) => me.pc.Out?
    case Masked(_) => true
    case Event(_) => true
    case Kill(_) => true
    case Taken(_) => true
    case Deliver(_) => me.pc.Out?
    case Run(_) =>
      match me.pc
      case Out => false
      case LockEntry => s.spin == -1
      case UnlockEntry => s.spin == -1
      case Asleep => me.runnable && s.spin == -1
      case _ => true
  }

  function Set(s: State, t: nat, me: Thread): State
    requires t < |s.thr|
  {
    s.(thr := s.thr[t := me])
  }

  function Apply(s: State, a: Action): State
    requires Enabled(s, a)
  {
    var me := s.thr[a.t];
    match a
    case CallLock(t) => Set(s, t, me.(pc := LockEntry))
    case CallUnlock(t) => Set(s, t, me.(pc := UnlockEntry))
    case Masked(t) => Set(s, t, me.(events := true))
    case Event(t) => Set(s, t, me.(events := true, runnable := me.runnable || s.interruptible))
    case Kill(t) => Set(s, t, me.(runnable := me.runnable || s.interruptible))
    case Taken(t) => Set(s, t, me.(events := false))
    case Deliver(t) => Set(s, t, me.(events := false))
    case Run(t) => Step(s, t)
  }

  /** The thread's own next step. */
  function Step(s: State, t: nat): State
    requires Enabled(s, Run(t))
  {
    var me := s.thr[t];
    match me.pc
    case LockEntry => Set(s, t, me.(pc := LockLoop)).(spin := t)
    case LockLoop =>
      if s.counter == 0 then
        Set(s, t, me.(pc := Out, held := me.held + 1)).(counter := 1, owner := t, spin := -1)
      else if s.owner == t && s.recursive then
        Set(s, t, me.(pc := Out, held := me.held + 1)).(counter := s.counter + 1, spin := -1)
      else
        Set(s, t, me.(pc := Queued, runnable := false)).(queue := s.queue + [t])
    case Queued =>
      if !me.runnable then Set(s, t, me.(pc := Asleep)).(spin := -1) else Set(s, t, me.(pc := Finish))
    case Asleep => Set(s, t, me.(pc := Finish)).(spin := t)
    case Finish =>
      var s' := Set(s, t, me.(pc := LockLoop));
      if me.events && t in s.queue then s'.(queue := Remove(s.queue, t)) else s'
    case UnlockEntry => Set(s, t, me.(pc := UnlockIn)).(spin := t)
    case UnlockIn =>
      if !(s.counter > 0 && s.owner == t) then s.(failed := true) else
      var c := s.counter - 1;
      var held := if me.held > 0 then me.held - 1 else 0;
      var s' := Set(s, t, me.(pc := if c == 0 then UnlockWake else Out, held := held)).(counter := c);
      if c == 0 then s'.(owner := -1) else s'.(spin := -1)
    case UnlockWake =>
      if s.queue == [] then Set(s, t, me.(pc := Out)).(spin := -1)
      else
        var w := s.queue[0];
        if w < |s.thr| then Set(s, w, s.thr[w].(runnable := true)).(queue := s.queue[1..]) else s
  }

  /** The state after a run, if every action was enabled in its turn. */
  ghost predicate Reaches(s: State, run: seq<Action>, s': State)
    decreases |run|
  {
    if run == [] then s' == s
    else Enabled(s, run[0]) && Reaches(Apply(s, run[0]), run[1..], s')
  }

  // ---- The invariant ----

  ghost predicate SpinOk(s: State) {
    forall t :: 0 <= t < |s.thr| ==> (Holds(s.thr[t].pc) <==> s.spin == t)
  }

  /** The counter is what the owner holds, and nobody else holds anything. */
  ghost predicate OwnerOk(s: State) {
    && s.counter >= 0 && (s.counter == 0 <==> s.owner == -1) && -1 <= s.owner < |s.thr|
    && (forall t :: 0 <= t < |s.thr| ==> s.thr[t].held == if s.owner == t then s.counter else 0)
    && (!s.recursive ==> s.counter <= 1)
    && (s.failed ==> 0 <= s.spin < |s.thr| && s.thr[s.spin].pc.UnlockIn? && s.thr[s.spin].held == 0)
  }

  predicate InWait(pc: Pc) { pc.Queued? || pc.Asleep? || pc.Finish? }

  /** Every queued block belongs to a thread still inside the wait, on whose stack it lies, and is queued once. */
  ghost predicate BlocksInside(s: State) {
    NoDup(s.queue) && forall t :: t in s.queue ==> t < |s.thr| && InWait(s.thr[t].pc)
  }

  /** A thread that sleeps is queued, and a queued thread that runs has an event pending. */
  ghost predicate QueueOk(s: State) {
    && BlocksInside(s)
    && (forall t :: 0 <= t < |s.thr| && !s.thr[t].runnable ==>
          t in s.queue && (s.thr[t].pc.Queued? || s.thr[t].pc.Asleep?))
    && (forall t :: t in s.queue && t < |s.thr| && s.thr[t].runnable ==> s.interruptible && s.thr[t].events)
  }

  /** Nobody waits for a free mutex, unless its waiters are just being woken. */
  ghost predicate WaitOk(s: State) {
    && (s.counter == 0 && s.queue != [] ==> 0 <= s.spin < |s.thr| && s.thr[s.spin].pc.UnlockWake?)
    && (forall t :: 0 <= t < |s.thr| && s.thr[t].pc.UnlockWake? ==> s.counter == 0)
    && (s.recursive ==> forall t :: 0 <= t < |s.thr| && InWait(s.thr[t].pc) ==> s.owner != t)
  }

  ghost predicate Inv(s: State) {
    -1 <= s.spin < |s.thr| && SpinOk(s) && OwnerOk(s) && QueueOk(s) && WaitOk(s)
  }

  lemma InitInv(recursive: bool, interruptible: bool, n: nat)
    ensures Inv(Init(recursive, interruptible, n))
  {
  }

  lemma EntryInv(s: State, t: nat)
    requires Inv(s) && Enabled(s, Run(t)) && (s.thr[t].pc.LockEntry? || s.thr[t].pc.UnlockEntry?)
    ensures Inv(Step(s, t))
  {
  }

  lemma SleepInv(s: State, t: nat)
    requires Inv(s) && Enabled(s, Run(t)) && (s.thr[t].pc.Queued? || s.thr[t].pc.Asleep?)
    ensures Inv(Step(s, t))
  {
  }

  lemma LockInv(s: State, t: nat)
    requires Inv(s) && Enabled(s, Run(t)) && s.thr[t].pc.LockLoop?
    ensures Inv(Step(s, t))
  {
    if s.counter != 0 && !(s.owner == t && s.recursive) {
      EnqueueInv(s, t);
    }
  }

  lemma EnqueueInv(s: State, t: nat)
    requires Inv(s) && !s.failed && t < |s.thr| && s.thr[t].pc.LockLoop?
    requires s.counter != 0 && !(s.owner == t && s.recursive)
    ensures Inv(s.(thr := s.thr[t := s.thr[t].(pc := Queued, runnable := false)], queue := s.queue + [t]))
  {
    assert t !in s.queue;
    assert forall u :: u in s.queue + [t] <==> u in s.queue || u == t;
  }

  lemma FinishInv(s: State, t: nat)
    requires Inv(s) && Enabled(s, Run(t)) && s.thr[t].pc.Finish?
    ensures Inv(Step(s, t))
  {
    var me := s.thr[t].(pc := LockLoop);
    RemoveProps(s.queue, t);
    hide Remove;
    if t in s.queue {
      assert s.thr[t].events;
      FinishQueue(s, t, me, Remove(s.queue, t));
    } else {
      FinishQueue(s, t, me, s.queue);
    }
  }

  lemma FinishQueue(s: State, t: nat, me: Thread, q: seq<nat>)
    requires QueueOk(s) && t < |s.thr| && s.thr[t].runnable && me == s.thr[t].(pc := LockLoop)
    requires NoDup(q) && (forall u :: u in q <==> u in s.queue && u != t)
    ensures QueueOk(s.(thr := s.thr[t := me], queue := q))
  {
  }

  lemma UnlockInv(s: State, t: nat)
    requires Inv(s) && Enabled(s, Run(t)) && s.thr[t].pc.UnlockIn?
    ensures Inv(Step(s, t))
  {
    assert t !in s.queue && s.thr[t].runnable;
    hide QueueOk, BlocksInside;
    if s.counter > 0 && s.owner == t {
      OutsideQueue(s, t, Step(s, t).thr[t]);
      SameQueue(s.(thr := Step(s, t).thr), Step(s, t));
    } else {
      SameQueue(s, Step(s, t));
    }
  }

  /** A thread outside the queue changes. */
  lemma OutsideQueue(s: State, t: nat, me: Thread)
    requires QueueOk(s) && t < |s.thr| && t !in s.queue && me.runnable
    ensures QueueOk(s.(thr := s.thr[t := me]))
  {
  }

  lemma SameQueue(s: State, s': State)
    requires QueueOk(s) && s'.thr == s.thr && s'.queue == s.queue && s'.interruptible == s.interruptible
    ensures QueueOk(s')
  {
  }

  lemma WakeInv(s: State, t: nat)
    requires Inv(s) && Enabled(s, Run(t)) && s.thr[t].pc.UnlockWake?
    ensures Inv(Step(s, t))
  {
    if s.queue != [] {
      var w, rest := s.queue[0], s.queue[1..];
      assert w in s.queue && s.queue == [w] + rest && w !in rest;
      assert Step(s, t) == s.(thr := s.thr[w := s.thr[w].(runnable := true)], queue := rest);
      WakeQueue(s, w, rest);
    }
  }

  lemma WakeQueue(s: State, w: nat, rest: seq<nat>)
    requires QueueOk(s) && s.queue == [w] + rest && w < |s.thr| && w !in rest
    ensures QueueOk(s.(thr := s.thr[w := s.thr[w].(runnable := true)], queue := rest))
  {
    assert forall i :: 0 <= i < |rest| ==> rest[i] == s.queue[i + 1];
    assert forall u :: u in s.queue <==> u == w || u in rest;
  }

  lemma StepInv(s: State, t: nat)
    requires Inv(s) && Enabled(s, Run(t))
    ensures Inv(Step(s, t))
  {
    hide Inv, Step;
    match s.thr[t].pc
    case LockLoop => LockInv(s, t);
    case Finish => FinishInv(s, t);
    case UnlockIn => UnlockInv(s, t);
    case UnlockWake => WakeInv(s, t);
    case LockEntry => EntryInv(s, t);
    case UnlockEntry => EntryInv(s, t);
    case _ => SleepInv(s, t);
  }

  /** The action does not end a wait without leaving an event pending. */
  predicate Calm(interruptible: bool, a: Action) {
    interruptible ==> !a.Kill? && !a.Taken?
  }

  predicate CalmRun(interruptible: bool, run: seq<Action>) {
    forall i :: 0 <= i < |run| ==> Calm(interruptible, run[i])
  }

  lemma ApplyInv(s: State, a: Action)
    requires Inv(s) && Enabled(s, a) && Calm(s.interruptible, a)
    ensures Inv(Apply(s, a))
  {
    hide Inv, Step;
    if a.Run? { StepInv(s, a.t); } else { OtherInv(s, a); }
  }

  lemma OtherInv(s: State, a: Action)
    requires Inv(s) && Enabled(s, a) && Calm(s.interruptible, a) && !a.Run?
    ensures Inv(Apply(s, a))
  {
    var s' := Apply(s, a);
    if a.CallLock? || a.CallUnlock? {
      CallInv(s, a.t, s'.thr[a.t]);
    } else {
      FlagInv(s, a.t, s'.thr[a.t]);
    }
  }

  lemma CallInv(s: State, t: nat, me: Thread)
    requires Inv(s) && !s.failed && t < |s.thr| && s.thr[t].pc.Out?
    requires me == s.thr[t].(pc := LockEntry) || me == s.thr[t].(pc := UnlockEntry)
    ensures Inv(s.(thr := s.thr[t := me]))
  {
    assert t !in s.queue;
  }

  lemma FlagInv(s: State, t: nat, me: Thread)
    requires Inv(s) && !s.failed && t < |s.thr| && me.pc == s.thr[t].pc && me.held == s.thr[t].held
    requires s.thr[t].runnable ==> me.runnable
    requires t in s.queue && me.runnable ==> s.interruptible && me.events
    ensures Inv(s.(thr := s.thr[t := me]))
  {
    hide QueueOk;
    FlagQueue(s, t, me);
  }

  lemma FlagQueue(s: State, t: nat, me: Thread)
    requires QueueOk(s) && t < |s.thr| && me.pc == s.thr[t].pc && (s.thr[t].runnable ==> me.runnable)
    requires t in s.queue && me.runnable ==> s.interruptible && me.events
    ensures QueueOk(s.(thr := s.thr[t := me]))
  {
  }

  /** Every state reached without KILL, or by waits that events do not end, satisfies the invariant. */
  lemma {:induction false} RunInv(s: State, run: seq<Action>, s': State)
    requires Inv(s) && Reaches(s, run, s') && CalmRun(s.interruptible, run)
    ensures Inv(s')
    decreases |run|
  {
    if run != [] {
      assert Calm(s.interruptible, run[0]);
      ApplyInv(s, run[0]);
      RunInv(Apply(s, run[0]), run[1..], s');
    }
  }

  // ---- Blocks on the stack of a thread that has left the wait ----

  /** finish_wait leaves the block behind exactly when it is still queued and no event is pending. */
  predicate LeavesBlock(s: State, a: Action) {
    a.Run? && a.t < |s.thr| && s.thr[a.t].pc.Finish? && a.t in s.queue && !s.thr[a.t].events
  }

  lemma ApplyInside(s: State, a: Action)
    requires BlocksInside(s) && Enabled(s, a)
    ensures BlocksInside(Apply(s, a)) <==> !LeavesBlock(s, a)
  {
    var t := a.t;
    var pc := s.thr[t].pc;
    if a.Run? && pc.UnlockWake? {
      WakeInside(s, t);
    } else if a.Run? && (pc.Finish? || pc.LockLoop?) {
      TurnInside(s, t);
    } else {
      Replaced(s, t, Apply(s, a).thr[t], s.queue);
    }
  }

  lemma TurnInside(s: State, t: nat)
    requires BlocksInside(s) && !s.failed && t < |s.thr| && (s.thr[t].pc.Finish? || s.thr[t].pc.LockLoop?)
    ensures BlocksInside(Step(s, t)) <==> !LeavesBlock(s, Run(t))
  {
    hide Remove;
    RemoveProps(s.queue, t);
    if s.thr[t].pc.Finish? {
      Replaced(s, t, s.thr[t].(pc := LockLoop), Remove(s.queue, t));
      Replaced(s, t, s.thr[t].(pc := LockLoop), s.queue);
    } else {
      NoDupAppend(s.queue, t);
    }
  }

  lemma WakeInside(s: State, t: nat)
    requires BlocksInside(s) && !s.failed && t < |s.thr| && s.thr[t].pc.UnlockWake?
    ensures BlocksInside(Step(s, t))
  {
    if s.queue != [] {
      var w, rest := s.queue[0], s.queue[1..];
      assert w in s.queue && s.queue == [w] + rest;
      Replaced(s, w, s.thr[w].(runnable := true), rest);
    }
  }

  /** A thread changes and some blocks leave the queue. */
  lemma Replaced(s: State, t: nat, me: Thread, q: seq<nat>)
    requires BlocksInside(s) && t < |s.thr| && NoDup(q) && (forall u :: u in q ==> u in s.queue)
    ensures BlocksInside(s.(thr := s.thr[t := me], queue := q)) <==> t !in q || InWait(me.pc)
  {
  }

  ghost predicate Executable(s: State, run: seq<Action>)
    decreases |run|
  {
    run != [] ==> Enabled(s, run[0]) && Executable(Apply(s, run[0]), run[1..])
  }

  /** In every state of the run each queued block belongs to a thread inside the wait. */
  ghost predicate AlwaysInside(s: State, run: seq<Action>)
    requires Executable(s, run)
    decreases |run|
  {
    BlocksInside(s) && (run != [] ==> AlwaysInside(Apply(s, run[0]), run[1..]))
  }

  ghost predicate NeverLeaves(s: State, run: seq<Action>)
    requires Executable(s, run)
    decreases |run|
  {
    run != [] ==> !LeavesBlock(s, run[0]) && NeverLeaves(Apply(s, run[0]), run[1..])
  }

  /** For any run of any kind of wait: no stale block if and only if no thread leaves the wait while its
      block is queued and nothing is pending. */
  lemma {:induction false} RunExact(s: State, run: seq<Action>)
    requires BlocksInside(s) && Executable(s, run)
    ensures AlwaysInside(s, run) <==> NeverLeaves(s, run)
    decreases |run|
  {
    if run != [] {
      ApplyInside(s, run[0]);
      var s' := Apply(s, run[0]);
      if BlocksInside(s') {
        RunExact(s', run[1..]);
      } else {
        OutsideNow(s', run[1..]);
      }
    }
  }

  lemma OutsideNow(s: State, run: seq<Action>)
    requires !BlocksInside(s) && Executable(s, run)
    ensures !AlwaysInside(s, run)
  {
  }

  /** Thread 0 owns the mutex and thread 1 waits for it when KILL arrives. */
  function KillRun(): seq<Action> {
    [CallLock(0), Run(0), Run(0)] + ([CallLock(1), Run(1), Run(1), Run(1)] + [Kill(1), Run(1), Run(1)])
  }

  function Waits(recursive: bool): State {
    State(recursive, true, [Thread(Out, true, false, 1), Thread(Asleep, false, false, 0)], 1, 0, [1], -1, false)
  }

  /** The block of the killed thread stays queued although the thread has left the wait. */
  lemma KillLeavesBlock(recursive: bool) returns (s: State)
    ensures Reaches(Init(recursive, true, 2), KillRun(), s) && !BlocksInside(s)
  {
    s := Waits(recursive).(thr := [Thread(Out, true, false, 1), Thread(LockLoop, true, false, 0)], spin := 1);
    KillTail(recursive, s);
    hide Reaches;
    var tail := [Kill(1), Run(1), Run(1)];
    WaitHead(recursive, tail, s);
    OwnHead(recursive, [CallLock(1), Run(1), Run(1), Run(1)] + tail, s);
    assert 1 in s.queue && !InWait(s.thr[1].pc);
  }

  lemma KillTail(recursive: bool, s: State)
    requires s == Waits(recursive).(thr := [Thread(Out, true, false, 1), Thread(LockLoop, true, false, 0)], spin := 1)
    ensures Reaches(Waits(recursive), [Kill(1), Run(1), Run(1)], s)
  {
    var s0 := Waits(recursive);
    var s1, s2 := Apply(s0, Kill(1)), Apply(Apply(s0, Kill(1)), Run(1));
    assert Apply(s2, Run(1)) == s;
    assert Reaches(s, [], s);
    Forward(s2, Run(1), [], s);
    Forward(s1, Run(1), [Run(1)], s);
    Forward(s0, Kill(1), [Run(1), Run(1)], s);
  }

  lemma Forward(s: State, a: Action, run: seq<Action>, s': State)
    requires Enabled(s, a) && Reaches(Apply(s, a), run, s')
    ensures Reaches(s, [a] + run, s')
  {
    assert ([a] + run)[1..] == run;
  }

  function Owned(recursive: bool): State {
    State(recursive, true, [Thread(Out, true, false, 1), Thread(Out, true, false, 0)], 1, 0, [], -1, false)
  }

  lemma OwnHead(recursive: bool, run: seq<Action>, s: State)
    requires Reaches(Owned(recursive), run, s)
    ensures Reaches(Init(recursive, true, 2), [CallLock(0), Run(0), Run(0)] + run, s)
  {
    hide Reaches;
    var s0 := Init(recursive, true, 2);
    assert s0.thr == [Thread(Out, true, false, 0), Thread(Out, true, false, 0)];
    var s1 := Apply(s0, CallLock(0));
    var s2 := Apply(s1, Run(0));
    assert Apply(s2, Run(0)) == Owned(recursive);
    Forward(s2, Run(0), run, s);
    Forward(s1, Run(0), [Run(0)] + run, s);
    Forward(s0, CallLock(0), [Run(0)] + ([Run(0)] + run), s);
    assert [CallLock(0)] + ([Run(0)] + ([Run(0)] + run)) == [CallLock(0), Run(0), Run(0)] + run;
  }

  lemma WaitHead(recursive: bool, run: seq<Action>, s: State)
    requires Reaches(Waits(recursive), run, s)
    ensures Reaches(Owned(recursive), [CallLock(1), Run(1), Run(1), Run(1)] + run, s)
  {
    hide Reaches;
    var s0 := Owned(recursive);
    var s1 := Apply(s0, CallLock(1));
    var s2 := Apply(s1, Run(1));
    var s3 := Apply(s2, Run(1));
    assert Apply(s3, Run(1)) == Waits(recursive);
    Forward(s3, Run(1), run, s);
    Forward(s2, Run(1), [Run(1)] + run, s);
    Forward(s1, Run(1), [Run(1)] + ([Run(1)] + run), s);
    Forward(s0, CallLock(1), [Run(1)] + ([Run(1)] + ([Run(1)] + run)), s);
    assert [CallLock(1)] + ([Run(1)] + ([Run(1)] + ([Run(1)] + run))) == [CallLock(1), Run(1), Run(1), Run(1)] + run;
  }

  ghost predicate Reachable(recursive: bool, interruptible: bool, s: State) {
    exists n: nat, run :: Reaches(Init(recursive, interruptible, n), run, s)
  }

  /** Over all runs: queued blocks always belong to threads inside the wait if and only if the wait is of
      the kind that events do not end, which is the kind of a mutex. */
  lemma KindExact(recursive: bool, interruptible: bool)
    ensures (forall s :: Reachable(recursive, interruptible, s) ==> BlocksInside(s)) <==> !interruptible
  {
    hide BlocksInside, Reaches;
    if interruptible {
      var s := KillLeavesBlock(recursive);
      assert Reachable(recursive, interruptible, s);
    } else {
      forall s | Reachable(recursive, interruptible, s)
        ensures BlocksInside(s)
      {
        var n, run :| Reaches(Init(recursive, interruptible, n), run, s);
        InitInv(recursive, interruptible, n);
        RunInv(Init(recursive, interruptible, n), run, s);
      }
    }
  }

  // ---- What holds in every run ----

  predicate Waiting(pc: Pc) { pc.LockEntry? || pc.LockLoop? || pc.Queued? || pc.Asleep? || pc.Finish? }

  /** Mutual exclusion; counter and owner agree; the assertions of mutex_unlock hold; and when nobody
      owns the mutex and the spinlock is free, no thread sleeps. */
  lemma Safety(recursive: bool, interruptible: bool, n: nat, run: seq<Action>, s: State)
    requires Reaches(Init(recursive, interruptible, n), run, s) && CalmRun(interruptible, run)
    ensures forall t, u ::
      0 <= t < |s.thr| && 0 <= u < |s.thr| && s.thr[t].held > 0 && s.thr[u].held > 0 ==> t == u
    ensures s.counter == 0 <==> s.owner == -1
    ensures s.owner != -1 ==> 0 <= s.owner < |s.thr| && s.thr[s.owner].held == s.counter
    ensures forall t :: 0 <= t < |s.thr| ==> (s.thr[t].held > 0 <==> s.counter > 0 && s.owner == t)
    ensures s.failed ==> exists t :: 0 <= t < |s.thr| && s.thr[t].pc.UnlockIn? && s.thr[t].held == 0
    ensures s.counter == 0 && s.spin == -1 ==> s.queue == [] && forall t :: 0 <= t < |s.thr| ==> s.thr[t].runnable
    ensures forall t :: 0 <= t < |s.thr| && !s.thr[t].runnable ==> t in s.queue
    ensures BlocksInside(s)
  {
    InitInv(recursive, interruptible, n);
    RunInv(Init(recursive, interruptible, n), run, s);
  }

  function Repeat(t: nat, n: nat): seq<Action> { if n == 0 then [] else [Run(t)] + Repeat(t, n - 1) }

  /** The last unlock wakes every waiter before it lets go of the spinlock. */
  lemma {:induction false} WakeAll(s: State, t: nat) returns (s': State)
    requires Inv(s) && !s.failed && t < |s.thr| && s.thr[t].pc.UnlockWake?
    ensures Reaches(s, Repeat(t, |s.queue| + 1), s') && Inv(s')
    ensures s'.spin == -1 && s'.counter == 0 && |s'.thr| == |s.thr|
    ensures forall u :: 0 <= u < |s.thr| ==> s'.thr[u].runnable && (u != t ==> s'.thr[u].pc == s.thr[u].pc)
    decreases |s.queue|
  {
    var s1 := Step(s, t);
    WakeInv(s, t);
    var rest := Repeat(t, |s.queue|);
    assert Repeat(t, |s.queue| + 1)[0] == Run(t) && Repeat(t, |s.queue| + 1)[1..] == rest;
    if s.queue == [] {
      s' := s1;
    } else {
      s' := WakeAll(s1, t);
    }
  }

  /** With the mutex and the spinlock free, every thread inside mutex_lock gets the mutex by running on. */
  lemma Acquires(s: State, t: nat) returns (s': State)
    requires Inv(s) && !s.failed && s.counter == 0 && s.spin == -1 && t < |s.thr| && Waiting(s.thr[t].pc)
    ensures Reaches(s, Repeat(t, if s.thr[t].pc.LockEntry? then 2 else 3), s')
    ensures |s'.thr| == |s.thr| && s'.owner == t && s'.counter == 1 && s'.thr[t].pc.Out?
  {
    assert s.thr[t].runnable;
    var s1 := Step(s, t);
    var s2 := Step(s1, t);
    if s.thr[t].pc.LockEntry? {
      s' := s2;
      assert Repeat(t, 2)[1..] == Repeat(t, 1) && Repeat(t, 1)[1..] == [];
      assert Reaches(s2, [], s');
      assert Reaches(s1, Repeat(t, 1), s');
    } else {
      s' := Step(s2, t);
      assert Repeat(t, 3)[1..] == Repeat(t, 2) && Repeat(t, 2)[1..] == Repeat(t, 1) && Repeat(t, 1)[1..] == [];
      assert Reaches(s', [], s');
      assert Reaches(s2, Repeat(t, 1), s');
      assert Reaches(s1, Repeat(t, 2), s');
    }
  }

  predicate InUnlock(pc: Pc) { pc.UnlockEntry? || pc.UnlockIn? }

  /** Once a thread has called mutex_unlock, what it holds does not change until its assertions are evaluated. */
  lemma HeldStays(s: State, t: nat, a: Action)
    requires Enabled(s, a) && t < |s.thr| && InUnlock(s.thr[t].pc) && !(a == Run(t) && s.thr[t].pc.UnlockIn?)
    ensures var s' := Apply(s, a); |s'.thr| == |s.thr| && InUnlock(s'.thr[t].pc) && s'.thr[t].held == s.thr[t].held
  {
    if a.Run? { StepOthers(s, a.t, t); }
  }

  lemma StepOthers(s: State, u: nat, t: nat)
    requires Enabled(s, Run(u)) && t < |s.thr|
    ensures |Step(s, u).thr| == |s.thr|
    ensures t != u ==> Step(s, u).thr[t].pc == s.thr[t].pc && Step(s, u).thr[t].held == s.thr[t].held
  {
    hide Remove;
    if s.thr[u].pc.UnlockWake? {
      if s.queue != [] && s.queue[0] < |s.thr| { assert Step(s, u).thr[t] == s.thr[t] || t == s.queue[0]; }
    } else {
      OnlyOwn(s, u);
    }
  }

  lemma OnlyOwn(s: State, u: nat)
    requires Enabled(s, Run(u)) && !s.thr[u].pc.UnlockWake?
    ensures |Step(s, u).thr| == |s.thr| && Step(s, u).thr == s.thr[u := Step(s, u).thr[u]]
  {
    hide Remove;
  }

  /** The assertions of mutex_unlock hold if and only if the caller owns the mutex; other steps never fail. */
  lemma UnlockExact(s: State, a: Action)
    requires Inv(s) && Enabled(s, a)
    ensures Apply(s, a).failed <==> a.Run? && s.thr[a.t].pc.UnlockIn? && s.thr[a.t].held == 0
  {
  }

  /** The owner of a mutex that is not recursive has called mutex_lock again. */
  ghost predicate Stuck(s: State, t: nat) {
    Inv(s) && !s.recursive && t < |s.thr| && s.owner == t && Waiting(s.thr[t].pc)
  }

  /** Such a call never returns, whatever happens; on a recursive mutex an owner never waits. */
  lemma {:induction false} StuckForever(s: State, t: nat, run: seq<Action>, s': State)
    requires Stuck(s, t) && Reaches(s, run, s') && CalmRun(s.interruptible, run)
    ensures Stuck(s', t)
    decreases |run|
  {
    if run != [] {
      assert Calm(s.interruptible, run[0]);
      StuckStep(s, t, run[0]);
      StuckForever(Apply(s, run[0]), t, run[1..], s');
    }
  }

  lemma StuckStep(s: State, t: nat, a: Action)
    requires Stuck(s, t) && Enabled(s, a) && Calm(s.interruptible, a)
    ensures Stuck(Apply(s, a), t)
  {
    ApplyInv(s, a);
  }

  /** A thread that locks a free mutex twice is stuck. */
  lemma RelockIsStuck() returns (s: State)
    ensures Reaches(Init(false, false, 1), [CallLock(0), Run(0), Run(0), CallLock(0)], s) && Stuck(s, 0)
  {
    var s0 := Init(false, false, 1);
    var s1 := Apply(s0, CallLock(0));
    var s2 := Apply(s1, Run(0));
    var s3 := Apply(s2, Run(0));
    s := Apply(s3, CallLock(0));
    assert Reaches(s, [], s);
    Forward(s3, CallLock(0), [], s);
    Forward(s2, Run(0), [CallLock(0)], s);
    Forward(s1, Run(0), [Run(0), CallLock(0)], s);
    Forward(s0, CallLock(0), [Run(0), Run(0), CallLock(0)], s);
    InitInv(false, false, 1);
    RunInv(s0, [CallLock(0), Run(0), Run(0), CallLock(0)], s);
  }

  /** On a recursive mutex a second lock call by the owner goes straight through. */
  lemma Reenters(s: State, t: nat) returns (s': State)
    requires Inv(s) && !s.failed && s.recursive && t < |s.thr| && s.owner == t
    requires s.thr[t].pc.LockEntry? && s.spin == -1
    ensures Reaches(s, Repeat(t, 2), s')
    ensures |s'.thr| == |s.thr| && s'.owner == t && s'.counter == s.counter + 1
    ensures s'.thr[t].pc.Out? && s'.thr[t].held == s.thr[t].held + 1
  {
    var s1 := Step(s, t);
    s' := Step(s1, t);
    assert Repeat(t, 2)[1..] == Repeat(t, 1) && Repeat(t, 1)[1..] == [];
    assert Reaches(s', [], s');
    assert Reaches(s1, Repeat(t, 1), s');
  }

  // ---- What every run adds up to ----

  /** The action with which a call of mutex_lock by t returns. */
  predicate LockReturns(s: State, a: Action, t: nat)
    requires Enabled(s, a)
  {
    a == Run(t) && s.thr[t].pc.LockLoop? && t < |Apply(s, a).thr| && Apply(s, a).thr[t].pc.Out?
  }

  /** The action with which t gives back one lock. */
  predicate UnlockPasses(s: State, a: Action, t: nat)
    requires Enabled(s, a)
  {
    a == Run(t) && s.thr[t].pc.UnlockIn? && !Apply(s, a).failed
  }

  /** Returned lock calls of t less its unlocks, along the run. */
  ghost function Balance(s: State, run: seq<Action>, t: nat): int
    requires Executable(s, run)
    decreases |run|
  {
    if run == [] then 0
    else
      Balance(Apply(s, run[0]), run[1..], t)
      + (if LockReturns(s, run[0], t) then 1 else 0) - (if UnlockPasses(s, run[0], t) then 1 else 0)
  }

  lemma BalanceStep(s: State, a: Action, t: nat)
    requires Inv(s) && Enabled(s, a) && t < |s.thr|
    ensures |Apply(s, a).thr| == |s.thr|
    ensures Apply(s, a).thr[t].held ==
      s.thr[t].held + (if LockReturns(s, a, t) then 1 else 0) - (if UnlockPasses(s, a, t) then 1 else 0)
  {
    if a == Run(t) {
      OwnHeld(s, t);
    } else if a.Run? {
      hide Inv, Step;
      StepOthers(s, a.t, t);
    }
  }

  lemma OwnHeld(s: State, t: nat)
    requires Inv(s) && Enabled(s, Run(t))
    ensures var s', me := Step(s, t), s.thr[t];
      && |s'.thr| == |s.thr|
      && s'.thr[t].held == me.held + (if me.pc.LockLoop? && s'.thr[t].pc.Out? then 1 else 0)
                           - (if me.pc.UnlockIn? && !s'.failed then 1 else 0)
  {
    match s.thr[t].pc
    case UnlockIn => UnlockHeld(s, t);
    case LockLoop => LockHeld(s, t);
    case UnlockWake => hide Inv;
    case _ => hide Inv, Remove;
  }

  lemma LockHeld(s: State, t: nat)
    requires Enabled(s, Run(t)) && s.thr[t].pc.LockLoop?
    ensures var s', me := Step(s, t), s.thr[t];
      |s'.thr| == |s.thr| && s'.thr[t].held == me.held + (if s'.thr[t].pc.Out? then 1 else 0)
  {
  }

  /** A passed unlock takes one from what the caller holds. */
  lemma UnlockHeld(s: State, t: nat)
    requires OwnerOk(s) && Enabled(s, Run(t)) && s.thr[t].pc.UnlockIn?
    ensures var s', me := Step(s, t), s.thr[t];
      |s'.thr| == |s.thr| && s'.thr[t].held == me.held - (if s'.failed then 0 else 1)
  {
  }

  lemma {:induction false} ReachesExecutable(s: State, run: seq<Action>, s': State)
    requires Reaches(s, run, s')
    ensures Executable(s, run)
    decreases |run|
  {
    if run != [] { ReachesExecutable(Apply(s, run[0]), run[1..], s'); }
  }

  /** In every run the counter is the number of lock calls of the owner that returned less its unlocks, and
      for every other thread that number is zero. */
  lemma CounterExact(recursive: bool, interruptible: bool, n: nat, run: seq<Action>, s: State, t: nat)
    requires Reaches(Init(recursive, interruptible, n), run, s) && CalmRun(interruptible, run) && t < n
    ensures Executable(Init(recursive, interruptible, n), run)
    ensures Balance(Init(recursive, interruptible, n), run, t) == if s.owner == t then s.counter else 0
  {
    var s0 := Init(recursive, interruptible, n);
    ReachesExecutable(s0, run, s);
    InitInv(recursive, interruptible, n);
    RunInv(s0, run, s);
    BalanceRun(s0, run, s, t);
  }

  lemma {:induction false} BalanceRun(s: State, run: seq<Action>, s': State, t: nat)
    requires Inv(s) && Reaches(s, run, s') && CalmRun(s.interruptible, run) && Executable(s, run) && t < |s.thr|
    ensures |s'.thr| == |s.thr| && s'.thr[t].held == s.thr[t].held + Balance(s, run, t)
    decreases |run|
  {
    hide Inv, Apply, LockReturns, UnlockPasses;
    if run != [] {
      assert Calm(s.interruptible, run[0]);
      BalanceStep(s, run[0], t);
      ApplyInv(s, run[0]);
      SameKind(s, run[0]);
      BalanceRun(Apply(s, run[0]), run[1..], s', t);
    }
  }

  lemma SameKind(s: State, a: Action)
    requires Enabled(s, a)
    ensures Apply(s, a).interruptible == s.interruptible
  {
  }

  /** The threads that stop being runnable between two states, and those that become runnable. */
  function Turned(before: seq<Thread>, after: seq<Thread>, runnable: bool, n: nat): seq<nat>
    requires n <= |before| && n <= |after|
  {
    if n == 0 then []
    else
      Turned(before, after, runnable, n - 1)
      + (if before[n - 1].runnable != runnable && after[n - 1].runnable == runnable then [n - 1] else [])
  }

  lemma {:induction false} TurnedOne(before: seq<Thread>, after: seq<Thread>, runnable: bool, n: nat, w: nat)
    requires n <= |before| == |after| && w < |before|
    requires forall u :: 0 <= u < |before| && u != w ==> after[u].runnable == before[u].runnable
    ensures Turned(before, after, runnable, n) ==
      if w < n && before[w].runnable != runnable && after[w].runnable == runnable then [w] else []
  {
    if n > 0 { TurnedOne(before, after, runnable, n - 1, w); }
  }

  ghost function Slept(s: State, run: seq<Action>): seq<nat>
    requires Executable(s, run)
    decreases |run|
  {
    if run == [] then []
    else
      var s' := Apply(s, run[0]);
      (if |s'.thr| == |s.thr| then Turned(s.thr, s'.thr, false, |s.thr|) else []) + Slept(s', run[1..])
  }

  ghost function Woken(s: State, run: seq<Action>): seq<nat>
    requires Executable(s, run)
    decreases |run|
  {
    if run == [] then []
    else
      var s' := Apply(s, run[0]);
      (if |s'.thr| == |s.thr| then Turned(s.thr, s'.thr, true, |s.thr|) else []) + Woken(s', run[1..])
  }

  /** What one action does to the queue: those that wake leave at the head, those that fall asleep join at the tail. */
  ghost predicate Fifo(s: State, s': State) {
    && |s'.thr| == |s.thr|
    && Turned(s.thr, s'.thr, true, |s.thr|) + s'.queue == s.queue + Turned(s.thr, s'.thr, false, |s.thr|)
  }

  /** Only one thread changes. */
  lemma FifoOne(s: State, s': State, w: nat)
    requires w < |s.thr| == |s'.thr|
    requires forall u :: 0 <= u < |s.thr| && u != w ==> s'.thr[u].runnable == s.thr[u].runnable
    requires s.thr[w].runnable == s'.thr[w].runnable ==> s'.queue == s.queue
    requires s.thr[w].runnable && !s'.thr[w].runnable ==> s'.queue == s.queue + [w]
    requires !s.thr[w].runnable && s'.thr[w].runnable ==> s.queue == [w] + s'.queue
    ensures Fifo(s, s')
  {
    TurnedOne(s.thr, s'.thr, true, |s.thr|, w);
    TurnedOne(s.thr, s'.thr, false, |s.thr|, w);
  }

  lemma FifoWake(s: State, t: nat)
    requires Inv(s) && Enabled(s, Run(t)) && !s.interruptible && s.thr[t].pc.UnlockWake?
    ensures Fifo(s, Step(s, t))
  {
    hide SpinOk, OwnerOk, WaitOk, Fifo;
    if s.queue == [] {
      FifoOne(s, Step(s, t), t);
    } else {
      var w := s.queue[0];
      assert w in s.queue && s.queue == [w] + s.queue[1..];
      FifoOne(s, Step(s, t), w);
    }
  }

  lemma FifoOwn(s: State, t: nat)
    requires Inv(s) && Enabled(s, Run(t)) && !s.interruptible && !s.thr[t].pc.UnlockWake?
    ensures Fifo(s, Step(s, t))
  {
    OnlyOwn(s, t);
    OwnQueue(s, t);
    hide Inv, Step, Fifo;
    FifoOne(s, Step(s, t), t);
  }

  lemma OwnQueue(s: State, t: nat)
    requires Inv(s) && Enabled(s, Run(t)) && !s.interruptible && !s.thr[t].pc.UnlockWake?
    ensures var s' := Step(s, t);
      && |s'.thr| == |s.thr| && (s'.thr[t].runnable ==> s.thr[t].runnable)
      && s'.queue == if s.thr[t].runnable && !s'.thr[t].runnable then s.queue + [t] else s.queue
  {
    hide Remove, SpinOk, OwnerOk, WaitOk;
  }

  lemma FifoStep(s: State, a: Action)
    requires Inv(s) && Enabled(s, a) && !s.interruptible
    ensures Fifo(s, Apply(s, a))
  {
    hide Inv, Step, Fifo;
    if a.Run? {
      if s.thr[a.t].pc.UnlockWake? { FifoWake(s, a.t); } else { FifoOwn(s, a.t); }
    } else {
      FifoOne(s, Apply(s, a), a.t);
    }
  }

  lemma {:induction false} FifoRun(s: State, run: seq<Action>, s': State)
    requires Inv(s) && Reaches(s, run, s') && !s.interruptible && Executable(s, run)
    ensures Woken(s, run) + s'.queue == s.queue + Slept(s, run)
    decreases |run|
  {
    hide Inv, Apply, Turned;
    if run != [] {
      var s1 := Apply(s, run[0]);
      FifoStep(s, run[0]);
      ApplyInv(s, run[0]);
      SameKind(s, run[0]);
      FifoRun(s1, run[1..], s');
      var up, down := Turned(s.thr, s1.thr, true, |s.thr|), Turned(s.thr, s1.thr, false, |s.thr|);
      Concat(up, Woken(s1, run[1..]), s'.queue, s1.queue, Slept(s1, run[1..]), s.queue, down);
    }
  }

  lemma Concat(a: seq<nat>, b: seq<nat>, c: seq<nat>, d: seq<nat>, e: seq<nat>, f: seq<nat>, g: seq<nat>)
    requires b + c == d + e && a + d == f + g
    ensures (a + b) + c == f + (g + e)
  {
    assert (a + b) + c == a + (b + c);
    assert a + (d + e) == (a + d) + e;
    assert (f + g) + e == f + (g + e);
  }

  /** In every run of a mutex threads are woken in the order in which they went to sleep: those woken, followed
      by those still queued, are those that slept. */
  lemma WokenInOrder(recursive: bool, n: nat, run: seq<Action>, s: State)
    requires Reaches(Init(recursive, false, n), run, s)
    ensures Executable(Init(recursive, false, n), run)
    ensures Woken(Init(recursive, false, n), run) + s.queue == Slept(Init(recursive, false, n), run)
  {
    var s0 := Init(recursive, false, n);
    ReachesExecutable(s0, run, s);
    InitInv(recursive, false, n);
    FifoRun(s0, run, s);
    assert [] + Slept(s0, run) == Slept(s0, run);
  }
}
