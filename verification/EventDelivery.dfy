/** Sending, delivering and handing over the events of one process and its threads. */
module EventDelivery {
  import opened Common
  import opened Events

  /** A thread slot; tid n is slot n. */
  datatype Slot = Slot(evque: EventQueue, masks: Mask, kernel: bool, alive: bool)

  /** What a thread is doing; only the last two kinds of wait end when an event arrives. */
  datatype Status = Running | Wait | WaitKillable | WaitIntr

  /** The wake-up rule of ev_send and ev_send_to_process. */
  function Woken(st: Status, masked: bool): (r: Status)
    ensures r != st <==> !masked && (st == WaitKillable || st == WaitIntr)
    ensures r != st ==> r == Running
  {
    if !masked && (st.WaitKillable? || st.WaitIntr?) then Running else st
  }

  datatype SendResult = Accepted | NoThread | KernelThread

  ghost predicate SlotOk(s: Slot) {
    QueueOk(s.evque) && MaskOk(s.masks)
  }

  /** The events pending at the first n threads. */
  ghost function PendingBelow(thr: seq<Slot>, n: nat): multiset<Event>
    requires n <= |thr|
  {
    if n == 0 then multiset{} else PendingBelow(thr, n - 1) + All(thr[n - 1].evque)
  }

  lemma {:induction false} PendingUpdate(thr: seq<Slot>, t: nat, s: Slot, n: nat)
    requires t < |thr| && n <= |thr|
    ensures t >= n ==> PendingBelow(thr[t := s], n) == PendingBelow(thr, n)
    ensures t < n ==> PendingBelow(thr[t := s], n) + All(thr[t].evque) == PendingBelow(thr, n) + All(s.evque)
  {
    hide All;
    if n > 0 {
      PendingUpdate(thr, t, s, n - 1);
      if t < n - 1 {
        Exchange(PendingBelow(thr, n - 1), PendingBelow(thr[t := s], n - 1), All(thr[n - 1].evque), All(thr[t].evque),
                 All(s.evque));
      }
    }
  }

  ghost predicate Balanced(sent: multiset<Event>, delivered: multiset<Event>, dropped: multiset<Event>,
                           pending: multiset<Event>) {
    sent == delivered + dropped + pending
  }

  lemma SendBalance(sent: multiset<Event>, delivered: multiset<Event>, dropped: multiset<Event>, p: multiset<Event>,
                    p': multiset<Event>, e: Event)
    requires Balanced(sent, delivered, dropped, p) && p' == p + multiset{e}
    ensures Balanced(sent + multiset{e}, delivered, dropped, p')
  {
  }

  lemma TakeBalance(sent: multiset<Event>, delivered: multiset<Event>, dropped: multiset<Event>, p: multiset<Event>,
                    p': multiset<Event>, e: Event)
    requires Balanced(sent, delivered, dropped, p) && p == p' + multiset{e}
    ensures Balanced(sent, delivered + multiset{e}, dropped, p')
    ensures Balanced(sent, delivered, dropped + multiset{e}, p')
  {
    assert delivered + dropped + (p' + multiset{e}) == (delivered + multiset{e}) + dropped + p';
  }

  ghost function PendingOf(q: EventQueue, thr: seq<Slot>): multiset<Event> { All(q) + PendingBelow(thr, |thr|) }

  /** One event more or less in a queue is one more or less in all. */
  lemma PendingMore(q: EventQueue, thr: seq<Slot>, t: nat, q': EventQueue, e: Event)
    requires t < |thr| && All(q') == All(thr[t].evque) + multiset{e}
    ensures PendingOf(q, thr[t := thr[t].(evque := q')]) == PendingOf(q, thr) + multiset{e}
  {
    hide All;
    var thr' := thr[t := thr[t].(evque := q')];
    PendingUpdate(thr, t, thr'[t], |thr|);
    Cancel(PendingBelow(thr', |thr|), All(thr[t].evque), PendingBelow(thr, |thr|), multiset{e});
  }

  lemma PendingLess(q: EventQueue, thr: seq<Slot>, t: nat, q': EventQueue, e: Event)
    requires t < |thr| && All(thr[t].evque) == All(q') + multiset{e}
    ensures PendingOf(q, thr) == PendingOf(q, thr[t := thr[t].(evque := q')]) + multiset{e}
  {
    var thr' := thr[t := thr[t].(evque := q')];
    PendingMore(q, thr', t, thr[t].evque, e);
    assert thr'[t := thr'[t].(evque := thr[t].evque)] == thr;
  }

  lemma PendingProc(q: EventQueue, q': EventQueue, thr: seq<Slot>, e: Event)
    requires All(q) == All(q') + multiset{e}
    ensures PendingOf(q, thr) == PendingOf(q', thr) + multiset{e}
  {
    hide All, PendingBelow;
    var p := PendingBelow(thr, |thr|);
    assert (All(q') + multiset{e}) + p == (All(q') + p) + multiset{e};
  }

  /** The KILL events of a queue. */
  ghost function Kills(q: EventQueue): seq<Event> { if KILL < |q.que| then q.que[KILL] else [] }

  function Empty(): EventQueue {
    EventQueue(seq(MAP_LEN, _ => {}), seq(NR_EVENT, _ => []))
  }

  lemma EmptyOk()
    ensures QueueOk(Empty()) && All(Empty()) == multiset{}
  {
    NoneBelow(Empty().que, NR_EVENT);
  }

  lemma {:induction false} NoneBelow(que: seq<seq<Event>>, n: nat)
    requires n <= |que| && forall i :: 0 <= i < n ==> que[i] == []
    ensures AllBelow(que, n) == multiset{}
  {
    if n > 0 { NoneBelow(que, n - 1); }
  }

  /** The events of an exiting thread that go on to the process. */
  function Kept(s: seq<Event>, master: bool): seq<Event> {
    if s == [] then []
    else (if master || s[0].threadSpecific then [] else [s[0]]) + Kept(s[1..], master)
  }

  /** Some event with a number below n goes on to the process and is not masked. */
  ghost predicate Reached(que: seq<seq<Event>>, masks: Mask, master: bool, n: nat)
    requires n <= NR_EVENT && |que| == NR_EVENT && |masks| == MAP_LEN
  {
    n > 0 && (Reached(que, masks, master, n - 1) || (Kept(que[n - 1], master) != [] && !Test(masks, n - 1)))
  }

  ghost predicate MasksSized(thr: seq<Slot>) {
    forall t :: 0 <= t < |thr| ==> |thr[t].masks| == MAP_LEN
  }

  // ---- Histories ----

  /** Per queue and number, the events that went in and those that came out, in order. */
  datatype History = History(procIn: seq<seq<Event>>, procOut: seq<seq<Event>>,
                             thrIn: seq<seq<seq<Event>>>, thrOut: seq<seq<seq<Event>>>)

  /** The history agrees with the queues: every queue is first in, first out. */
  ghost predicate Told(h: History, q: EventQueue, thr: seq<Slot>) {
    && Fifo(h.procIn, h.procOut, q.que) && |h.thrIn| == |h.thrOut| == |thr|
    && forall t :: 0 <= t < |thr| ==> Fifo(h.thrIn[t], h.thrOut[t], thr[t].evque.que)
  }

  ghost function Logged(log: seq<seq<Event>>, e: Event): seq<seq<Event>> {
    if e.no < |log| then log[e.no := log[e.no] + [e]] else log
  }

  ghost function ProcIn(h: History, e: Event): History { h.(procIn := Logged(h.procIn, e)) }
  ghost function ProcOut(h: History, e: Event): History { h.(procOut := Logged(h.procOut, e)) }

  ghost function ThrIn(h: History, t: nat, e: Event): History {
    if t < |h.thrIn| then h.(thrIn := h.thrIn[t := Logged(h.thrIn[t], e)]) else h
  }

  ghost function ThrOut(h: History, t: nat, e: Event): History {
    if t < |h.thrOut| then h.(thrOut := h.thrOut[t := Logged(h.thrOut[t], e)]) else h
  }

  lemma ToldProcIn(h: History, q: EventQueue, thr: seq<Slot>, e: Event, q': EventQueue)
    requires Told(h, q, thr) && e.no < NR_EVENT && q'.que == q.que[e.no := q.que[e.no] + [e]]
    ensures Told(ProcIn(h, e), q', thr)
  {
    FifoPut(h.procIn, h.procOut, q.que, e.no, e);
  }

  lemma ToldProcOut(h: History, q: EventQueue, thr: seq<Slot>, e: Event, q': EventQueue)
    requires Told(h, q, thr) && e.no < NR_EVENT && q.que[e.no] != [] && q.que[e.no][0] == e
    requires q'.que == q.que[e.no := q.que[e.no][1..]]
    ensures Told(ProcOut(h, e), q', thr)
  {
    FifoTake(h.procIn, h.procOut, q.que, e.no);
  }

  lemma ToldThrIn(h: History, q: EventQueue, thr: seq<Slot>, t: nat, e: Event, s: Slot)
    requires Told(h, q, thr) && t < |thr| && e.no < NR_EVENT
    requires s.evque.que == thr[t].evque.que[e.no := thr[t].evque.que[e.no] + [e]]
    ensures Told(ThrIn(h, t, e), q, thr[t := s])
  {
    FifoPut(h.thrIn[t], h.thrOut[t], thr[t].evque.que, e.no, e);
  }

  lemma ToldThrOut(h: History, q: EventQueue, thr: seq<Slot>, t: nat, e: Event, s: Slot)
    requires Told(h, q, thr) && t < |thr| && e.no < NR_EVENT
    requires thr[t].evque.que[e.no] != [] && thr[t].evque.que[e.no][0] == e
    requires s.evque.que == thr[t].evque.que[e.no := thr[t].evque.que[e.no][1..]]
    ensures Told(ThrOut(h, t, e), q, thr[t := s])
  {
    FifoTake(h.thrIn[t], h.thrOut[t], thr[t].evque.que, e.no);
  }

  lemma ToldSame(h: History, q: EventQueue, thr: seq<Slot>, t: nat, s: Slot)
    requires Told(h, q, thr) && t < |thr| && s.evque.que == thr[t].evque.que
    ensures Told(h, q, thr[t := s])
  {
  }

  ghost function NoEvents(): seq<seq<Event>> { seq(NR_EVENT, _ => []) }

  lemma ToldNew(h: History, q: EventQueue, thr: seq<Slot>, s: Slot)
    requires Told(h, q, thr) && s.evque == Empty()
    ensures Told(h.(thrIn := h.thrIn + [NoEvents()], thrOut := h.thrOut + [NoEvents()]), q, thr + [s])
  {
    assert Fifo(NoEvents(), NoEvents(), Empty().que);
  }

  class Process {
    const master: nat
    var evque: EventQueue
    var thr: seq<Slot>
    var status: seq<Status>
    ghost var sent: multiset<Event>
    ghost var delivered: multiset<Event>
    ghost var dropped: multiset<Event>
    ghost var hist: History

    ghost function Pending(): multiset<Event>
      reads this
    {
      PendingOf(evque, thr)
    }

    /** Every event sent is in exactly one place. */
    ghost predicate Ledger()
      reads this
    {
      Balanced(sent, delivered, dropped, Pending())
    }

    ghost predicate Queues()
      reads this
    {
      QueueOk(evque) && |status| == |thr| && forall t :: 0 <= t < |thr| ==> SlotOk(thr[t])
    }

    ghost predicate Valid()
      reads this
    {
      Queues() && Ledger() && Told(hist, evque, thr)
    }

    constructor (master: nat)
      ensures Valid() && thr == [] && sent == multiset{} && evque == Empty()
    {
      this.master := master;
      evque, thr, status := Empty(), [], [];
      sent, delivered, dropped := multiset{}, multiset{}, multiset{};
      hist := History(NoEvents(), NoEvents(), [], []);
      EmptyOk();
    }

    /** A new thread starts with an empty event queue (ev_queue_init). */
    method AddThread(kernel: bool, masks: Mask)
      requires Valid() && MaskOk(masks)
      modifies this`thr, this`status, this`hist
      ensures Valid() && thr == old(thr) + [Slot(Empty(), masks, kernel, true)] && status == old(status) + [Running]
      ensures evque == old(evque) && sent == old(sent)
    {
      EmptyOk();
      hide All, Told;
      ghost var was := thr;
      ToldNew(hist, evque, thr, Slot(Empty(), masks, kernel, true));
      hist := hist.(thrIn := hist.thrIn + [NoEvents()], thrOut := hist.thrOut + [NoEvents()]);
      thr, status := thr + [Slot(Empty(), masks, kernel, true)], status + [Running];
      PendingPrefix(was, thr, |was|);
    }

    /** ev_send */
    method SendThread(dest: nat, e: Event) returns (r: SendResult)
      requires Valid() && e.no < NR_EVENT
      modifies this`thr, this`status, this`sent, this`hist
      ensures Valid()
      ensures r == if dest >= |old(thr)| || !old(thr)[dest].alive then NoThread
                   else if old(thr)[dest].kernel then KernelThread else Accepted
      ensures r.Accepted? ==> var was := old(thr)[dest];
        && OnlyQueueOf(old(thr), dest) && sent == old(sent) + multiset{e} && hist == ThrIn(old(hist), dest, e)
        && |was.evque.que| == NR_EVENT
        && thr[dest].evque.que == was.evque.que[e.no := was.evque.que[e.no] + [e]]
        && status == old(status)[dest := Woken(old(status)[dest], Test(was.masks, e.no))]
      ensures !r.Accepted? ==> thr == old(thr) && status == old(status) && sent == old(sent) && hist == old(hist)
    {
      hide All, QueueOk, SlotOk, Balanced, PendingOf, MaskSet, Test, Told;
      if dest >= |thr| || !thr[dest].alive { return NoThread; }
      if thr[dest].kernel { return KernelThread; }
      SlotQueue(thr[dest]);
      var q := Events.Sent(thr[dest].evque, e);
      SentOk(thr[dest].evque, e);
      ghost var p := Pending();
      PendingMore(evque, thr, dest, q, e);
      SlotWith(thr[dest], q);
      ToldThrIn(hist, evque, thr, dest, e, thr[dest].(evque := q));
      hist := ThrIn(hist, dest, e);
      thr := thr[dest := thr[dest].(evque := q)];
      SendBalance(sent, delivered, dropped, p, Pending(), e);
      sent := sent + multiset{e};
      status := status[dest := Woken(status[dest], Test(thr[dest].masks, e.no))];
      return Accepted;
    }

    /** ev_send_to_process */
    method SendProcess(e: Event)
      requires Valid() && e.no < NR_EVENT
      modifies this`evque, this`status, this`sent, this`hist
      ensures Valid() && sent == old(sent) + multiset{e} && hist == ProcIn(old(hist), e)
      ensures |old(evque.que)| == NR_EVENT && evque.que == old(evque.que)[e.no := old(evque.que)[e.no] + [e]]
      ensures forall t :: 0 <= t < |thr| ==> status[t] == Woken(old(status)[t], Test(thr[t].masks, e.no))
    {
      hide All, QueueOk, SlotOk, Balanced, PendingOf, MaskSet, Test, Told;
      KillSize(evque);
      Sized();
      ToldProcIn(hist, evque, thr, e, Events.Sent(evque, e));
      hist := ProcIn(hist, e);
      SentOk(evque, e);
      ghost var p := Pending();
      PendingProc(Events.Sent(evque, e), evque, thr, e);
      evque := Events.Sent(evque, e);
      SendBalance(sent, delivered, dropped, p, Pending(), e);
      sent := sent + multiset{e};
      WakeThreads(e.no);
    }

    /** Lines 204-219 of ev_send_to_process: wake the threads that wait and do not mask the event. */
    method WakeThreads(no: nat)
      requires |status| == |thr| && no < NR_EVENT && MasksSized(thr)
      modifies this`status
      ensures |status| == |thr|
      ensures forall t :: 0 <= t < |thr| ==> status[t] == Woken(old(status)[t], Test(thr[t].masks, no))
    {
      var i := 0;
      while i < |thr|
        invariant 0 <= i <= |thr| && |status| == |thr|
        invariant forall t :: 0 <= t < i ==> status[t] == Woken(old(status)[t], Test(thr[t].masks, no))
        invariant forall t :: i <= t < |thr| ==> status[t] == old(status)[t]
      {
        status := status[i := Woken(status[i], Test(thr[i].masks, no))];
        i := i + 1;
      }
    }

    /** What thread t can still be handed: the events of the process first, then its own. */
    ghost function Upcoming(t: nat): seq<Event>
      requires t < |thr|
      reads this
    {
      Due(evque, thr[t].masks) + Due(thr[t].evque, thr[t].masks)
    }

    /** ev_dequeue, for thread t */
    method Dequeue(t: nat) returns (r: Option<Event>)
      requires Valid() && t < |thr|
      modifies this`evque, this`thr, this`delivered, this`hist
      ensures Valid() && |thr| == |old(thr)| && thr[t].masks == old(thr[t].masks)
      ensures forall u :: 0 <= u < |thr| && u != t ==> thr[u] == old(thr)[u]
      ensures r.None? ==>
        && old(Upcoming(t)) == [] == Upcoming(t)
        && evque == old(evque) && thr == old(thr) && delivered == old(delivered)
      ensures r.Some? ==> old(Upcoming(t)) == [r.value] + Upcoming(t) && r.value.no != KILL
      ensures r.Some? ==> delivered == old(delivered) + multiset{r.value}
      ensures r.Some? ==>
        hist == ProcOut(old(hist), r.value) || (evque == old(evque) && hist == ThrOut(old(hist), t, r.value))
      ensures Kills(evque) == old(Kills(evque)) && Kills(thr[t].evque) == old(Kills(thr[t].evque))
    {
      hide Due, SlotOk, QueueOk, Kills, All, Told, Ledger;
      SlotQueue(thr[t]);
      ghost var b := Due(thr[t].evque, thr[t].masks);
      ghost var a := Due(evque, thr[t].masks);
      r := TakeProcess(thr[t].masks);
      if r.Some? {
        Assoc(r.value, a, Due(evque, thr[t].masks), b);
        return;
      }
      assert a + b == b;
      r := TakeOwn(t);
      if r.Some? {
        assert a + Due(thr[t].evque, thr[t].masks) == Due(thr[t].evque, thr[t].masks);
      }
    }

    /** Lines 386-388 of ev_dequeue */
    method TakeProcess(masks: Mask) returns (r: Option<Event>)
      requires Valid() && |masks| == MAP_LEN
      modifies this`evque, this`delivered, this`hist
      ensures Valid() && Kills(evque) == old(Kills(evque))
      ensures r.None? ==>
        Due(evque, masks) == [] && evque == old(evque) && delivered == old(delivered) && hist == old(hist)
      ensures r.Some? ==> Due(old(evque), masks) == [r.value] + Due(evque, masks) && r.value.no != KILL
      ensures r.Some? ==> delivered == old(delivered) + multiset{r.value} && hist == ProcOut(old(hist), r.value)
    {
      hide Due, SlotOk, QueueOk, Balanced, PendingOf, Kills, All, Told;
      ghost var p := Pending();
      var q;
      r, q := DequeueFrom(evque, masks);
      if r.Some? {
        KillSame(evque, q);
        PendingProc(evque, q, thr, r.value);
        ToldProcOut(hist, evque, thr, r.value, q);
        hist := ProcOut(hist, r.value);
        evque := q;
        TakeBalance(sent, delivered, dropped, p, Pending(), r.value);
        delivered := delivered + multiset{r.value};
      }
    }

    /** Lines 395-397 of ev_dequeue */
    method TakeOwn(t: nat) returns (r: Option<Event>)
      requires Valid() && t < |thr|
      modifies this`thr, this`delivered, this`hist
      ensures Valid() && OnlyQueueOf(old(thr), t) && Kills(thr[t].evque) == old(Kills(thr[t].evque))
      ensures var masks := thr[t].masks;
        && (r.None? ==> Due(thr[t].evque, masks) == [] && thr == old(thr) && delivered == old(delivered))
        && (r.Some? ==> Due(old(thr[t].evque), masks) == [r.value] + Due(thr[t].evque, masks) && r.value.no != KILL)
      ensures r.None? ==> hist == old(hist)
      ensures r.Some? ==> delivered == old(delivered) + multiset{r.value} && hist == ThrOut(old(hist), t, r.value)
    {
      hide Due, SlotOk, QueueOk, Balanced, PendingOf, Kills, All, Told;
      ghost var p := Pending();
      SlotQueue(thr[t]);
      var q;
      r, q := DequeueFrom(thr[t].evque, thr[t].masks);
      if r.Some? {
        KillSame(thr[t].evque, q);
        PendingLess(evque, thr, t, q, r.value);
        SlotWith(thr[t], q);
        ToldThrOut(hist, evque, thr, t, r.value, thr[t].(evque := q));
        hist := ThrOut(hist, t, r.value);
        thr := thr[t := thr[t].(evque := q)];
        TakeBalance(sent, delivered, dropped, p, Pending(), r.value);
        delivered := delivered + multiset{r.value};
      }
    }

    /** Taking events until there are none delivers exactly the upcoming ones, each once and in order;
        only masked events and KILL stay behind. */
    method Drain(t: nat) returns (handled: seq<Event>)
      requires Valid() && t < |thr|
      modifies this`evque, this`thr, this`delivered, this`hist
      ensures Valid() && |thr| == |old(thr)|
      ensures handled == old(Upcoming(t)) && Upcoming(t) == [] && delivered == old(delivered) + multiset(handled)
      ensures Kills(evque) == old(Kills(evque)) && Kills(thr[t].evque) == old(Kills(thr[t].evque))
    {
      hide Valid, Upcoming, Kills;
      handled := [];
      var done := false;
      while !done
        invariant Valid() && |thr| == |old(thr)|
        invariant old(Upcoming(t)) == handled + Upcoming(t) && (done ==> Upcoming(t) == [])
        invariant delivered == old(delivered) + multiset(handled)
        invariant Kills(evque) == old(Kills(evque)) && Kills(thr[t].evque) == old(Kills(thr[t].evque))
        decreases !done, |Upcoming(t)|
      {
        var r := Dequeue(t);
        if r.Some? {
          Assoc2(handled, r.value, Upcoming(t));
          assert multiset(handled + [r.value]) == multiset(handled) + multiset{r.value};
          handled := handled + [r.value];
        } else {
          done := true;
        }
      }
    }

    /** Only the event queue of slot t differs. */
    ghost predicate OnlyQueueOf(was: seq<Slot>, t: nat)
      requires t < |was|
      reads this
    {
      |thr| == |was| && thr == was[t := thr[t]] && thr[t] == was[t].(evque := thr[t].evque)
    }

    /** ev_handle_exit_thread_events: what is left in the queues of an exiting thread goes to the process and
        wakes its threads, except thread-specific events; the master thread drops everything. */
    method Exit(t: nat)
      requires Valid() && t < |thr|
      modifies this`evque, this`thr, this`status, this`dropped, this`hist
      ensures Valid() && OnlyQueueOf(old(thr), t)
      ensures forall id :: 0 <= id < NR_EVENT ==> thr[t].evque.que[id] == [] && !Test(thr[t].evque.events, id)
      ensures forall id :: 0 <= id < NR_EVENT ==>
        evque.que[id] == old(evque.que[id]) + Kept(old(thr[t].evque.que[id]), t == master)
      ensures forall u :: 0 <= u < |thr| ==>
        status[u] == Woken(old(status)[u], !Reached(old(thr[t].evque.que), thr[u].masks, t == master, NR_EVENT))
    {
      hide SlotOk, QueueOk, Balanced, PendingOf, All, Kept, Test, Told;
      SlotQueue(thr[t]);
      KillSize(evque);
      Sized();
      ghost var own, mine := thr[t].evque.que, evque.que;
      var i := 0;
      while i < NR_EVENT
        invariant 0 <= i <= NR_EVENT && Valid() && OnlyQueueOf(old(thr), t) && MasksSized(thr)
        invariant |evque.que| == NR_EVENT && |thr[t].evque.que| == NR_EVENT && |thr[t].evque.events| == MAP_LEN
        invariant forall id :: 0 <= id < i ==> thr[t].evque.que[id] == [] && !Test(thr[t].evque.events, id)
        invariant forall id :: i <= id < NR_EVENT ==> thr[t].evque.que[id] == own[id] && evque.que[id] == mine[id]
        invariant forall id :: 0 <= id < i ==> evque.que[id] == mine[id] + Kept(own[id], t == master)
        invariant forall u :: 0 <= u < |thr| ==>
          status[u] == Woken(old(status)[u], !Reached(own, thr[u].masks, t == master, i))
      {
        ExitNumber(t, i);
        i := i + 1;
      }
    }

    lemma Sized()
      requires Queues()
      ensures MasksSized(thr)
    {
    }

    /** One number of ev_handle_exit_thread_events. */
    method ExitNumber(t: nat, i: nat)
      requires Valid() && t < |thr| && i < NR_EVENT && MasksSized(thr)
      modifies this`evque, this`thr, this`status, this`dropped, this`hist
      ensures Valid() && OnlyQueueOf(old(thr), t) && MasksSized(thr)
      ensures |evque.que| == NR_EVENT && |thr[t].evque.que| == NR_EVENT && |thr[t].evque.events| == MAP_LEN
      ensures var q, q' := old(thr[t].evque), thr[t].evque;
        && |old(evque.que)| == NR_EVENT && |q.que| == NR_EVENT && |q.events| == MAP_LEN
        && q'.que == q.que[i := []] && q'.events == MaskUnset(q.events, i)
        && evque.que == old(evque.que)[i := old(evque.que)[i] + Kept(q.que[i], t == master)]
      ensures forall u :: 0 <= u < |thr| ==>
        status[u] == Woken(old(status)[u], Kept(old(thr[t].evque.que[i]), t == master) == [] || Test(thr[u].masks, i))
    {
      hide SlotOk, QueueOk, Ledger, All, Test, MaskUnset, MaskSet, Told;
      SlotQueue(thr[t]);
      KillSize(evque);
      NumberOk(thr[t].evque, i);
      ghost var q, mine, kept := thr[t].evque, evque.que, false;
      while thr[t].evque.que[i] != []
        invariant OnlyQueueOf(old(thr), t) && MasksSized(thr)
        invariant |thr[t].evque.que| == NR_EVENT && thr[t].evque == q.(que := q.que[i := thr[t].evque.que[i]])
        invariant QueueOk(evque) && |evque.que| == NR_EVENT && Ledger() && |status| == |thr|
        invariant Told(hist, evque, thr)
        invariant evque.que == mine[i := evque.que[i]]
        invariant evque.que[i] + Kept(thr[t].evque.que[i], t == master) == mine[i] + Kept(q.que[i], t == master)
        invariant kept || Kept(thr[t].evque.que[i], t == master) != [] <==> Kept(q.que[i], t == master) != []
        invariant forall u :: 0 <= u < |thr| ==> status[u] == Woken(old(status)[u], !kept || Test(thr[u].masks, i))
        invariant forall e :: e in thr[t].evque.que[i] ==> e.no == i
        decreases |thr[t].evque.que[i]|
      {
        var forwarded := Forward(t, i);
        kept := kept || forwarded;
      }
      assert evque.que[i] + [] == evque.que[i];
      UnsetOk(q, i);
      SlotWith(old(thr[t]), EventQueue(MaskUnset(q.events, i), q.que[i := []]));
      ClearBit(t, i);
    }

    /** Line 262: the pending bit of the emptied queue is cleared. */
    method ClearBit(t: nat, i: nat)
      requires t < |thr| && i < NR_EVENT && |thr[t].evque.events| == MAP_LEN && Ledger() && Told(hist, evque, thr)
      modifies this`thr
      ensures var q := old(thr[t].evque);
        thr == old(thr)[t := old(thr[t]).(evque := q.(events := MaskUnset(q.events, i)))]
      ensures Ledger() && Told(hist, evque, thr)
    {
      hide Balanced, PendingOf, MaskUnset, Told;
      ghost var before := thr;
      ToldSame(hist, evque, thr, t, thr[t].(evque := thr[t].evque.(events := MaskUnset(thr[t].evque.events, i))));
      thr := thr[t := thr[t].(evque := thr[t].evque.(events := MaskUnset(thr[t].evque.events, i)))];
      SamePending(evque, before, thr, t);
    }

    /** Lines 242-259: one event is dropped or goes on to the process. */
    method Forward(t: nat, i: nat) returns (forwarded: bool)
      requires t < |thr| && i < |thr[t].evque.que| && thr[t].evque.que[i] != []
      requires thr[t].evque.que[i][0].no == i < NR_EVENT
      requires QueueOk(evque) && Ledger() && Told(hist, evque, thr) && |status| == |thr| && MasksSized(thr)
      modifies this`evque, this`thr, this`status, this`dropped, this`hist
      ensures QueueOk(evque) && Ledger() && Told(hist, evque, thr) && |evque.que| == NR_EVENT == |old(evque.que)|
      ensures var q := old(thr[t].evque);
        thr == old(thr)[t := old(thr[t]).(evque := q.(que := q.que[i := q.que[i][1..]]))]
      ensures evque.que == old(evque.que)[i := evque.que[i]]
      ensures var li := old(thr[t].evque.que[i]);
        && evque.que[i] + Kept(li[1..], t == master) == old(evque.que)[i] + Kept(li, t == master)
        && (forwarded || Kept(li[1..], t == master) != [] <==> Kept(li, t == master) != [])
      ensures |status| == |thr| && MasksSized(thr)
      ensures forall u :: 0 <= u < |thr| ==> status[u] == Woken(old(status)[u], !forwarded || Test(thr[u].masks, i))
    {
      hide QueueOk, Ledger, All, Test, MaskUnset, MaskSet, MasksSized, Told;
      KillSize(evque);
      ghost var mine := evque.que;
      var li := thr[t].evque.que[i];
      forwarded := !(t == master || li[0].threadSpecific);
      SameSized(thr, t, thr[t].(evque := thr[t].evque.(que := thr[t].evque.que[i := li[1..]])));
      if forwarded { PassOn(t, i); } else { Drop(t, i); }
      KillSize(evque);
      KeptStep(mine[i], li, t == master);
    }

    /** The first event of the number leaves the thread's queue and is dropped. */
    method Drop(t: nat, i: nat)
      requires t < |thr| && i < |thr[t].evque.que| && thr[t].evque.que[i] != [] && Ledger()
      requires thr[t].evque.que[i][0].no == i < NR_EVENT && Told(hist, evque, thr)
      modifies this`thr, this`dropped, this`hist
      ensures Ledger() && Told(hist, evque, thr) && hist == ThrOut(old(hist), t, old(thr[t].evque.que[i][0]))
      ensures var q := old(thr[t].evque);
        thr == old(thr)[t := old(thr[t]).(evque := q.(que := q.que[i := q.que[i][1..]]))]
    {
      hide Balanced, PendingOf, All, Told;
      ghost var p := Pending();
      var q := thr[t].evque;
      var rest := q.(que := q.que[i := q.que[i][1..]]);
      ToldThrOut(hist, evque, thr, t, q.que[i][0], thr[t].(evque := rest));
      hist := ThrOut(hist, t, q.que[i][0]);
      PopAll(q, i);
      PendingLess(evque, thr, t, rest, q.que[i][0]);
      thr := thr[t := thr[t].(evque := rest)];
      TakeBalance(sent, delivered, dropped, p, Pending(), q.que[i][0]);
      dropped := dropped + multiset{q.que[i][0]};
    }

    /** The first event of the number moves from the thread's queue to that of the process. */
    method PassOn(t: nat, i: nat)
      requires t < |thr| && i < |thr[t].evque.que| && thr[t].evque.que[i] != [] && Ledger()
      requires thr[t].evque.que[i][0].no == i < NR_EVENT
      requires QueueOk(evque) && |status| == |thr| && MasksSized(thr) && Told(hist, evque, thr)
      modifies this`evque, this`thr, this`status, this`hist
      ensures Told(hist, evque, thr)
      ensures hist == ProcIn(ThrOut(old(hist), t, old(thr[t].evque.que[i][0])), old(thr[t].evque.que[i][0]))
      ensures QueueOk(evque) && Ledger() && |evque.que| == NR_EVENT == |old(evque.que)|
      ensures var q := old(thr[t].evque);
        thr == old(thr)[t := old(thr[t]).(evque := q.(que := q.que[i := q.que[i][1..]]))]
      ensures evque.que == old(evque.que)[i := old(evque.que)[i] + [old(thr[t].evque.que[i][0])]]
      ensures |status| == |thr| && MasksSized(thr)
      ensures forall u :: 0 <= u < |thr| ==> status[u] == Woken(old(status)[u], Test(thr[u].masks, i))
    {
      hide QueueOk, PendingOf, All, Test, MaskSet, MasksSized, Told;
      KillSize(evque);
      var q := thr[t].evque;
      var node, rest := q.que[i][0], q.(que := q.que[i := q.que[i][1..]]);
      ToldThrOut(hist, evque, thr, t, node, thr[t].(evque := rest));
      ToldProcIn(ThrOut(hist, t, node), evque, thr[t := thr[t].(evque := rest)], node, Events.Sent(evque, node));
      hist := ProcIn(ThrOut(hist, t, node), node);
      PopAll(q, i);
      PendingLess(evque, thr, t, rest, node);
      SameSized(thr, t, thr[t].(evque := rest));
      thr := thr[t := thr[t].(evque := rest)];
      SentOk(evque, node);
      PendingProc(Events.Sent(evque, node), evque, thr, node);
      evque := Events.Sent(evque, node);
      WakeThreads(i);
    }
  }

  lemma SameSized(thr: seq<Slot>, t: nat, s: Slot)
    requires MasksSized(thr) && t < |thr| && s.masks == thr[t].masks
    ensures MasksSized(thr[t := s])
  {
  }

  lemma KeptStep(mine: seq<Event>, li: seq<Event>, master: bool)
    requires li != []
    ensures var kept := !master && !li[0].threadSpecific; var rest := Kept(li[1..], master);
      && (if kept then mine + [li[0]] else mine) + rest == mine + Kept(li, master)
      && (kept || rest != [] <==> Kept(li, master) != [])
  {
    var rest := Kept(li[1..], master);
    if !master && !li[0].threadSpecific {
      assert Kept(li, master) == [li[0]] + rest;
      Assoc2(mine, li[0], rest);
    } else {
      assert Kept(li, master) == rest;
    }
  }

  lemma Assoc2(a: seq<Event>, e: Event, b: seq<Event>)
    ensures (a + [e]) + b == a + ([e] + b)
  {
  }

  /** A KILL event sent to a waiting thread ends the wait, but is never handed to the thread. */
  method KillNeverArrives(kill: Event) returns (p: Process, handled: seq<Event>)
    requires kill.no == KILL
    ensures fresh(p) && |p.thr| == 1 && p.status == [Running] && handled == [] && Kills(p.thr[0].evque) == [kill]
  {
    hide All, Balanced, PendingOf, Due;
    p := new Process(0);
    p.AddThread(false, [{}, {}]);
    p.status := [WaitKillable];
    var r := p.SendThread(0, kill);
    assert r.Accepted? && p.status == [Running];
    OnlyKills(p.evque, p.thr[0].masks);
    OnlyKills(p.thr[0].evque, p.thr[0].masks);
    handled := p.Drain(0);
  }

  /** Two events of one number sent to a thread are handed out in the order in which they were sent. */
  method TwoInOrder(a: Event, b: Event) returns (handled: seq<Event>)
    requires a.no == b.no < NR_EVENT && a.no != KILL
    ensures handled == [a, b]
  {
    hide Process.Valid, Due, Test, Woken;
    var p := new Process(0);
    p.AddThread(false, [{}, {}]);
    var r := p.SendThread(0, a);
    r := p.SendThread(0, b);
    assert p.thr[0].evque.que[a.no] == [] + [a] + [b] == [a, b];
    NotMasked(a.no);
    OnlyKills(p.evque, p.thr[0].masks);
    OnlyNumber(p.thr[0].evque, p.thr[0].masks, a.no);
    handled := p.Drain(0);
    assert [] + [a, b] == [a, b];
  }

  lemma NotMasked(id: nat)
    requires id < NR_EVENT
    ensures !Test([{}, {}], id)
  {
  }

  lemma OnlyNumber(q: EventQueue, masks: Mask, id: nat)
    requires |q.que| == NR_EVENT && |masks| == MAP_LEN && id < NR_EVENT && id != KILL && !Test(masks, id)
    requires forall k :: 0 <= k < NR_EVENT && k != id ==> q.que[k] == []
    ensures Due(q, masks) == q.que[id]
  {
    UpTo(q.que, masks, id, NR_EVENT);
  }

  lemma {:induction false} UpTo(que: seq<seq<Event>>, masks: Mask, id: nat, n: nat)
    requires |que| == NR_EVENT && |masks| == MAP_LEN && id < NR_EVENT && id != KILL && !Test(masks, id)
    requires forall k :: 0 <= k < NR_EVENT && k != id ==> que[k] == []
    requires n <= NR_EVENT
    ensures Deliverable(que, masks, n) == if id < n then que[id] else []
  {
    hide Test, Deliverable;
    if n > 0 {
      DeliverStep(que, masks, n);
      UpTo(que, masks, id, n - 1);
    } else {
      DeliverNone(que, masks);
    }
  }

  lemma OnlyKills(q: EventQueue, masks: Mask)
    requires |q.que| == NR_EVENT && |masks| == MAP_LEN && forall k :: 0 <= k < NR_EVENT && k != KILL ==> q.que[k] == []
    ensures Due(q, masks) == []
  {
    NothingBefore(q.que, masks, NR_EVENT);
  }

  lemma NumberOk(q: EventQueue, i: nat)
    requires QueueOk(q) && i < NR_EVENT
    ensures |q.events| == MAP_LEN && |q.que| == NR_EVENT && forall e :: e in q.que[i] ==> e.no == i
  {
  }

  lemma PopAll(q: EventQueue, i: nat)
    requires i < |q.que| && q.que[i] != []
    ensures All(q) == All(q.(que := q.que[i := q.que[i][1..]])) + multiset{q.que[i][0]}
  {
    hide AllBelow;
    var e, rest := q.que[i][0], q.que[i][1..];
    AllUpdate(q.que, i, rest, |q.que|);
    assert q.que[i] == [e] + rest;
    assert multiset(q.que[i]) == multiset(rest) + multiset{e};
    Cancel(All(q), multiset(rest), All(q.(que := q.que[i := rest])), multiset{e});
  }

  lemma UnsetOk(q: EventQueue, i: nat)
    requires QueueOk(q) && i < NR_EVENT
    ensures QueueOk(EventQueue(MaskUnset(q.events, i), q.que[i := []]))
  {
    hide Test, MaskUnset;
  }

  /** The pending bits do not count. */
  lemma SamePending(q: EventQueue, thr: seq<Slot>, thr': seq<Slot>, t: nat)
    requires |thr| == |thr'| && t < |thr| && thr' == thr[t := thr'[t]] && thr'[t].evque.que == thr[t].evque.que
    ensures PendingOf(q, thr') == PendingOf(q, thr)
  {
    PendingUpdate(thr, t, thr'[t], |thr|);
    Cancel(PendingBelow(thr', |thr|), All(thr[t].evque), PendingBelow(thr, |thr|), multiset{});
  }

  lemma {:induction false} PendingPrefix(thr: seq<Slot>, thr': seq<Slot>, n: nat)
    requires n <= |thr| <= |thr'| && forall i :: 0 <= i < n ==> thr'[i] == thr[i]
    ensures PendingBelow(thr', n) == PendingBelow(thr, n)
  {
    if n > 0 { PendingPrefix(thr, thr', n - 1); }
  }

  lemma KillSame(q: EventQueue, q': EventQueue)
    requires QueueOk(q) && QueueOk(q') && q.que[KILL] == q'.que[KILL]
    ensures Kills(q) == Kills(q')
  {
  }

  lemma SlotQueue(s: Slot)
    requires SlotOk(s)
    ensures QueueOk(s.evque) && |s.masks| == MAP_LEN && |s.evque.que| == NR_EVENT && |s.evque.events| == MAP_LEN
  {
  }

  lemma SlotWith(s: Slot, q: EventQueue)
    requires SlotOk(s) && QueueOk(q)
    ensures SlotOk(s.(evque := q))
  {
  }

  lemma Assoc(e: Event, a: seq<Event>, a': seq<Event>, b: seq<Event>)
    requires a == [e] + a'
    ensures a + b == [e] + (a' + b)
  {
  }

  lemma KillSize(q: EventQueue)
    requires QueueOk(q)
    ensures |q.que| == NR_EVENT && |q.events| == MAP_LEN
  {
  }
}
