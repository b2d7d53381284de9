/** Pending and masked event numbers, and the queues of events per number. */
module Events {
  import opened Common

  const NR_EVENT := 128
  const MAP_LEN := 2
  const WORD := 64
  const KILL := 9            // EV_SIG_KILL

  /** A 128-bit mask as two words, each the set of its bit positions. */
  type Mask = seq<set<nat>>

  datatype Event = Event(no: nat, seqNo: nat, threadSpecific: bool)

  ghost predicate MaskOk(m: Mask) {
    |m| == MAP_LEN && forall i, b :: 0 <= i < MAP_LEN && b in m[i] ==> b < WORD
  }

  /** ev_mask_test */
  predicate Test(m: Mask, id: nat)
    requires |m| == MAP_LEN && id < NR_EVENT
  {
    id % WORD in m[id / WORD]
  }

  /** ev_mask_set: the number that cannot be masked is skipped */
  function MaskSet(m: Mask, id: nat): (r: Mask)
    requires |m| == MAP_LEN && id < NR_EVENT
    ensures |r| == MAP_LEN && forall k: nat :: k < NR_EVENT ==> (Test(r, k) <==> Test(m, k) || (k == id && id != KILL))
    ensures MaskOk(m) ==> MaskOk(r)
  {
    if id == KILL then m else
    var r := m[id / WORD := m[id / WORD] + {id % WORD}];
    assert forall k: nat :: k < NR_EVENT ==> k == WORD * (k / WORD) + k % WORD;
    r
  }

  /** ev_mask_unset */
  function MaskUnset(m: Mask, id: nat): (r: Mask)
    requires |m| == MAP_LEN && id < NR_EVENT
    ensures |r| == MAP_LEN && forall k: nat :: k < NR_EVENT ==> (Test(r, k) <==> Test(m, k) && k != id)
    ensures MaskOk(m) ==> MaskOk(r)
  {
    var r := m[id / WORD := m[id / WORD] - {id % WORD}];
    assert forall k: nat :: k < NR_EVENT ==> k == WORD * (k / WORD) + k % WORD;
    r
  }

  function Xor(m: Mask, n: Mask): (r: Mask)
    requires |m| == MAP_LEN && |n| == MAP_LEN
    ensures |r| == MAP_LEN
  {
    seq(MAP_LEN, i requires 0 <= i < MAP_LEN => (m[i] - n[i]) + (n[i] - m[i]))
  }

  function And(m: Mask, n: Mask): (r: Mask)
    requires |m| == MAP_LEN && |n| == MAP_LEN
    ensures |r| == MAP_LEN
  {
    seq(MAP_LEN, i requires 0 <= i < MAP_LEN => m[i] * n[i])
  }

  /** The two mask operations of the dequeue leave the pending numbers that are not masked. */
  lemma DeliverMask(events: Mask, masks: Mask, id: nat)
    requires |events| == MAP_LEN && |masks| == MAP_LEN && id < NR_EVENT
    ensures Test(And(events, Xor(events, masks)), id) <==> Test(events, id) && !Test(masks, id)
  {
  }

  /** ev_mask_find_first_bit; NR_EVENT when there is none */
  method FindFirstBit(m: Mask) returns (id: nat)
    requires |m| == MAP_LEN
    ensures id <= NR_EVENT && (id < NR_EVENT ==> Test(m, id))
    ensures forall k: nat :: k < id && k < NR_EVENT ==> !Test(m, k)
  {
    var i := 0;
    while i < MAP_LEN
      invariant 0 <= i <= MAP_LEN
      invariant forall k: nat :: k < WORD * i && k < NR_EVENT ==> !Test(m, k)
    {
      var j := 0;
      while j < WORD
        invariant 0 <= j <= WORD
        invariant forall k: nat :: k < WORD * i + j && k < NR_EVENT ==> !Test(m, k)
      {
        assert (WORD * i + j) / WORD == i && (WORD * i + j) % WORD == j;
        if j in m[i] { return i * WORD + j; }
        j := j + 1;
      }
      i := i + 1;
    }
    return NR_EVENT;
  }

  // ---- Queues ----

  datatype EventQueue = EventQueue(events: Mask, que: seq<seq<Event>>)

  /** A pending bit is set exactly when its queue is not empty, for every number but KILL, whose bit is never set. */
  ghost predicate QueueOk(q: EventQueue) {
    && MaskOk(q.events) && |q.que| == NR_EVENT
    && (forall id :: 0 <= id < NR_EVENT ==> (Test(q.events, id) <==> id != KILL && q.que[id] != []))
    && (forall id, e :: 0 <= id < NR_EVENT && e in q.que[id] ==> e.no == id)
  }

  /** What can be delivered under a mask: the numbers below n that are not masked, in ascending order, each queue in
      order. */
  ghost function Deliverable(que: seq<seq<Event>>, masks: Mask, n: nat): seq<Event>
    requires |que| == NR_EVENT && |masks| == MAP_LEN && n <= NR_EVENT
  {
    if n == 0 then [] else
    Deliverable(que, masks, n - 1) + Part(que, masks, n - 1)
  }

  ghost function Part(que: seq<seq<Event>>, masks: Mask, id: nat): seq<Event>
    requires |que| == NR_EVENT && |masks| == MAP_LEN && id < NR_EVENT
  {
    if id != KILL && !Test(masks, id) then que[id] else []
  }

  lemma DeliverNone(que: seq<seq<Event>>, masks: Mask)
    requires |que| == NR_EVENT && |masks| == MAP_LEN
    ensures Deliverable(que, masks, 0) == []
  {
  }

  lemma DeliverStep(que: seq<seq<Event>>, masks: Mask, n: nat)
    requires |que| == NR_EVENT && |masks| == MAP_LEN && 0 < n <= NR_EVENT
    ensures Deliverable(que, masks, n) == Deliverable(que, masks, n - 1) + Part(que, masks, n - 1)
  {
  }

  /** The events of a queue in the order in which they can be delivered. */
  ghost function Due(q: EventQueue, masks: Mask): seq<Event> {
    if |q.que| == NR_EVENT && |masks| == MAP_LEN then Deliverable(q.que, masks, NR_EVENT) else []
  }

  /** All events below n, as a multiset. */
  ghost function AllBelow(que: seq<seq<Event>>, n: nat): multiset<Event>
    requires n <= |que|
  {
    if n == 0 then multiset{} else AllBelow(que, n - 1) + multiset(que[n - 1])
  }

  ghost function All(q: EventQueue): multiset<Event> { AllBelow(q.que, |q.que|) }

  lemma {:induction false} NothingBefore(que: seq<seq<Event>>, masks: Mask, n: nat)
    requires |que| == NR_EVENT && |masks| == MAP_LEN && n <= NR_EVENT
    requires forall k: nat :: k < n && k != KILL && !Test(masks, k) ==> que[k] == []
    ensures Deliverable(que, masks, n) == []
  {
    hide Deliverable, Test;
    if n > 0 {
      DeliverStep(que, masks, n);
      NothingBefore(que, masks, n - 1);
    } else {
      DeliverNone(que, masks);
    }
  }

  lemma {:induction false} TakeFirst(que: seq<seq<Event>>, masks: Mask, id: nat, n: nat)
    requires |que| == NR_EVENT && |masks| == MAP_LEN && id < n <= NR_EVENT
    requires id != KILL && !Test(masks, id) && que[id] != []
    requires forall k: nat :: k < id && k != KILL && !Test(masks, k) ==> que[k] == []
    ensures Deliverable(que, masks, n) == [que[id][0]] + Deliverable(que[id := que[id][1..]], masks, n)
  {
    hide Test, Deliverable;
    var que' := que[id := que[id][1..]];
    DeliverStep(que, masks, n);
    DeliverStep(que', masks, n);
    if n == id + 1 {
      NothingBefore(que, masks, id);
      NothingBefore(que', masks, id);
      assert que[id] == [que[id][0]] + que[id][1..];
    } else {
      TakeFirst(que, masks, id, n - 1);
      assert Part(que', masks, n - 1) == Part(que, masks, n - 1);
    }
  }

  /** An event is delivered under a mask exactly when its number is neither masked nor KILL. */
  lemma DueExactly(q: EventQueue, masks: Mask, e: Event)
    requires QueueOk(q) && |masks| == MAP_LEN && e.no < NR_EVENT && e in q.que[e.no]
    ensures e in Due(q, masks) <==> e.no != KILL && !Test(masks, e.no)
  {
    DueBelow(q, masks, e, NR_EVENT);
  }

  lemma {:induction false} DueBelow(q: EventQueue, masks: Mask, e: Event, n: nat)
    requires QueueOk(q) && |masks| == MAP_LEN && e.no < NR_EVENT && e in q.que[e.no] && n <= NR_EVENT
    ensures e in Deliverable(q.que, masks, n) <==> e.no < n && e.no != KILL && !Test(masks, e.no)
  {
    if n > 0 { DueBelow(q, masks, e, n - 1); }
  }

  lemma {:induction false} AllUpdate(que: seq<seq<Event>>, id: nat, s: seq<Event>, n: nat)
    requires id < |que| && n <= |que|
    ensures id >= n ==> AllBelow(que[id := s], n) == AllBelow(que, n)
    ensures id < n ==> AllBelow(que[id := s], n) + multiset(que[id]) == AllBelow(que, n) + multiset(s)
  {
    if n > 0 {
      AllUpdate(que, id, s, n - 1);
      if id < n - 1 {
        Exchange(AllBelow(que, n - 1), AllBelow(que[id := s], n - 1), multiset(que[n - 1]), multiset(que[id]),
                 multiset(s));
      }
    }
  }

  /** Putting an event at the end of its queue and setting its bit (ev_send, ev_send_to_process). */
  function Sent(q: EventQueue, e: Event): EventQueue
    requires |q.events| == MAP_LEN && |q.que| == NR_EVENT && e.no < NR_EVENT
  {
    EventQueue(MaskSet(q.events, e.no), q.que[e.no := q.que[e.no] + [e]])
  }

  lemma SentOk(q: EventQueue, e: Event)
    requires QueueOk(q) && e.no < NR_EVENT
    ensures QueueOk(Sent(q, e)) && All(Sent(q, e)) == All(q) + multiset{e}
    ensures Sent(q, e).que == q.que[e.no := q.que[e.no] + [e]]
  {
    hide AllBelow, MaskSet, Test;
    var s := q.que[e.no] + [e];
    AllUpdate(q.que, e.no, s, NR_EVENT);
    assert multiset(s) == multiset(q.que[e.no]) + multiset{e};
    Cancel(All(Sent(q, e)), multiset(q.que[e.no]), All(q), multiset{e});
  }

  // ---- First in, first out ----

  /** Per number: what went in is what came out followed by what is still queued. */
  ghost predicate Fifo(inn: seq<seq<Event>>, out: seq<seq<Event>>, que: seq<seq<Event>>) {
    |inn| == |out| == |que| == NR_EVENT && forall i :: 0 <= i < NR_EVENT ==> inn[i] == out[i] + que[i]
  }

  lemma FifoPut(inn: seq<seq<Event>>, out: seq<seq<Event>>, que: seq<seq<Event>>, no: nat, e: Event)
    requires Fifo(inn, out, que) && no < NR_EVENT
    ensures Fifo(inn[no := inn[no] + [e]], out, que[no := que[no] + [e]])
  {
  }

  lemma FifoTake(inn: seq<seq<Event>>, out: seq<seq<Event>>, que: seq<seq<Event>>, no: nat)
    requires Fifo(inn, out, que) && no < NR_EVENT && que[no] != []
    ensures Fifo(inn, out[no := out[no] + [que[no][0]]], que[no := que[no][1..]])
  {
    assert que[no] == [que[no][0]] + que[no][1..];
  }

  lemma Exchange(a: multiset<Event>, a': multiset<Event>, x: multiset<Event>, y: multiset<Event>, z: multiset<Event>)
    requires a' + y == a + z
    ensures (a' + x) + y == (a + x) + z
  {
    assert (a' + x) + y == (a' + y) + x;
  }

  lemma Cancel(a: multiset<Event>, b: multiset<Event>, c: multiset<Event>, d: multiset<Event>)
    requires a + b == c + (b + d)
    ensures a == c + d
  {
    forall x: Event
      ensures a[x] == (c + d)[x]
    {
      assert (a + b)[x] == (c + (b + d))[x];
    }
  }

  /** The queue after its first event with number id has been taken. */
  function Popped(q: EventQueue, id: nat): EventQueue
    requires |q.events| == MAP_LEN && |q.que| == NR_EVENT && id < NR_EVENT && q.que[id] != []
  {
    var rest := q.que[id][1..];
    EventQueue(if rest == [] then MaskUnset(q.events, id) else q.events, q.que[id := rest])
  }

  lemma PoppedOk(q: EventQueue, id: nat)
    requires QueueOk(q) && id < NR_EVENT && Test(q.events, id)
    ensures QueueOk(Popped(q, id)) && All(q) == All(Popped(q, id)) + multiset{q.que[id][0]}
  {
    hide AllBelow, MaskUnset, Test;
    var e, rest := q.que[id][0], q.que[id][1..];
    AllUpdate(q.que, id, rest, NR_EVENT);
    assert q.que[id] == [e] + rest;
    assert multiset(q.que[id]) == multiset(rest) + multiset{e};
    Cancel(All(q), multiset(rest), All(Popped(q, id)), multiset{e});
  }

  /** dequeue_from_evque_nolock: the next event in the order of Deliverable, or none exactly when nothing is
      deliverable */
  method DequeueFrom(q: EventQueue, masks: Mask) returns (r: Option<Event>, q': EventQueue)
    requires QueueOk(q) && |masks| == MAP_LEN
    ensures QueueOk(q')
    ensures match r
      case None => q' == q && Due(q, masks) == []
      case Some(e) =>
        && Due(q, masks) == [e] + Due(q', masks)
        && All(q) == All(q') + multiset{e} && e.no != KILL && q'.que[KILL] == q.que[KILL]
        && e.no < NR_EVENT && q.que[e.no] != [] && q.que[e.no][0] == e && q'.que == q.que[e.no := q.que[e.no][1..]]
  {
    hide AllBelow, Deliverable, And, Xor, Test;
    var deliver := And(q.events, Xor(q.events, masks));
    var id := FindFirstBit(deliver);
    forall k: nat | k < NR_EVENT
      ensures Test(deliver, k) <==> Test(q.events, k) && !Test(masks, k)
    {
      DeliverMask(q.events, masks, k);
    }
    if id == NR_EVENT {
      NothingBefore(q.que, masks, NR_EVENT);
      return None, q;
    }
    TakeFirst(q.que, masks, id, NR_EVENT);
    PoppedOk(q, id);
    r, q' := Some(q.que[id][0]), Popped(q, id);
  }
}
