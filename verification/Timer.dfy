/** The callout queue of the timer: a red-black tree keyed by expiry tick. */
module Timer {
  import opened RbSpec
  import opened RbTree

  /** The callouts of s that are due (or not yet due) at `tick`. */
  ghost function Due(s: seq<Node>, tick: int, due: bool): seq<Node> {
    if s == [] then []
    else
      var n := |s| - 1;
      Due(s[..n], tick, due) + (if (s[n].key <= tick) == due then [s[n]] else [])
  }

  lemma DueStep(s: seq<Node>, i: nat, tick: int, due: bool)
    requires i < |s|
    ensures Due(s[..i + 1], tick, due) == Due(s[..i], tick, due) + (if (s[i].key <= tick) == due then [s[i]] else [])
  {
    assert s[..i + 1][..i] == s[..i];
  }

  /** In an ordered queue the due callouts are a prefix. */
  lemma {:induction false} DuePrefix(s: seq<Node>, tick: int)
    requires Ordered(s)
    ensures Due(s, tick, true) + Due(s, tick, false) == s
    ensures s != [] && s[|s| - 1].key <= tick ==> Due(s, tick, false) == []
  {
    if s != [] {
      var n := |s| - 1;
      DuePrefix(s[..n], tick);
      assert s == s[..n] + [s[n]];
      if n > 0 { assert s[..n][n - 1].key < s[n].key; }
    }
  }

  lemma {:induction false} DueMembers(s: seq<Node>, tick: int, due: bool)
    ensures forall n :: n in Due(s, tick, due) ==> (n.key <= tick) == due
  {
    if s != [] { DueMembers(s[..|s| - 1], tick, due); }
  }

  /** _tim_invoke_callout: every due callout is taken out and invoked once, in ascending order of expiry. */
  method InvokeCallout(queue: Head, curTick: int) returns (fired: seq<Node>)
    requires queue.Valid()
    modifies queue, queue.nodes
    ensures queue.Valid()
    ensures fired + Inorder(queue.tree) == old(Inorder(queue.tree))
    ensures forall n :: n in fired ==> n.key <= curTick
    ensures forall n :: n in queue.nodes ==> n.key > curTick
  {
    hide Inorder, Set, Ordered, Due, Head.Valid;
    ghost var s, i := Inorder(queue.tree), 0;
    fired := [];
    DueNone(curTick);
    QueueFacts(queue);
    assert s[..0] == [] && s[0..] == s && [] + s == s;
    var ref := queue.Min();
    while ref != null
      invariant queue.Valid() && queue.nodes <= old(queue.nodes)
      invariant 0 <= i <= |s| && ref == First(s[i..]) && (ref != null ==> ref in queue.nodes)
      invariant fired == Due(s[..i], curTick, true)
      invariant Inorder(queue.tree) == Due(s[..i], curTick, false) + s[i..]
      decreases |s| - i
    {
      ghost var kept, rest := Due(s[..i], curTick, false), s[i + 1..];
      Regrouped(kept, s, i);
      DueStep(s, i, curTick, true);
      DueStep(s, i, curTick, false);
      var next, due := Visit(queue, ref, curTick, kept, rest);
      if due { fired := fired + [ref]; }
      i := i + 1;
      ref := next;
    }
    QueueFacts(queue);
    SweepDone(s, i, curTick, queue.tree);
  }

  lemma Regrouped(kept: seq<Node>, s: seq<Node>, i: nat)
    requires i < |s|
    ensures kept + s[i..] == kept + [s[i]] + s[i + 1..] && First(s[i..]) == s[i]
  {
    assert s[i..] == [s[i]] + s[i + 1..];
  }

  /** Once the whole queue has been visited, the due callouts and the tree are the old queue. */
  lemma SweepDone(s: seq<Node>, i: nat, tick: int, t: Tree)
    requires Ordered(s) && i <= |s| && First(s[i..]) == null
    requires Inorder(t) == Due(s[..i], tick, false) + s[i..]
    ensures Due(s[..i], tick, true) + Inorder(t) == s
    ensures forall n :: n in Due(s[..i], tick, true) ==> n.key <= tick
    ensures forall n :: n in Set(t) ==> n.key > tick
  {
    hide Inorder, Set, Due, Ordered;
    assert i == |s| && s[..i] == s && s[i..] == [];
    DuePrefix(s, tick);
    DueMembers(s, tick, true);
    DueMembers(s, tick, false);
    InorderSet(t);
  }

  lemma QueueFacts(queue: Head)
    requires queue.Valid()
    ensures Ordered(Inorder(queue.tree)) && Set(queue.tree) == queue.nodes
  {
  }

  /** The body of the loop, lines 208-215: the successor is saved before the node is unlinked. */
  method Visit(queue: Head, ref: Node, curTick: int, ghost kept: seq<Node>, ghost rest: seq<Node>)
    returns (next: Node?, due: bool)
    requires queue.Valid() && ref in queue.nodes && Inorder(queue.tree) == kept + [ref] + rest
    modifies queue, queue.nodes
    ensures queue.Valid() && queue.nodes <= old(queue.nodes)
    ensures due == (ref.key <= curTick) && next == First(rest) && (next != null ==> next in queue.nodes)
    ensures Inorder(queue.tree) == kept + (if due then [] else [ref]) + rest
  {
    hide Inorder, Whole, Set, RedBlack, Ordered, Follows, Without;
    next := queue.Next(ref);
    FollowsUnique(kept, ref, rest, next);
    due := ref.key <= curTick;
    if due {
      queue.Remove(ref);
      WithoutUnique(kept, ref, rest, Inorder(queue.tree));
      assert kept + [] == kept;
    }
  }

  lemma DueNone(tick: int)
    ensures Due([], tick, true) == [] && Due([], tick, false) == []
  {
  }

  /** The insertion in tim_wait: its assertion holds if and only if no queued callout has the same expiry. */
  method QueueCallout(queue: Head, cb: Node) returns (asserted: bool)
    requires queue.Valid() && cb !in queue.nodes
    modifies queue, queue.nodes, cb
    ensures queue.Valid()
    ensures asserted <==> forall n :: n in old(queue.nodes) ==> n.key != cb.key
    ensures queue.nodes == if asserted then old(queue.nodes) + {cb} else old(queue.nodes)
  {
    var cbp := queue.Insert(cb);
    asserted := cbp == null;
  }

  /** Two threads that wait until the same tick: the second one fails the assertion. */
  method SameTick(tick: int) returns (first: bool, second: bool)
    ensures first && !second
  {
    var queue := new Head();
    var a := new Node(tick);
    var b := new Node(tick);
    first := QueueCallout(queue, a);
    second := QueueCallout(queue, b);
  }
}
