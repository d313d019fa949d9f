/** Flattening of the call tree (first stage of `get_trace_operations`): a
    queue-driven breadth-first walk that pushes revert status and error
    messages from each node down to its children. */
module TraceFlatten {
  import opened Rosetta
  import opened EthTypes

  function Flat(t: Trace): FlatTrace {
    FlatTrace(t.from, t.to, t.value, t.kind, t.revert, t.error)
  }

  /** Number of nodes of a tree, and of a sequence of trees. */
  function Size(t: Trace): nat
    decreases t
  {
    1 + SizeAll(t.calls)
  }

  function SizeAll(ts: seq<Trace>): nat
    decreases ts
  {
    if ts == [] then 0 else Size(ts[0]) + SizeAll(ts[1..])
  }

  lemma {:induction false} SizeAllConcat(a: seq<Trace>, b: seq<Trace>)
    ensures SizeAll(a + b) == SizeAll(a) + SizeAll(b)
    decreases |a|
  {
    if a == [] {
      assert a + b == b;
    } else {
      assert (a + b)[0] == a[0];
      assert (a + b)[1..] == a[1..] + b;
      SizeAllConcat(a[1..], b);
    }
  }

  /** The nodes of a tree in pre-order depth-first order: the reference
      enumeration that the breadth-first order is compared against. */
  function Nodes(t: Trace): seq<FlatTrace>
    decreases t
  {
    [Flat(t)] + NodesAll(t.calls)
  }

  function NodesAll(ts: seq<Trace>): seq<FlatTrace>
    decreases ts
  {
    if ts == [] then [] else Nodes(ts[0]) + NodesAll(ts[1..])
  }

  lemma {:induction false} NodesAllConcat(a: seq<Trace>, b: seq<Trace>)
    ensures NodesAll(a + b) == NodesAll(a) + NodesAll(b)
    decreases |a|
  {
    if a == [] {
      assert a + b == b;
    } else {
      assert (a + b)[0] == a[0];
      assert (a + b)[1..] == a[1..] + b;
      NodesAllConcat(a[1..], b);
    }
  }

  /** Replacing the head of a work queue by its children removes one node. */
  lemma QueueShrinks(q: seq<Trace>)
    requires q != []
    ensures SizeAll(q[1..] + q[0].calls) == SizeAll(q) - 1
  {
    SizeAllConcat(q[1..], q[0].calls);
  }

  /** Breadth-first order of the forest `q`, read as a work queue: take the
      first tree, emit its root, append its children to the queue. */
  function Bfs(q: seq<Trace>): seq<FlatTrace>
    decreases SizeAll(q)
  {
    if q == [] then []
    else
      QueueShrinks(q);
      [Flat(q[0])] + Bfs(q[1..] + q[0].calls)
  }

  /** What a reverted parent passes to a child: revert, and its error message
      when the child has none of its own. */
  function Adjust(t: Trace, inherited: Option<string>): (r: Trace)
    ensures r.calls == t.calls
  {
    match inherited
    case None => t
    case Some(msg) => t.(revert := true, error := if t.error == "" then msg else t.error)
  }

  function InheritedBy(t: Trace): Option<string> {
    if t.revert then Some(t.error) else None
  }

  /** The tree after revert propagation, for a node whose parent passes it
      `inherited`. */
  function Propagate(t: Trace, inherited: Option<string>): Trace
    decreases t
  {
    var t' := Adjust(t, inherited);
    t'.(calls := seq(|t.calls|, i requires 0 <= i < |t.calls| =>
                       Propagate(t.calls[i], InheritedBy(t'))))
  }

  function PropagateAll(q: seq<Trace>): seq<Trace> {
    seq(|q|, i requires 0 <= i < |q| => Propagate(q[i], None))
  }

  /** Revert propagation has already happened: below a reverted node every
      child is reverted, and carries an error message if the node does. */
  ghost predicate Closed(t: Trace)
    decreases t
  {
    forall i :: 0 <= i < |t.calls| ==>
      && (t.revert ==> t.calls[i].revert && (t.error != "" ==> t.calls[i].error != ""))
      && Closed(t.calls[i])
  }

  lemma AdjustThenPropagate(t: Trace, inherited: Option<string>)
    ensures Propagate(Adjust(t, inherited), None) == Propagate(t, inherited)
  {
  }

  lemma {:induction false} PropagateRoot(t: Trace, inherited: Option<string>)
    ensures Flat(Propagate(t, inherited)) == Flat(Adjust(t, inherited))
    ensures Propagate(t, inherited).revert == (t.revert || inherited.Some?)
  {
  }

  /** Each child of a propagated node is reverted iff it or its (already
      propagated) parent is, and a child without an error message of its own
      takes the parent's, which may itself have been inherited. */
  lemma ChildInherits(t: Trace, inherited: Option<string>, i: nat)
    requires i < |t.calls|
    ensures var p := Propagate(t, inherited);
      && |p.calls| == |t.calls|
      && p.calls[i].revert == (t.calls[i].revert || p.revert)
      && p.calls[i].error
         == (if p.revert && t.calls[i].error == "" then p.error else t.calls[i].error)
      && p.calls[i].from == t.calls[i].from && p.calls[i].to == t.calls[i].to
      && p.calls[i].value == t.calls[i].value && p.calls[i].kind == t.calls[i].kind
  {
    PropagateRoot(t.calls[i], InheritedBy(Adjust(t, inherited)));
  }

  lemma {:induction false} PropagateSize(t: Trace, inherited: Option<string>)
    ensures Size(Propagate(t, inherited)) == Size(t)
    decreases t, 1
  {
    var p := Propagate(t, inherited);
    PropagateSizeAll(t.calls, InheritedBy(Adjust(t, inherited)), p.calls);
  }

  lemma {:induction false} PropagateSizeAll(cs: seq<Trace>, inherited: Option<string>, ps: seq<Trace>)
    requires |ps| == |cs|
    requires forall i :: 0 <= i < |cs| ==> ps[i] == Propagate(cs[i], inherited)
    ensures SizeAll(ps) == SizeAll(cs)
    decreases cs, 0
  {
    if cs != [] {
      PropagateSize(cs[0], inherited);
      PropagateSizeAll(cs[1..], inherited, ps[1..]);
    }
  }

  /** Propagation leaves a tree closed: every descendant of a reverted node
      is reverted, and a child without a message takes the parent's. */
  lemma {:induction false} PropagateCloses(t: Trace, inherited: Option<string>)
    ensures Closed(Propagate(t, inherited))
    decreases t
  {
    var t' := Adjust(t, inherited);
    var p := Propagate(t, inherited);
    forall i | 0 <= i < |p.calls|
      ensures (p.revert ==> p.calls[i].revert && (p.error != "" ==> p.calls[i].error != ""))
      ensures Closed(p.calls[i])
    {
      PropagateCloses(t.calls[i], InheritedBy(t'));
      PropagateRoot(t.calls[i], InheritedBy(t'));
    }
  }

  /** A closed tree is a fixed point of propagation; in particular
      propagation is idempotent, and a tree without reverted nodes is left
      as it is. */
  lemma {:induction false} ClosedIsFixedPoint(t: Trace)
    requires Closed(t)
    ensures Propagate(t, None) == t
    decreases t
  {
    var p := Propagate(t, None);
    forall i | 0 <= i < |t.calls|
      ensures p.calls[i] == t.calls[i]
    {
      var c := t.calls[i];
      assert Adjust(c, InheritedBy(t)) == c;
      AdjustThenPropagate(c, InheritedBy(t));
      ClosedIsFixedPoint(c);
    }
    assert p.calls == t.calls;
  }

  lemma PropagateIdempotent(t: Trace)
    ensures Propagate(Propagate(t, None), None) == Propagate(t, None)
  {
    PropagateCloses(t, None);
    ClosedIsFixedPoint(Propagate(t, None));
  }

  /** In a closed tree with a reverted root, every node is reverted; with a
      non-empty root message, every node has a non-empty message. */
  lemma {:induction false} ClosedRevertedEverywhere(t: Trace)
    requires Closed(t) && t.revert
    ensures forall x :: x in Nodes(t) ==> x.revert && (t.error != "" ==> x.error != "")
    decreases t, 1
  {
    ClosedRevertedAll(t.calls, t.error);
  }

  lemma {:induction false} ClosedRevertedAll(ts: seq<Trace>, msg: string)
    requires forall i :: 0 <= i < |ts| ==> Closed(ts[i]) && ts[i].revert && (msg != "" ==> ts[i].error != "")
    ensures forall x :: x in NodesAll(ts) ==> x.revert && (msg != "" ==> x.error != "")
    decreases ts, 0
  {
    if ts != [] {
      ClosedRevertedEverywhere(ts[0]);
      ClosedRevertedAll(ts[1..], msg);
    }
  }

  /** Breadth-first order lists every node exactly once. */
  lemma {:induction false} BfsLength(q: seq<Trace>)
    ensures |Bfs(q)| == SizeAll(q)
    decreases SizeAll(q)
  {
    if q != [] {
      QueueShrinks(q);
      BfsLength(q[1..] + q[0].calls);
    }
  }

  lemma {:induction false} BfsPermutesNodes(q: seq<Trace>)
    ensures multiset(Bfs(q)) == multiset(NodesAll(q))
    decreases SizeAll(q)
  {
    if q != [] {
      QueueShrinks(q);
      BfsPermutesNodes(q[1..] + q[0].calls);
      NodesAllConcat(q[1..], q[0].calls);
    }
  }

  lemma {:induction false} PropagateAllConcat(a: seq<Trace>, b: seq<Trace>)
    ensures PropagateAll(a + b) == PropagateAll(a) + PropagateAll(b)
  {
  }

  /** The children of `t` as the queue loop adjusts and enqueues them. */
  function AdjustedChildren(t: Trace): (r: seq<Trace>)
    ensures |r| == |t.calls|
  {
    seq(|t.calls|, k requires 0 <= k < |t.calls| => Adjust(t.calls[k], InheritedBy(t)))
  }

  /** One turn of the queue loop: emitting the head and enqueueing its
      adjusted children keeps the breadth-first order of the propagated
      queue, and removes one node from the queue. */
  lemma BfsStep(t: Trace, rest: seq<Trace>)
    ensures Bfs(PropagateAll([t] + rest)) == [Flat(t)] + Bfs(PropagateAll(rest + AdjustedChildren(t)))
    ensures SizeAll(rest + AdjustedChildren(t)) < SizeAll([t] + rest)
  {
    var children := AdjustedChildren(t);
    var p := Propagate(t, None);
    forall k | 0 <= k < |children|
      ensures PropagateAll(children)[k] == p.calls[k]
    {
      AdjustThenPropagate(t.calls[k], InheritedBy(t));
    }
    assert PropagateAll(children) == p.calls;
    PropagateAllConcat([t], rest);
    PropagateAllConcat(rest, children);
    var q := PropagateAll([t] + rest);
    assert q[0] == p && q[1..] == PropagateAll(rest);
    assert Bfs(q) == [Flat(p)] + Bfs(PropagateAll(rest) + p.calls);
    SizeAllConcat([t], rest);
    SizeAllConcat(rest, children);
    assert SizeAll([t]) == Size(t);
    PropagateSizeAll(t.calls, InheritedBy(t), p.calls);
    forall k | 0 <= k < |children|
      ensures Size(children[k]) == Size(t.calls[k])
    {
    }
    SizeAllSameSizes(children, t.calls);
  }

  lemma {:induction false} SizeAllSameSizes(a: seq<Trace>, b: seq<Trace>)
    requires |a| == |b| && forall k :: 0 <= k < |a| ==> Size(a[k]) == Size(b[k])
    ensures SizeAll(a) == SizeAll(b)
    decreases |a|
  {
    if a != [] {
      SizeAllSameSizes(a[1..], b[1..]);
    }
  }

  /** What the queue loop emits: the flattened entries in breadth-first
      order of the propagated tree. */
  function FlattenSpec(root: Trace): seq<FlatTrace> {
    Bfs([Propagate(root, None)])
  }

  /** The flattening has one entry per node of the tree and holds exactly
      its propagated nodes. The root comes first. Under a reverted root
      every entry is reverted, and carries an error message if the root
      does. */
  lemma FlattenSpecFacts(root: Trace)
    ensures |FlattenSpec(root)| == Size(root)
    ensures multiset(FlattenSpec(root)) == multiset(Nodes(Propagate(root, None)))
    ensures FlattenSpec(root)[0] == Flat(root)
    ensures root.revert ==> forall i :: 0 <= i < |FlattenSpec(root)| ==>
              FlattenSpec(root)[i].revert && (root.error != "" ==> FlattenSpec(root)[i].error != "")
  {
    var flat := FlattenSpec(root);
    var root' := Propagate(root, None);
    BfsLength([root']);
    PropagateSize(root, None);
    BfsPermutesNodes([root']);
    assert NodesAll([root']) == Nodes(root');
    if root.revert {
      PropagateCloses(root, None);
      forall i | 0 <= i < |flat|
        ensures flat[i].revert && (root.error != "" ==> flat[i].error != "")
      {
        assert flat[i] in multiset(Nodes(root'));
        ClosedRevertedEverywhere(root');
      }
    }
  }

  /** `get_trace_operations` lines flattening the tree: pop a node, adjust
      and enqueue its children, emit the node. */
  method Flatten(root: Trace) returns (flat: seq<FlatTrace>)
    ensures flat == FlattenSpec(root)
  {
    var queue := [root];
    flat := [];
    assert PropagateAll(queue) == [Propagate(root, None)];
    while queue != []
      invariant flat + Bfs(PropagateAll(queue)) == FlattenSpec(root)
      decreases SizeAll(queue)
    {
      var trace := queue[0];
      var rest := queue[1..];
      assert queue == [trace] + rest;
      queue := rest;
      var inherited := InheritedBy(trace);
      var i := 0;
      while i < |trace.calls|
        invariant 0 <= i <= |trace.calls|
        invariant queue == rest + AdjustedChildren(trace)[..i]
      {
        queue := queue + [Adjust(trace.calls[i], inherited)];
        i := i + 1;
      }
      assert AdjustedChildren(trace)[..i] == AdjustedChildren(trace);
      flat := flat + [Flat(trace)];
      BfsStep(trace, rest);
    }
  }
}
