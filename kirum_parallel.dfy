/** Parallel edges in `compute_lexicon` (libkirum/src/kirum.rs).  Calling
    `connect_etynmology` twice with the same pair adds two edges from the
    etymon to the lexis.  The loop over outgoing edges reads each edge from
    the snapshot but writes the derived word with `update_edge`, which
    stores it on the newest edge between the two nodes: the older edge's
    slot is never filled, every pass counts a change on it, and the wordless
    lexis never gets its word.  The corrected step writes each slot at its
    own edge, and the loop settles. */
module KirumParallel {
  import opened Wrappers
  import opened Words
  import opened Kirum

  /** A worded etymon `a` and a wordless lexis `b`, joined twice by the same
      transform. */
  function Parallel(a: Lexis, b: Lexis, t: Transform): Graph
  {
    Graph([a, b], [Edge(0, 1, t, None), Edge(0, 1, t, None)])
  }

  /** `n` iterations of the `while incomplete` loop. */
  function Passes(g: Graph, n: nat, step: Step): Graph
  {
    if n == 0 then g else Pass(Passes(g, n - 1, step), step).graph
  }

  /** The graph the as-written loop reaches: only the newer slot filled. */
  function Stuck(a: Lexis, b: Lexis, t: Transform, ops: WordOps): Graph
    requires a.word.Some?
  {
    Graph([a, b], [Edge(0, 1, t, None), Derived(Edge(0, 1, t, None), a.word.value, ops)])
  }

  /** Both edges leave node 0 and enter node 1, newest first. */
  lemma TwoEdgesAt(e: Edge, d: Edge)
    requires e.source == 0 && e.target == 1 && d.source == 0 && d.target == 1
    ensures EdgesAt([e, d], 0, true) == [1, 0]
    ensures EdgesAt([e, d], 1, false) == [1, 0]
  {
    assert [e, d][..1] == [e];
    assert [e][..0] == [];
    assert EdgesAt([e], 0, true) == [0] + EdgesAt([], 0, true);
    assert EdgesAt([e], 1, false) == [0] + EdgesAt([], 1, false);
    assert EdgesAt([e, d], 0, true) == [1] + EdgesAt([e], 0, true);
    assert EdgesAt([e, d], 1, false) == [1] + EdgesAt([e], 1, false);
  }

  /** As written, the etymon's step in the first pass writes the newer slot
      twice and counts two changes. */
  lemma FirstOutStep(a: Lexis, b: Lexis, t: Transform, ops: WordOps)
    requires a.word.Some? && b.word.None?
    ensures NodeStep(Parallel(a, b, t), 0, true, ops) == Outcome(Stuck(a, b, t, ops), 2)
  {
    var e := Edge(0, 1, t, None);
    var d := Derived(e, a.word.value, ops);
    TwoEdgesAt(e, e);
    var es: seq<nat> := [1, 0];
    assert es[..1] == [1] && [1][..0] == [];
    assert NewestEdge([e, e], 0, 1, 1) == 1;
    assert FillOut(a.word.value, [e, e], [1], true, ops) == Filled([e, d], 1);
    assert NewestEdge([e, d], 0, 1, 0) == 1;
  }

  /** As written, the etymon's step in every later pass writes the newer slot
      again and counts one change. */
  lemma LaterOutStep(a: Lexis, b: Lexis, t: Transform, ops: WordOps)
    requires a.word.Some? && b.word.None?
    ensures NodeStep(Stuck(a, b, t, ops), 0, true, ops) == Outcome(Stuck(a, b, t, ops), 1)
  {
    var e := Edge(0, 1, t, None);
    var d := Derived(e, a.word.value, ops);
    TwoEdgesAt(e, d);
    var es: seq<nat> := [1, 0];
    assert es[..1] == [1] && [1][..0] == [];
    assert FillOut(a.word.value, [e, d], [1], true, ops) == Filled([e, d], 0);
    assert NewestEdge([e, d], 0, 1, 0) == 1;
  }

  /** The lexis stays wordless: its older incoming slot is empty. */
  lemma InStepWaits(a: Lexis, b: Lexis, t: Transform, ops: WordOps)
    requires a.word.Some? && b.word.None?
    ensures NodeStep(Stuck(a, b, t, ops), 1, true, ops) == Outcome(Stuck(a, b, t, ops), 0)
  {
    var e := Edge(0, 1, t, None);
    var g1 := Stuck(a, b, t, ops);
    TwoEdgesAt(e, g1.edges[1]);
    var es: seq<nat> := [1, 0];
    assert !AllFilled(g1.edges, es) by {
      assert es[1] == 0 && g1.edges[0].word.None?;
    }
  }

  /** As written, the first pass counts two changes and reaches `Stuck`;
      every pass from `Stuck` counts one change and stays there. */
  lemma ParallelAsWritten(a: Lexis, b: Lexis, t: Transform, ops: WordOps)
    requires a.word.Some? && b.word.None?
    ensures Pass(Parallel(a, b, t), Stepper(true, ops)) == Outcome(Stuck(a, b, t, ops), 2)
    ensures Pass(Stuck(a, b, t, ops), Stepper(true, ops)) == Outcome(Stuck(a, b, t, ops), 1)
  {
    var step := Stepper(true, ops);
    FirstOutStep(a, b, t, ops);
    LaterOutStep(a, b, t, ops);
    InStepWaits(a, b, t, ops);
    var g, g1 := Parallel(a, b, t), Stuck(a, b, t, ops);
    assert PassUpTo(g, 1, step) == Outcome(g1, 2);
    assert PassUpTo(g1, 1, step) == Outcome(g1, 1);
  }

  /** A loop whose first pass reaches a graph it never leaves, each pass
      with changes, never sees a pass without changes. */
  lemma {:induction false} StuckForever(g: Graph, h: Graph, step: Step, n: nat)
    requires Pass(g, step).graph == h && Pass(g, step).changes > 0
    requires Pass(h, step).graph == h && Pass(h, step).changes > 0
    ensures n > 0 ==> Passes(g, n, step) == h
    ensures Pass(Passes(g, n, step), step).changes > 0
  {
    if n > 0 {
      StuckForever(g, h, step, n - 1);
    }
  }

  /** As written, no iteration of the loop makes zero changes: `incomplete`
      stays true and `compute_lexicon` never returns. */
  lemma ParallelNeverSettles(a: Lexis, b: Lexis, t: Transform, ops: WordOps, n: nat)
    requires a.word.Some? && b.word.None?
    ensures Pass(Passes(Parallel(a, b, t), n, Stepper(true, ops)), Stepper(true, ops)).changes > 0
  {
    ParallelAsWritten(a, b, t, ops);
    StuckForever(Parallel(a, b, t), Stuck(a, b, t, ops), Stepper(true, ops), n);
  }

  /** Corrected, the loop settles with both slots filled and the lexis given
      its word. */
  lemma ParallelSettles(a: Lexis, b: Lexis, t: Transform, ops: WordOps)
    requires a.word.Some? && b.word.None?
    ensures |Settle(Parallel(a, b, t), ops).nodes| == 2 && |Settle(Parallel(a, b, t), ops).edges| == 2
    ensures Settle(Parallel(a, b, t), ops).edges[0].word.Some?
    ensures Settle(Parallel(a, b, t), ops).edges[1].word.Some?
    ensures Settle(Parallel(a, b, t), ops).nodes[0] == a
    ensures Settle(Parallel(a, b, t), ops).nodes[1].word.Some?
  {
    var g := Parallel(a, b, t);
    SettleSpec(g, ops);
    SettledSlots(g, ops);
    var s := Settle(g, ops);
    assert s.nodes[0] == a;
    assert s.edges[0].source == 0 && s.edges[1].source == 0;
    assert s.edges[0].target == 1 && s.edges[1].target == 1;
    if s.nodes[1].word.None? {
      assert Quiet(s, 1);
    }
  }

  // ---------------------------------------------------------------------------
  // Without parallel edges the as-written loop is the corrected one
  // ---------------------------------------------------------------------------

  /** No two edges join the same two nodes in the same direction. */
  predicate NoParallel(edges: seq<Edge>)
  {
    forall i, j :: 0 <= i < j < |edges| ==> edges[i].source != edges[j].source || edges[i].target != edges[j].target
  }

  /** Filling slots keeps the endpoints, so it keeps the graph free of
      parallel edges. */
  lemma NoParallelSameEnds(a: seq<Edge>, b: seq<Edge>)
    requires SameEnds(a, b) && NoParallel(a)
    ensures NoParallel(b)
  {
  }

  /** Without parallel edges, `update_edge` writes to the edge being
      visited. */
  lemma NewestIsOwn(edges: seq<Edge>, a: nat, b: nat, e: nat)
    requires NoParallel(edges)
    requires e < |edges| && edges[e].source == a && edges[e].target == b
    ensures NewestEdge(edges, a, b, e) == e
  {
  }

  /** Without parallel edges, the loop over outgoing edges fills the same
      slots as written and corrected, and keeps every endpoint. */
  lemma {:induction false} FillOutAgrees(w: Word, snap: seq<Edge>, es: seq<nat>, ops: WordOps)
    requires forall i :: 0 <= i < |es| ==> es[i] < |snap|
    requires NoParallel(snap)
    ensures FillOut(w, snap, es, true, ops) == FillOut(w, snap, es, false, ops)
    ensures SameEnds(FillOut(w, snap, es, false, ops).edges, snap)
  {
    if es != [] {
      var k := |es| - 1;
      FillOutAgrees(w, snap, es[..k], ops);
      var prev := FillOut(w, snap, es[..k], false, ops);
      var e := es[k];
      if snap[e].word.None? {
        NoParallelSameEnds(snap, prev.edges);
        NewestIsOwn(prev.edges, snap[e].source, snap[e].target, e);
      }
    }
  }

  /** Without parallel edges, a node step is the same as written and
      corrected, and keeps every endpoint. */
  lemma NodeStepAgrees(g: Graph, n: nat, ops: WordOps)
    requires n < |g.nodes| && NoParallel(g.edges)
    ensures NodeStep(g, n, true, ops) == NodeStep(g, n, false, ops)
    ensures SameEnds(NodeStep(g, n, false, ops).graph.edges, g.edges)
  {
    if g.nodes[n].word.Some? {
      FillOutAgrees(g.nodes[n].word.value, g.edges, EdgesAt(g.edges, n, true), ops);
    }
  }

  /** Two steps that agree on every graph without parallel edges, and keep
      its endpoints. */
  ghost predicate AgreeUnparallel(s1: Step, s2: Step)
  {
    forall g: Graph, n: nat :: NoParallel(g.edges) ==>
      s1(g, n) == s2(g, n) && SameEnds(s2(g, n).graph.edges, g.edges)
  }

  /** The as-written and the corrected loop body agree without parallel
      edges. */
  lemma StepperAgree(ops: WordOps)
    ensures AgreeUnparallel(Stepper(true, ops), Stepper(false, ops))
  {
    forall g: Graph, n: nat | NoParallel(g.edges)
      ensures Stepper(true, ops)(g, n) == Stepper(false, ops)(g, n)
      ensures SameEnds(Stepper(false, ops)(g, n).graph.edges, g.edges)
    {
      if n < |g.nodes| {
        NodeStepAgrees(g, n, ops);
      }
    }
  }

  /** Without parallel edges, a pass over nodes `0 .. k - 1` is the same
      for two such steps, and keeps every endpoint. */
  lemma {:induction false} PassUpToAgrees(g: Graph, k: nat, s1: Step, s2: Step)
    requires NoParallel(g.edges) && AgreeUnparallel(s1, s2)
    ensures PassUpTo(g, k, s1) == PassUpTo(g, k, s2)
    ensures SameEnds(PassUpTo(g, k, s2).graph.edges, g.edges)
  {
    if k > 0 {
      PassUpToAgrees(g, k - 1, s1, s2);
      var prev := PassUpTo(g, k - 1, s2);
      NoParallelSameEnds(g.edges, prev.graph.edges);
      assert s1(prev.graph, k - 1) == s2(prev.graph, k - 1);
    }
  }

  /** Without parallel edges, every iteration of the loop is the same for
      two such steps, and keeps every endpoint. */
  lemma {:induction false} PassesAgree(g: Graph, n: nat, s1: Step, s2: Step)
    requires NoParallel(g.edges) && AgreeUnparallel(s1, s2)
    ensures Passes(g, n, s1) == Passes(g, n, s2)
    ensures SameEnds(Passes(g, n, s2).edges, g.edges)
  {
    if n > 0 {
      PassesAgree(g, n - 1, s1, s2);
      var h := Passes(g, n - 1, s2);
      NoParallelSameEnds(g.edges, h.edges);
      PassUpToAgrees(h, |h.nodes|, s1, s2);
    }
  }

  /** Running one pass, then `n` more, is running `n + 1` passes. */
  lemma {:induction false} PassesShift(g: Graph, n: nat, step: Step)
    ensures Passes(Pass(g, step).graph, n, step) == Passes(g, n + 1, step)
  {
    if n > 0 {
      PassesShift(g, n - 1, step);
    }
  }

  /** The corrected loop's result is reached after finitely many passes. */
  lemma {:induction false} SettleByPasses(g: Graph, ops: WordOps)
    decreases Unsettled(g)
    ensures exists n: nat :: Passes(g, n, Stepper(false, ops)) == Settle(g, ops)
  {
    var step := Stepper(false, ops);
    var p := Pass(g, step);
    if p.changes == 0 {
      assert Passes(g, 1, step) == Settle(g, ops);
    } else {
      StepperLowers(ops);
      PassUpToMeasure(g, |g.nodes|, step);
      SettleByPasses(p.graph, ops);
      var m: nat :| Passes(p.graph, m, step) == Settle(p.graph, ops);
      PassesShift(g, m, step);
      assert Passes(g, m + 1, step) == Settle(g, ops);
    }
  }

  /** On a graph without parallel edges the as-written loop reaches the
      corrected result, `Settle`, after finitely many passes, and the pass
      after that changes nothing: `compute_lexicon` returns it. */
  lemma AsWrittenSettles(g: Graph, ops: WordOps)
    requires EdgesIn(g) && NoParallel(g.edges)
    ensures exists n: nat :: Passes(g, n, Stepper(true, ops)) == Settle(g, ops)
    ensures Pass(Settle(g, ops), Stepper(true, ops)).changes == 0
  {
    var asWritten, corrected := Stepper(true, ops), Stepper(false, ops);
    StepperAgree(ops);
    SettleByPasses(g, ops);
    var n: nat :| Passes(g, n, corrected) == Settle(g, ops);
    PassesAgree(g, n, asWritten, corrected);
    var s := Settle(g, ops);
    SettleSpec(g, ops);
    NoParallelSameEnds(g.edges, s.edges);
    PassUpToAgrees(s, |s.nodes|, asWritten, corrected);
  }
}
