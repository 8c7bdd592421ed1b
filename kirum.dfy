/** The language tree of libkirum/src/kirum.rs: lexical entries are the nodes
    of an etymology graph, each edge carries a transform and a slot for the
    word it derives, and `compute_lexicon` fills slots and nodes until a
    pass changes nothing.  The petgraph graph is two tables: the nodes in
    insertion order and the edges in insertion order, an edge naming its two
    endpoints by node index. */
module Kirum {
  import opened Wrappers
  import opened Strings
  import opened Letters
  import opened Words
  import opened Sorting

  /** `Lexis` of this revision: the word is a `Word`. */
  datatype Lexis = Lexis(
    id: string,
    word: Option<Word>,
    language: string,
    pos: Option<PartOfSpeech>,
    lexisType: string,
    definition: string,
    archaic: bool,
    tags: seq<string>)

  /** `Lexis::default()`. */
  const DefaultLexis := Lexis([], None, [], None, [], [], false, [])

  // ---------------------------------------------------------------------------
  // Transforms over `Word`
  // ---------------------------------------------------------------------------

  /** The `TransformFunc` this revision calls: one edit of a `Word`, each arm
      one of the `Word` operations of libkirum/src/word.rs. */
  datatype TransformFunc =
    | LetterReplace(old_: string, new_: string, replace: LetterPlaceType)
    | LetterArray(letters: seq<LetterArrayValues>)
    | Postfix(value: Word)
    | Prefix(value: Word)
    | Loanword
    | LetterRemove(letter: string, position: LetterPlaceType)
    | Double(letter: string, position: LetterPlaceType)
    | DeDouble(letter: string, position: LetterPlaceType)

  /** The word one function gives. */
  function EditWord(f: TransformFunc, w: Word): Word
  {
    match f
    case LetterReplace(o, n, kind) => w.Replace(o, n, kind)
    case LetterArray(arr) => Letters(ArraySelect(w.Chars(), arr))
    case Postfix(v) => w.AddPostfix(v)
    case Prefix(v) => w.AddPrefix(v)
    case Loanword => w
    case LetterRemove(c, kind) => w.RemoveChar(c, kind)
    case Double(l, kind) => w.Double(l, kind)
    case DeDouble(l, kind) => Letters(DedoubleSpec(w.Chars(), l, kind))
  }

  /** One function on a lexis: only the word changes, and a lexis without a
      word is left alone. */
  function Apply(f: TransformFunc, lex: Lexis): (r: Lexis)
    ensures r == lex.(word := r.word)
    ensures r.word.Some? == lex.word.Some?
    ensures lex.word.None? || f.Loanword? ==> r == lex
    ensures lex.word.Some? ==> r.word.value == EditWord(f, lex.word.value)
  {
    if lex.word.None? then lex
    else lex.(word := Some(EditWord(f, lex.word.value)))
  }

  /** `TransformFunc::transform` with the `Word` methods it calls. */
  method TransformWord(f: TransformFunc, lex: Lexis) returns (r: Lexis)
    ensures r == Apply(f, lex)
  {
    if lex.word.None? {
      return lex;
    }
    var current := lex.word.value;
    match f {
      case LetterReplace(o, n, kind) =>
        current := current.Replace(o, n, kind);
      case LetterArray(arr) =>
        current := current.ModifyWithArray(arr);
      case Postfix(v) =>
        current := current.AddPostfix(v);
      case Prefix(v) =>
        current := current.AddPrefix(v);
      case Loanword =>
      case LetterRemove(c, kind) =>
        current := current.RemoveChar(c, kind);
      case Double(l, kind) =>
        current := current.Double(l, kind);
      case DeDouble(l, kind) =>
        current := current.Dedouble(l, kind);
    }
    r := lex.(word := Some(current));
  }

  /** The functions applied left to right. */
  function ApplyAll(fs: seq<TransformFunc>, lex: Lexis): Lexis
  {
    if fs == [] then lex
    else Apply(fs[|fs| - 1], ApplyAll(fs[..|fs| - 1], lex))
  }

  /** A function list touches only the word, keeps it present or absent, and
      does nothing to a lexis without a word. */
  lemma {:induction false} ApplyAllOnlyWord(fs: seq<TransformFunc>, lex: Lexis)
    ensures ApplyAll(fs, lex) == lex.(word := ApplyAll(fs, lex).word)
    ensures ApplyAll(fs, lex).word.Some? == lex.word.Some?
    ensures lex.word.None? ==> ApplyAll(fs, lex) == lex
  {
    if fs != [] {
      ApplyAllOnlyWord(fs[..|fs| - 1], lex);
    }
  }

  /** Applying `a + b` is applying `a`, then `b`. */
  lemma {:induction false} ApplyAllAppend(a: seq<TransformFunc>, b: seq<TransformFunc>, lex: Lexis)
    ensures ApplyAll(a + b, lex) == ApplyAll(b, ApplyAll(a, lex))
  {
    if b != [] {
      ApplyAllAppend(a, b[..|b| - 1], lex);
      assert (a + b)[..|a + b| - 1] == a + b[..|b| - 1];
    } else {
      assert a + b == a;
    }
  }

  /** `Transform`: a named function list and the place its word takes when
      several etymons are joined. */
  datatype Transform = Transform(name: string, transforms: seq<TransformFunc>, agglutinationOrder: Option<I32>)

  /** `Transform::transform`: a copy of the etymon run through every function
      in list order. */
  method TransformEtymon(t: Transform, etymon: Lexis) returns (updated: Lexis)
    ensures updated == ApplyAll(t.transforms, etymon)
    ensures updated == etymon.(word := updated.word)
  {
    updated := etymon;
    for i := 0 to |t.transforms|
      invariant updated == ApplyAll(t.transforms[..i], etymon)
    {
      assert t.transforms[..i + 1][..i] == t.transforms[..i];
      updated := TransformWord(t.transforms[i], updated);
    }
    assert t.transforms[..|t.transforms|] == t.transforms;
    ApplyAllOnlyWord(t.transforms, etymon);
  }

  // ---------------------------------------------------------------------------
  // The graph
  // ---------------------------------------------------------------------------

  /** An edge from the etymon node `source` to the derived node `target`: the
      transform and the word slot. */
  datatype Edge = Edge(source: nat, target: nat, trans: Transform, word: Option<Word>)

  datatype Graph = Graph(nodes: seq<Lexis>, edges: seq<Edge>)

  /** Every edge joins two existing nodes. */
  predicate EdgesIn(g: Graph)
  {
    forall e :: 0 <= e < |g.edges| ==> g.edges[e].source < |g.nodes| && g.edges[e].target < |g.nodes|
  }

  /** The same edges, up to their word slots and transforms. */
  predicate SameEnds(a: seq<Edge>, b: seq<Edge>)
  {
    |a| == |b| && forall i :: 0 <= i < |a| ==> a[i].source == b[i].source && a[i].target == b[i].target
  }

  function Endpoint(e: Edge, outgoing: bool): nat
  {
    if outgoing then e.source else e.target
  }

  /** `edges_directed(n, Outgoing)` (or `Incoming`): the indices of the edges
      leaving (entering) `n`, newest first, as petgraph lists them. */
  function EdgesAt(edges: seq<Edge>, n: nat, outgoing: bool): (r: seq<nat>)
    ensures forall i :: 0 <= i < |r| ==> r[i] < |edges|
  {
    if edges == [] then []
    else
      var k := |edges| - 1;
      (if Endpoint(edges[k], outgoing) == n then [k] else []) + EdgesAt(edges[..k], n, outgoing)
  }

  /** Every listed edge is at `n`. */
  lemma {:induction false} EdgesAtEndpoint(edges: seq<Edge>, n: nat, outgoing: bool)
    ensures forall i :: 0 <= i < |EdgesAt(edges, n, outgoing)| ==>
      Endpoint(edges[EdgesAt(edges, n, outgoing)[i]], outgoing) == n
  {
    if edges != [] {
      var k := |edges| - 1;
      EdgesAtEndpoint(edges[..k], n, outgoing);
      var rest := EdgesAt(edges[..k], n, outgoing);
      var head := if Endpoint(edges[k], outgoing) == n then [k] else [];
      assert EdgesAt(edges, n, outgoing) == head + rest;
      assert forall i :: 0 <= i < |rest| ==> edges[..k][rest[i]] == edges[rest[i]];
    }
  }

  /** Every edge at `n` is listed. */
  lemma {:induction false} EdgesAtComplete(edges: seq<Edge>, n: nat, outgoing: bool)
    ensures forall e :: 0 <= e < |edges| && Endpoint(edges[e], outgoing) == n ==> e in EdgesAt(edges, n, outgoing)
  {
    if edges != [] {
      var k := |edges| - 1;
      EdgesAtComplete(edges[..k], n, outgoing);
      var rest := EdgesAt(edges[..k], n, outgoing);
      var head := if Endpoint(edges[k], outgoing) == n then [k] else [];
      assert EdgesAt(edges, n, outgoing) == head + rest;
      forall e | 0 <= e < |edges| && Endpoint(edges[e], outgoing) == n
        ensures e in EdgesAt(edges, n, outgoing)
      {
        if e < k {
          assert edges[..k][e] == edges[e];
          assert e in rest;
        }
      }
    }
  }

  /** The list holds exactly the edges at `n`, each once, newest first. */
  lemma {:induction false} EdgesAtSpec(edges: seq<Edge>, n: nat, outgoing: bool)
    ensures forall i :: 0 <= i < |EdgesAt(edges, n, outgoing)| ==> EdgesAt(edges, n, outgoing)[i] < |edges|
    ensures forall i :: 0 <= i < |EdgesAt(edges, n, outgoing)| ==>
      Endpoint(edges[EdgesAt(edges, n, outgoing)[i]], outgoing) == n
    ensures forall i, j :: 0 <= i < j < |EdgesAt(edges, n, outgoing)| ==>
      EdgesAt(edges, n, outgoing)[i] > EdgesAt(edges, n, outgoing)[j]
    ensures forall e :: 0 <= e < |edges| && Endpoint(edges[e], outgoing) == n ==> e in EdgesAt(edges, n, outgoing)
  {
    EdgesAtEndpoint(edges, n, outgoing);
    EdgesAtComplete(edges, n, outgoing);
    if edges != [] {
      var k := |edges| - 1;
      EdgesAtSpec(edges[..k], n, outgoing);
      var rest := EdgesAt(edges[..k], n, outgoing);
      var head := if Endpoint(edges[k], outgoing) == n then [k] else [];
      assert EdgesAt(edges, n, outgoing) == head + rest;
    }
  }

  /** The edge lists depend on the endpoints alone. */
  lemma {:induction false} EdgesAtSameEnds(a: seq<Edge>, b: seq<Edge>, n: nat, outgoing: bool)
    requires SameEnds(a, b)
    ensures EdgesAt(a, n, outgoing) == EdgesAt(b, n, outgoing)
  {
    if a != [] {
      var k := |a| - 1;
      EdgesAtSameEnds(a[..k], b[..k], n, outgoing);
    }
  }

  /** `LanguageTree`: the graph under construction. */
  class LanguageTree {
    var graph: Graph

    ghost predicate Valid()
      reads this
    {
      EdgesIn(graph)
    }

    /** `LanguageTree::new`: an empty graph. */
    constructor ()
      ensures Valid() && graph == Graph([], [])
    {
      graph := Graph([], []);
    }

    /** `add_lexis`: one more node, no edge. */
    method AddLexis(lex: Lexis)
      requires Valid()
      modifies this
      ensures Valid()
      ensures graph == old(graph).(nodes := old(graph).nodes + [lex])
    {
      graph := graph.(nodes := graph.nodes + [lex]);
    }

    /** `connect_etynmology`: find (or add) the nodes of `lex` and `etymon`
        and add one edge between them with an empty word slot. */
    method ConnectEtymology(lex: Lexis, etymon: Lexis, trans: Transform)
      requires Valid()
      modifies this
      ensures Valid()
      ensures graph == Connect(old(graph), lex, etymon, trans)
    {
      var lexIdx: Option<nat> := None;
      var etyIdx: Option<nat> := None;
      if |graph.nodes| == 0 {
        graph := graph.(nodes := graph.nodes + [lex]);
        lexIdx := Some(0);
        graph := graph.(nodes := graph.nodes + [etymon]);
        etyIdx := Some(1);
      }
      if etyIdx.None? && lexIdx.None? {
        lexIdx, etyIdx := FindNodes(graph.nodes, lex, etymon);
      }
      if lexIdx.None? {
        lexIdx := Some(|graph.nodes|);
        graph := graph.(nodes := graph.nodes + [lex]);
      }
      if etyIdx.None? {
        etyIdx := Some(|graph.nodes|);
        graph := graph.(nodes := graph.nodes + [etymon]);
      }
      graph := graph.(edges := graph.edges + [Edge(etyIdx.value, lexIdx.value, trans, None)]);
    }

    /** `compute_lexicon`, with each slot written at its own edge: passes
        over a copy of the graph until one makes no change.  The tree's own
        graph is not modified. */
    method ComputeLexicon() returns (tree: RenderedTree)
      requires Valid()
      ensures tree.graph == Settle(graph, KirumOps)
    {
      var rendered := graph;
      var incomplete := true;
      while incomplete
        invariant incomplete ==> Settle(rendered, KirumOps) == Settle(graph, KirumOps)
        invariant !incomplete ==> rendered == Settle(graph, KirumOps)
        decreases Unsettled(rendered), incomplete
      {
        ghost var before := rendered;
        var changes;
        rendered, changes := RenderPass(rendered);
        StepperLowers(KirumOps);
        PassUpToMeasure(before, |before.nodes|, Stepper(false, KirumOps));
        if changes == 0 {
          incomplete := false;
        }
      }
      tree := RenderedTree(rendered);
    }
  }

  /** The scan over `node_indices` of `connect_etynmology`: the first node
      equal to `lex`, and the first other node equal to `etymon`, stopping
      once both are found. */
  method FindNodes(nodes: seq<Lexis>, lex: Lexis, etymon: Lexis) returns (lexIdx: Option<nat>, etyIdx: Option<nat>)
    ensures lexIdx == FindLexis(nodes, lex)
    ensures etyIdx == FindOther(nodes, etymon, lex)
  {
    lexIdx, etyIdx := None, None;
    var nx := 0;
    while nx < |nodes|
      invariant nx <= |nodes|
      invariant lexIdx == FindLexis(nodes[..nx], lex)
      invariant etyIdx == FindOther(nodes[..nx], etymon, lex)
    {
      assert nodes[..nx + 1][..nx] == nodes[..nx];
      if nodes[nx] == lex && lexIdx.None? {
        lexIdx := Some(nx);
        nx := nx + 1;
        continue;
      }
      if nodes[nx] == etymon && etyIdx.None? {
        etyIdx := Some(nx);
        nx := nx + 1;
        continue;
      }
      if etyIdx.Some? && lexIdx.Some? {
        FindStable(nodes, nx, lex, etymon);
        return;
      }
      nx := nx + 1;
    }
    assert nodes[..|nodes|] == nodes;
  }

  /** The first node equal to `x`. */
  function FindLexis(nodes: seq<Lexis>, x: Lexis): (r: Option<nat>)
    ensures r.Some? ==> r.value < |nodes| && nodes[r.value] == x
    ensures r.Some? ==> forall j :: 0 <= j < r.value ==> nodes[j] != x
    ensures r.None? ==> x !in nodes
  {
    if nodes == [] then None
    else
      var k := |nodes| - 1;
      var prev := FindLexis(nodes[..k], x);
      if prev.Some? then prev
      else if nodes[k] == x then Some(k)
      else None
  }

  /** The first node equal to `x` that is not the node found for `lex`: when
      `lex` and the etymon are equal, the etymon takes the second copy. */
  function FindOther(nodes: seq<Lexis>, x: Lexis, lex: Lexis): (r: Option<nat>)
    ensures r.Some? ==> r.value < |nodes| && nodes[r.value] == x && FindLexis(nodes, lex) != r
    ensures r.None? ==> forall j :: 0 <= j < |nodes| && nodes[j] == x ==> FindLexis(nodes, lex) == Some(j)
  {
    if nodes == [] then None
    else
      var k := |nodes| - 1;
      var prev := FindOther(nodes[..k], x, lex);
      if prev.Some? then prev
      else if nodes[k] == x && FindLexis(nodes, lex) != Some(k) then Some(k)
      else None
  }

  /** Once both nodes are found in a prefix, the rest of the scan changes
      nothing: the early `break` is safe. */
  lemma {:induction false} FindStable(nodes: seq<Lexis>, k: nat, lex: Lexis, etymon: Lexis)
    requires k <= |nodes|
    requires FindLexis(nodes[..k], lex).Some? && FindOther(nodes[..k], etymon, lex).Some?
    ensures FindLexis(nodes, lex) == FindLexis(nodes[..k], lex)
    ensures FindOther(nodes, etymon, lex) == FindOther(nodes[..k], etymon, lex)
  {
    if k < |nodes| {
      var m := |nodes| - 1;
      assert nodes[..m][..k] == nodes[..k];
      FindStable(nodes[..m], k, lex, etymon);
      FindStep(nodes, lex, etymon);
    } else {
      assert nodes[..k] == nodes;
    }
  }

  /** One more node after both are found changes neither answer. */
  lemma FindStep(nodes: seq<Lexis>, lex: Lexis, etymon: Lexis)
    requires nodes != []
    requires FindLexis(nodes[..|nodes| - 1], lex).Some? && FindOther(nodes[..|nodes| - 1], etymon, lex).Some?
    ensures FindLexis(nodes, lex) == FindLexis(nodes[..|nodes| - 1], lex)
    ensures FindOther(nodes, etymon, lex) == FindOther(nodes[..|nodes| - 1], etymon, lex)
  {
  }

  /** The graph `connect_etynmology` leaves. */
  function Connect(g: Graph, lex: Lexis, etymon: Lexis, trans: Transform): Graph
  {
    var lexIdx := FindLexis(g.nodes, lex);
    var nodes1 := if lexIdx.None? then g.nodes + [lex] else g.nodes;
    var lexAt := if lexIdx.None? then |g.nodes| else lexIdx.value;
    var etyIdx := FindOther(g.nodes, etymon, lex);
    var nodes2 := if etyIdx.None? then nodes1 + [etymon] else nodes1;
    var etyAt := if etyIdx.None? then |nodes1| else etyIdx.value;
    Graph(nodes2, g.edges + [Edge(etyAt, lexAt, trans, None)])
  }

  /** `connect_etynmology` adds exactly one edge, from a node holding the
      etymon to a node holding `lex`, with an empty slot; it keeps every
      node and edge, adds at most the two nodes, and adds `lex` only when no
      node equals it. */
  lemma ConnectSpec(g: Graph, lex: Lexis, etymon: Lexis, trans: Transform)
    requires EdgesIn(g)
    ensures var c := Connect(g, lex, etymon, trans);
      && EdgesIn(c)
      && |c.edges| == |g.edges| + 1
      && c.edges[..|g.edges|] == g.edges
      && c.nodes[..|g.nodes|] == g.nodes
      && |g.nodes| <= |c.nodes| <= |g.nodes| + 2
      && (lex in g.nodes ==> |c.nodes| <= |g.nodes| + 1)
      && (lex in g.nodes && etymon in g.nodes && lex != etymon ==> c.nodes == g.nodes)
      && var e := c.edges[|g.edges|];
      && c.nodes[e.source] == etymon && c.nodes[e.target] == lex
      && e.source != e.target
      && e.trans == trans && e.word.None?
  {
    var c := Connect(g, lex, etymon, trans);
    assert c.edges[..|g.edges|] == g.edges;
    if lex in g.nodes && etymon in g.nodes && lex != etymon {
      var j :| 0 <= j < |g.nodes| && g.nodes[j] == etymon;
    }
  }

  // ---------------------------------------------------------------------------
  // `compute_lexicon`: one pass over the nodes
  // ---------------------------------------------------------------------------

  /** `update_edge(a, b, _)` writes to the newest edge from `a` to `b`
      (petgraph's `find_edge` walks the outgoing list newest first); it is
      called only when such an edge exists, here `fallback`. */
  function NewestEdge(edges: seq<Edge>, a: nat, b: nat, fallback: nat): (r: nat)
    ensures r == fallback || (r < |edges| && edges[r].source == a && edges[r].target == b)
    ensures r != fallback ==> forall j :: r < j < |edges| ==> !(edges[j].source == a && edges[j].target == b)
    ensures fallback < |edges| && edges[fallback].source == a && edges[fallback].target == b ==> r >= fallback
  {
    if edges == [] then fallback
    else
      var k := |edges| - 1;
      if edges[k].source == a && edges[k].target == b then k
      else NewestEdge(edges[..k], a, b, fallback)
  }

  /** The two word operations a pass calls: `derive`, the word an edge's
      transform makes of its etymon's word, and `join`, the word a node
      gets from the order and word of each incoming edge.  The pass and its
      lemmas hold for any pair; the tree runs them with `KirumOps`. */
  datatype WordOps = WordOps(derive: (Transform, Word) -> Word, join: seq<(I32, Word)> -> Word)

  /** The word the transform list makes of a word (the word of
      `Transform::transform` on a worded lexis). */
  function WordAfter(fs: seq<TransformFunc>, w: Word): Word
  {
    if fs == [] then w
    else EditWord(fs[|fs| - 1], WordAfter(fs[..|fs| - 1], w))
  }

  /** The word operations of libkirum/src/kirum.rs: the transforms, and
      `join_string_vectors`. */
  const KirumOps := WordOps((t: Transform, w: Word) => WordAfter(t.transforms, w), JoinWords)

  /** Transforming a worded lexis gives it the word `WordAfter` computes. */
  lemma {:induction false} ApplyAllWord(fs: seq<TransformFunc>, lex: Lexis)
    requires lex.word.Some?
    ensures ApplyAll(fs, lex).word == Some(WordAfter(fs, lex.word.value))
  {
    if fs != [] {
      ApplyAllWord(fs[..|fs| - 1], lex);
      ApplyAllOnlyWord(fs[..|fs| - 1], lex);
    }
  }

  /** The slot an edge derives from its etymon's word. */
  function Derived(e: Edge, w: Word, ops: WordOps): Edge
  {
    e.(word := Some(ops.derive(e.trans, w)))
  }

  /** The edges after a loop over outgoing edges, and how many it filled. */
  datatype Filled = Filled(edges: seq<Edge>, count: nat)

  /** The graph after a node step or a pass, and how many changes it made. */
  datatype Outcome = Outcome(graph: Graph, changes: nat)

  /** The loop over the outgoing edges `es` of a worded node `lex`, read from
      the snapshot `snap` taken before it (`rendered.clone()`): every edge
      whose slot is empty in the snapshot gets the derived word and counts
      one change.  As written (`asWritten`), the derived edge is stored with
      `update_edge`, which picks the newest parallel edge; otherwise it is
      stored at its own index. */
  function FillOut(w: Word, snap: seq<Edge>, es: seq<nat>, asWritten: bool, ops: WordOps): (r: Filled)
    requires forall i :: 0 <= i < |es| ==> es[i] < |snap|
    ensures |r.edges| == |snap|
  {
    if es == [] then Filled(snap, 0)
    else
      var prev := FillOut(w, snap, es[..|es| - 1], asWritten, ops);
      var e := es[|es| - 1];
      if snap[e].word.Some? then prev
      else
        var slot := if asWritten then NewestEdge(prev.edges, snap[e].source, snap[e].target, e) else e;
        Filled(prev.edges[slot := Derived(snap[e], w, ops)], prev.count + 1)
  }

  /** The agglutination order, missing = 0 (`unwrap_or(0)`). */
  function OrderOf(t: Transform): I32
  {
    t.agglutinationOrder.UnwrapOr(0)
  }

  /** Every listed edge exists and has its slot filled. */
  predicate AllFilled(edges: seq<Edge>, ins: seq<nat>)
  {
    forall i :: 0 <= i < |ins| ==> ins[i] < |edges| && edges[ins[i]].word.Some?
  }

  /** The `upstreams` list: order and word of each incoming edge, in edge
      list order. */
  function Upstreams(edges: seq<Edge>, ins: seq<nat>): (r: seq<(I32, Word)>)
    requires AllFilled(edges, ins)
    ensures |r| == |ins|
  {
    if ins == [] then []
    else
      var e := ins[|ins| - 1];
      Upstreams(edges, ins[..|ins| - 1]) + [(OrderOf(edges[e].trans), edges[e].word.value)]
  }

  /** The loop body for node `n`: a worded node fills its outgoing slots; a
      wordless node whose incoming slots are all filled gets the joined
      word and counts one change. */
  function NodeStep(g: Graph, n: nat, asWritten: bool, ops: WordOps): (r: Outcome)
    requires n < |g.nodes|
    ensures |r.graph.nodes| == |g.nodes|
  {
    if g.nodes[n].word.Some? then
      var filled := FillOut(g.nodes[n].word.value, g.edges, EdgesAt(g.edges, n, true), asWritten, ops);
      Outcome(g.(edges := filled.edges), filled.count)
    else
      var ins := EdgesAt(g.edges, n, false);
      if AllFilled(g.edges, ins) then
        Outcome(g.(nodes := g.nodes[n := g.nodes[n].(word := Some(ops.join(Upstreams(g.edges, ins))))]), 1)
      else Outcome(g, 0)
  }

  /** A node step as a value: the step of node `n` of a graph. */
  type Step = (Graph, nat) -> Outcome

  /** The loop body as a step (a node index outside the graph, which the
      loop never visits, changes nothing). */
  function Stepper(asWritten: bool, ops: WordOps): Step
  {
    (g: Graph, n: nat) => if n < |g.nodes| then NodeStep(g, n, asWritten, ops) else Outcome(g, 0)
  }

  /** The pass over nodes `0 .. k - 1`, with the number of changes. */
  function PassUpTo(g: Graph, k: nat, step: Step): Outcome
  {
    if k == 0 then Outcome(g, 0)
    else
      var prev := PassUpTo(g, k - 1, step);
      var next := step(prev.graph, k - 1);
      Outcome(next.graph, prev.changes + next.changes)
  }

  /** One pass of the `while incomplete` loop: every node in index order. */
  function Pass(g: Graph, step: Step): Outcome
  {
    PassUpTo(g, |g.nodes|, step)
  }

  // ---------------------------------------------------------------------------
  // `join_string_vectors`
  // ---------------------------------------------------------------------------

  predicate ByOrder(a: (I32, Word), b: (I32, Word))
  {
    a.0 <= b.0
  }

  /** The letters of every word, one word after another. */
  function Flatten(ws: seq<(I32, Word)>): seq<string>
  {
    if ws == [] then []
    else Flatten(ws[..|ws| - 1]) + ws[|ws| - 1].1.Chars()
  }

  /** The joined word: the upstream words stably sorted by order, their
      letters concatenated, as `Letters`. */
  function JoinWords(ws: seq<(I32, Word)>): Word
  {
    Letters(Flatten(StableSort(ws, ByOrder)))
  }

  /** `join_string_vectors`: `sort_by_key` on the order, then the letters of
      each word in turn. */
  method JoinStringVectors(words: seq<(I32, Word)>) returns (w: Word)
    ensures w == JoinWords(words)
  {
    var sorted := StableSort(words, ByOrder);
    var merged: seq<string> := [];
    for i := 0 to |sorted|
      invariant merged == Flatten(sorted[..i])
    {
      assert sorted[..i + 1][..i] == sorted[..i];
      merged := merged + sorted[i].1.Chars();
    }
    assert sorted[..|sorted|] == sorted;
    w := Letters(merged);
  }

  /** The order on agglutination orders is total and transitive. */
  lemma ByOrderOrder()
    ensures Total(ByOrder) && Transitive(ByOrder)
  {
  }

  lemma {:induction false} FlattenAppend(a: seq<(I32, Word)>, b: seq<(I32, Word)>)
    ensures Flatten(a + b) == Flatten(a) + Flatten(b)
  {
    if b != [] {
      FlattenAppend(a, b[..|b| - 1]);
      assert (a + b)[..|a + b| - 1] == a + b[..|b| - 1];
    } else {
      assert a + b == a;
    }
  }

  /** The joined word takes its words in non-decreasing order, uses each
      upstream word once, and keeps the input order of words with equal
      orders. */
  lemma JoinWordsSpec(ws: seq<(I32, Word)>, y: (I32, Word))
    ensures var sorted := StableSort(ws, ByOrder);
      && JoinWords(ws) == Letters(Flatten(sorted))
      && (forall i, j :: 0 <= i < j < |sorted| ==> sorted[i].0 <= sorted[j].0)
      && multiset(sorted) == multiset(ws)
      && Filter(sorted, SameKey(ByOrder, y)) == Filter(ws, SameKey(ByOrder, y))
  {
    ByOrderOrder();
    StableSortSpec(ws, ByOrder, y);
    var sorted := StableSort(ws, ByOrder);
    SortedAll(sorted);
  }

  lemma {:induction false} SortedAll(s: seq<(I32, Word)>)
    requires Sorted(s, ByOrder)
    ensures forall i, j :: 0 <= i < j < |s| ==> s[i].0 <= s[j].0
  {
    if s != [] {
      var k := |s| - 1;
      assert Sorted(s[..k], ByOrder) by {
        forall i | 0 < i < k ensures ByOrder(s[..k][i - 1], s[..k][i]) {
          assert ByOrder(s[i - 1], s[i]);
        }
      }
      SortedAll(s[..k]);
      forall i, j | 0 <= i < j < |s| ensures s[i].0 <= s[j].0 {
        if j < k {
          assert s[..k][i] == s[i] && s[..k][j] == s[j];
        } else if i < k - 1 {
          assert s[..k][i] == s[i] && s[..k][k - 1] == s[k - 1];
          assert ByOrder(s[k - 1], s[k]);
        } else {
          assert ByOrder(s[k - 1], s[k]);
        }
      }
    }
  }

  lemma FlattenTwo(p: (I32, Word), q: (I32, Word))
    ensures Flatten([p, q]) == p.1.Chars() + q.1.Chars()
  {
    var one: seq<(I32, Word)> := [p];
    assert [p, q][..1] == one;
    assert one[..0] == [];
    assert Flatten(one) == p.1.Chars();
  }

  /** Two upstream words: the one with the smaller order comes first, and
      with equal orders the one listed first (the newer edge) does. */
  lemma JoinTwo(a: Word, oa: I32, b: Word, ob: I32)
    ensures oa > ob ==> JoinWords([(oa, a), (ob, b)]) == Letters(b.Chars() + a.Chars())
    ensures oa <= ob ==> JoinWords([(oa, a), (ob, b)]) == Letters(a.Chars() + b.Chars())
  {
    var p: (I32, Word), q: (I32, Word) := (oa, a), (ob, b);
    var ws := [p, q];
    assert ws[..1] == [p];
    assert StableSort([p], ByOrder) == [p];
    assert StableSort(ws, ByOrder) == Insert([p], q, ByOrder);
    FlattenTwo(p, q);
    FlattenTwo(q, p);
    if oa > ob {
      var one: seq<(I32, Word)> := [p];
      assert one[..0] == [];
      assert Insert(one, q, ByOrder) == Insert([], q, ByOrder) + [p];
      assert Insert([], q, ByOrder) == [q];
      assert StableSort(ws, ByOrder) == [q, p];
      assert JoinWords(ws) == Letters(Flatten([q, p]));
    }
  }

  // ---------------------------------------------------------------------------
  // Progress: what a pass fills and what it keeps
  // ---------------------------------------------------------------------------

  predicate EmptySlot(e: Edge)
  {
    e.word.None?
  }

  predicate Wordless(l: Lexis)
  {
    l.word.None?
  }

  /** The progress measure: empty slots plus wordless nodes. */
  function Unsettled(g: Graph): nat
  {
    CountIf(g.edges, EmptySlot) + CountIf(g.nodes, Wordless)
  }

  lemma {:induction false} CountIfUpdate<T>(s: seq<T>, i: nat, v: T, p: T -> bool)
    requires i < |s|
    ensures CountIf(s[i := v], p) + (if p(s[i]) then 1 else 0) == CountIf(s, p) + (if p(v) then 1 else 0)
  {
    var k := |s| - 1;
    if i < k {
      assert s[i := v][..k] == s[..k][i := v];
      CountIfUpdate(s[..k], i, v, p);
    } else {
      assert s[i := v][..k] == s[..k];
    }
  }

  /** No index occurs twice. */
  predicate NoRepeats(s: seq<nat>)
  {
    s == [] || (NoRepeats(s[..|s| - 1]) && s[|s| - 1] !in s[..|s| - 1])
  }

  /** A strictly descending list has no repeats. */
  lemma {:induction false} DescendingNoRepeats(s: seq<nat>)
    requires forall i, j :: 0 <= i < j < |s| ==> s[i] > s[j]
    ensures NoRepeats(s)
  {
    if s != [] {
      var k := |s| - 1;
      DescendingNoRepeats(s[..k]);
      assert forall i :: 0 <= i < k ==> s[..k][i] > s[k];
    }
  }

  /** The corrected loop over the outgoing edges of a worded node: each
      listed edge whose slot is empty in the snapshot gets its derived word,
      and every other edge stays as it was. */
  lemma {:induction false} FillOutEdges(w: Word, snap: seq<Edge>, es: seq<nat>, ops: WordOps)
    requires forall i :: 0 <= i < |es| ==> es[i] < |snap|
    requires NoRepeats(es)
    ensures forall j :: 0 <= j < |snap| ==>
      FillOut(w, snap, es, false, ops).edges[j] == if j in es && snap[j].word.None? then Derived(snap[j], w, ops) else snap[j]
  {
    if es != [] {
      var k := |es| - 1;
      FillOutEdges(w, snap, es[..k], ops);
      assert forall j :: j in es <==> j in es[..k] || j == es[k] by {
        assert es == es[..k] + [es[k]];
      }
    }
  }

  /** Each fill of the corrected loop is one change, and there is none
      exactly when every listed slot was already filled. */
  lemma {:induction false} FillOutCount(w: Word, snap: seq<Edge>, es: seq<nat>, ops: WordOps)
    requires forall i :: 0 <= i < |es| ==> es[i] < |snap|
    requires NoRepeats(es)
    ensures CountIf(FillOut(w, snap, es, false, ops).edges, EmptySlot) + FillOut(w, snap, es, false, ops).count == CountIf(snap, EmptySlot)
    ensures FillOut(w, snap, es, false, ops).count == 0 <==> forall i :: 0 <= i < |es| ==> snap[es[i]].word.Some?
  {
    if es != [] {
      var k := |es| - 1;
      var pre, e := es[..k], es[k];
      FillOutCount(w, snap, pre, ops);
      var prev := FillOut(w, snap, pre, false, ops);
      assert forall i :: 0 <= i < k ==> pre[i] == es[i];
      if snap[e].word.None? {
        FillOutEdges(w, snap, pre, ops);
        assert prev.edges[e] == snap[e];
        CountIfUpdate(prev.edges, e, Derived(snap[e], w, ops), EmptySlot);
      }
    }
  }

  /** The corrected loop over the outgoing edges of a worded node `n`: every
      empty slot leaving `n` gets its derived word and nothing else changes;
      each fill is one change, and there is none exactly when every slot
      leaving `n` is filled. */
  lemma FillOutAt(w: Word, snap: seq<Edge>, n: nat, ops: WordOps)
    ensures forall j :: 0 <= j < |snap| ==>
      FillOut(w, snap, EdgesAt(snap, n, true), false, ops).edges[j] ==
        if snap[j].source == n && snap[j].word.None? then Derived(snap[j], w, ops) else snap[j]
    ensures
      CountIf(FillOut(w, snap, EdgesAt(snap, n, true), false, ops).edges, EmptySlot) +
        FillOut(w, snap, EdgesAt(snap, n, true), false, ops).count == CountIf(snap, EmptySlot)
    ensures
      FillOut(w, snap, EdgesAt(snap, n, true), false, ops).count == 0 <==>
        forall j :: 0 <= j < |snap| && snap[j].source == n ==> snap[j].word.Some?
  {
    var es := EdgesAt(snap, n, true);
    EdgesAtSpec(snap, n, true);
    DescendingNoRepeats(es);
    FillOutEdges(w, snap, es, ops);
    FillOutCount(w, snap, es, ops);
  }

  /** `h` is `g` with words added: the same nodes and edges, no field but a
      word changed, the given words and the filled slots kept. */
  predicate Grows(g: Graph, h: Graph)
  {
    && |h.nodes| == |g.nodes|
    && SameEnds(h.edges, g.edges)
    && (forall m :: 0 <= m < |g.nodes| ==> h.nodes[m] == g.nodes[m].(word := h.nodes[m].word))
    && (forall m :: 0 <= m < |g.nodes| && g.nodes[m].word.Some? ==> h.nodes[m] == g.nodes[m])
    && (forall j :: 0 <= j < |g.edges| && g.edges[j].word.Some? ==> h.edges[j] == g.edges[j])
  }

  /** Every node that was wordless in `g` and has a word in `h` has all its
      incoming slots filled in `h`. */
  predicate FilledWhenReady(g: Graph, h: Graph)
    requires Grows(g, h)
  {
    forall m, j :: (0 <= m < |g.nodes| && g.nodes[m].word.None? && h.nodes[m].word.Some? &&
      0 <= j < |h.edges| && h.edges[j].target == m) ==> h.edges[j].word.Some?
  }

  /** Slot `j` of `h` holds what `derive` makes of its transform and of
      its source node's word. */
  predicate DerivedSlot(h: Graph, j: nat, ops: WordOps)
    requires j < |h.edges|
  {
    var e := h.edges[j];
    e.source < |h.nodes| && h.nodes[e.source].word.Some? &&
    e.word == Some(ops.derive(e.trans, h.nodes[e.source].word.value))
  }

  /** Node `m` of `h` has all its incoming slots filled and holds what
      `join` makes of them. */
  predicate JoinedNode(h: Graph, m: nat, ops: WordOps)
    requires m < |h.nodes|
  {
    var ins := EdgesAt(h.edges, m, false);
    AllFilled(h.edges, ins) && h.nodes[m].word == Some(ops.join(Upstreams(h.edges, ins)))
  }

  /** Every word `h` gained over `g` is the one the word operations make:
      a slot empty in `g` and filled in `h` is derived from its source
      node's word, and a node wordless in `g` and worded in `h` holds the
      join of its incoming slots. */
  predicate Consistent(g: Graph, h: Graph, ops: WordOps)
    requires Grows(g, h)
  {
    && (forall j :: 0 <= j < |g.edges| && g.edges[j].word.None? && h.edges[j].word.Some? ==> DerivedSlot(h, j, ops))
    && (forall m :: 0 <= m < |g.nodes| && g.nodes[m].word.None? && h.nodes[m].word.Some? ==> JoinedNode(h, m, ops))
  }

  /** Filled slots are kept, so the upstream words read the same. */
  lemma {:induction false} UpstreamsKept(a: seq<Edge>, b: seq<Edge>, ins: seq<nat>)
    requires AllFilled(a, ins) && |b| == |a|
    requires forall j :: 0 <= j < |a| && a[j].word.Some? ==> b[j] == a[j]
    ensures AllFilled(b, ins) && Upstreams(b, ins) == Upstreams(a, ins)
  {
    if ins != [] {
      var k := |ins| - 1;
      assert forall i :: 0 <= i < k ==> ins[..k][i] == ins[i];
      UpstreamsKept(a, b, ins[..k]);
    }
  }

  /** A derived slot stays derived as the graph grows. */
  lemma DerivedKept(b: Graph, c: Graph, j: nat, ops: WordOps)
    requires Grows(b, c) && j < |b.edges| && DerivedSlot(b, j, ops)
    ensures DerivedSlot(c, j, ops)
  {
    assert c.edges[j] == b.edges[j];
    assert c.nodes[b.edges[j].source] == b.nodes[b.edges[j].source];
  }

  /** A joined node stays joined as the graph grows. */
  lemma JoinedKept(b: Graph, c: Graph, m: nat, ops: WordOps)
    requires Grows(b, c) && m < |b.nodes| && JoinedNode(b, m, ops)
    ensures JoinedNode(c, m, ops)
  {
    EdgesAtSameEnds(c.edges, b.edges, m, false);
    UpstreamsKept(b.edges, c.edges, EdgesAt(b.edges, m, false));
  }

  /** Consistent growth composes. */
  lemma ConsistentTransitive(a: Graph, b: Graph, c: Graph, ops: WordOps)
    requires Grows(a, b) && Grows(b, c)
    requires Consistent(a, b, ops) && Consistent(b, c, ops)
    ensures Grows(a, c) && Consistent(a, c, ops)
  {
    GrowsTransitive(a, b, c);
    forall j | 0 <= j < |a.edges| && a.edges[j].word.None? && c.edges[j].word.Some?
      ensures DerivedSlot(c, j, ops)
    {
      if b.edges[j].word.Some? {
        DerivedKept(b, c, j, ops);
      }
    }
    forall m | 0 <= m < |a.nodes| && a.nodes[m].word.None? && c.nodes[m].word.Some?
      ensures JoinedNode(c, m, ops)
    {
      if b.nodes[m].word.Some? {
        JoinedKept(b, c, m, ops);
      }
    }
  }

  /** Node `m` gives a pass nothing to do: a worded node has no empty
      outgoing slot, a wordless node has an empty incoming slot. */
  predicate Quiet(g: Graph, m: nat)
    requires m < |g.nodes|
  {
    && (g.nodes[m].word.Some? ==>
          forall j :: 0 <= j < |g.edges| && g.edges[j].source == m ==> g.edges[j].word.Some?)
    && (g.nodes[m].word.None? ==>
          exists j :: 0 <= j < |g.edges| && g.edges[j].target == m && g.edges[j].word.None?)
  }

  lemma GrowsTransitive(a: Graph, b: Graph, c: Graph)
    requires Grows(a, b) && Grows(b, c)
    ensures Grows(a, c)
  {
  }

  lemma FilledWhenReadyTransitive(a: Graph, b: Graph, c: Graph)
    requires Grows(a, b) && Grows(b, c)
    requires FilledWhenReady(a, b) && FilledWhenReady(b, c)
    ensures Grows(a, c) && FilledWhenReady(a, c)
  {
    GrowsTransitive(a, b, c);
    forall m, j | 0 <= m < |a.nodes| && a.nodes[m].word.None? && c.nodes[m].word.Some? &&
        0 <= j < |c.edges| && c.edges[j].target == m
      ensures c.edges[j].word.Some?
    {
      assert b.edges[j].target == m;
      if b.nodes[m].word.Some? {
        assert b.edges[j].word.Some?;
      }
    }
  }

  /** A graph grows into itself. */
  lemma GrowsRefl(g: Graph)
    ensures Grows(g, g) && FilledWhenReady(g, g)
  {
  }

  /** The corrected step of a worded node touches only edge slots: it fills
      empty outgoing slots, one change each, keeps every other edge, and
      changes nothing exactly when every outgoing slot is filled. */
  lemma OutStepSpec(g: Graph, n: nat, ops: WordOps)
    requires n < |g.nodes| && g.nodes[n].word.Some?
    ensures NodeStep(g, n, false, ops).graph.nodes == g.nodes
    ensures CountIf(NodeStep(g, n, false, ops).graph.edges, EmptySlot) + NodeStep(g, n, false, ops).changes == CountIf(g.edges, EmptySlot)
    ensures (forall j :: 0 <= j < |g.edges| ==> NodeStep(g, n, false, ops).graph.edges[j] == g.edges[j].(word := NodeStep(g, n, false, ops).graph.edges[j].word))
    ensures (forall j :: 0 <= j < |g.edges| && g.edges[j].word.Some? ==> NodeStep(g, n, false, ops).graph.edges[j] == g.edges[j])
    ensures (NodeStep(g, n, false, ops).changes == 0 <==> forall j :: 0 <= j < |g.edges| && g.edges[j].source == n ==> g.edges[j].word.Some?)
    ensures (NodeStep(g, n, false, ops).changes == 0 ==> NodeStep(g, n, false, ops).graph == g)
  {
    var r := NodeStep(g, n, false, ops);
    FillOutAt(g.nodes[n].word.value, g.edges, n, ops);
    if r.changes == 0 {
      assert r.graph.edges == g.edges;
    }
  }


  /** The corrected step of a wordless node touches only that node: it gets
      the joined word, one change, exactly when every incoming slot is
      filled. */
  lemma InStepSpec(g: Graph, n: nat, ops: WordOps)
    requires n < |g.nodes| && g.nodes[n].word.None?
    ensures NodeStep(g, n, false, ops).graph.edges == g.edges
    ensures |NodeStep(g, n, false, ops).graph.nodes| == |g.nodes|
    ensures (forall m :: 0 <= m < |g.nodes| && m != n ==> NodeStep(g, n, false, ops).graph.nodes[m] == g.nodes[m])
    ensures NodeStep(g, n, false, ops).graph.nodes[n] == g.nodes[n].(word := NodeStep(g, n, false, ops).graph.nodes[n].word)
    ensures (NodeStep(g, n, false, ops).changes == 0 <==> NodeStep(g, n, false, ops).graph == g)
    ensures (NodeStep(g, n, false, ops).changes == 0 <==> NodeStep(g, n, false, ops).graph.nodes[n].word.None?)
    ensures (NodeStep(g, n, false, ops).changes == 1 <==> forall j :: 0 <= j < |g.edges| && g.edges[j].target == n ==> g.edges[j].word.Some?)
    ensures NodeStep(g, n, false, ops).changes <= 1
  {
    var r := NodeStep(g, n, false, ops);
    var ins := EdgesAt(g.edges, n, false);
    EdgesAtEndpoint(g.edges, n, false);
    EdgesAtComplete(g.edges, n, false);
    if AllFilled(g.edges, ins) {
      forall j | 0 <= j < |g.edges| && g.edges[j].target == n ensures g.edges[j].word.Some? {
        assert Endpoint(g.edges[j], false) == n;
      }
      assert r.graph.nodes[n] != g.nodes[n];
    } else {
      var i :| 0 <= i < |ins| && g.edges[ins[i]].word.None?;
      assert g.edges[ins[i]].target == n;
    }
  }

  /** A corrected node step lowers the measure by the number of changes it
      counts. */
  lemma NodeStepMeasure(g: Graph, n: nat, ops: WordOps)
    requires n < |g.nodes|
    ensures Unsettled(NodeStep(g, n, false, ops).graph) + NodeStep(g, n, false, ops).changes == Unsettled(g)
  {
    var r := NodeStep(g, n, false, ops);
    if g.nodes[n].word.Some? {
      OutStepSpec(g, n, ops);
    } else {
      InStepSpec(g, n, ops);
      if r.changes == 1 {
        CountIfUpdate(g.nodes, n, r.graph.nodes[n], Wordless);
        assert r.graph.nodes == g.nodes[n := r.graph.nodes[n]];
      }
    }
  }

  /** A corrected node step only adds words: it changes no node but `n`,
      gives `n` a word only once all its incoming slots are filled, and
      never rewrites a given word or a filled slot. */
  lemma NodeStepGrows(g: Graph, n: nat, ops: WordOps)
    requires n < |g.nodes|
    ensures Grows(g, NodeStep(g, n, false, ops).graph) && FilledWhenReady(g, NodeStep(g, n, false, ops).graph)
    ensures forall m :: 0 <= m < |g.nodes| && m != n ==> NodeStep(g, n, false, ops).graph.nodes[m] == g.nodes[m]
  {
    if g.nodes[n].word.Some? {
      OutStepSpec(g, n, ops);
    } else {
      InStepSpec(g, n, ops);
    }
  }

  /** A corrected node step changes nothing exactly when it leaves the graph
      as it is, and exactly when node `n` is quiet. */
  lemma NodeStepQuiet(g: Graph, n: nat, ops: WordOps)
    requires n < |g.nodes|
    ensures NodeStep(g, n, false, ops).changes == 0 <==> NodeStep(g, n, false, ops).graph == g
    ensures NodeStep(g, n, false, ops).changes == 0 <==> Quiet(g, n)
  {
    if g.nodes[n].word.Some? {
      OutStepSpec(g, n, ops);
    } else {
      InStepSpec(g, n, ops);
    }
  }

  /** A corrected node step gives only the words the operations make: a
      worded node fills each empty outgoing slot with `derive` of its own
      word, and a ready wordless node gets `join` of its incoming slots. */
  lemma NodeStepConsistent(g: Graph, n: nat, ops: WordOps)
    requires n < |g.nodes|
    ensures Grows(g, NodeStep(g, n, false, ops).graph)
    ensures Consistent(g, NodeStep(g, n, false, ops).graph, ops)
  {
    NodeStepGrows(g, n, ops);
    var h := NodeStep(g, n, false, ops).graph;
    if g.nodes[n].word.Some? {
      var w := g.nodes[n].word.value;
      FillOutAt(w, g.edges, n, ops);
      forall j | 0 <= j < |g.edges| && g.edges[j].word.None? && h.edges[j].word.Some?
        ensures DerivedSlot(h, j, ops)
      {
        assert h.edges[j] == Derived(g.edges[j], w, ops);
      }
    } else if AllFilled(g.edges, EdgesAt(g.edges, n, false)) {
      assert h.edges == g.edges;
      assert JoinedNode(h, n, ops);
    }
  }

  // ---------------------------------------------------------------------------
  // From node steps to passes
  // ---------------------------------------------------------------------------

  /** Every step lowers the measure by the changes it counts. */
  ghost predicate Lowers(step: Step)
  {
    forall g: Graph, n: nat :: Unsettled(step(g, n).graph) + step(g, n).changes == Unsettled(g)
  }

  /** Every step only adds words, and touches no node but its own. */
  ghost predicate Adds(step: Step)
  {
    forall g: Graph, n: nat ::
      && Grows(g, step(g, n).graph)
      && FilledWhenReady(g, step(g, n).graph)
      && (forall m :: 0 <= m < |g.nodes| && m != n ==> step(g, n).graph.nodes[m] == g.nodes[m])
  }

  /** A step without changes leaves the graph as it is, and its node is
      quiet. */
  ghost predicate StillWhenQuiet(step: Step)
  {
    forall g: Graph, n: nat :: step(g, n).changes == 0 ==>
      step(g, n).graph == g && (n < |g.nodes| ==> Quiet(g, n))
  }

  /** The corrected step lowers the measure. */
  lemma StepperLowers(ops: WordOps)
    ensures Lowers(Stepper(false, ops))
  {
    forall g: Graph, n: nat
      ensures Unsettled(Stepper(false, ops)(g, n).graph) + Stepper(false, ops)(g, n).changes == Unsettled(g)
    {
      if n < |g.nodes| {
        NodeStepMeasure(g, n, ops);
      }
    }
  }

  /** The corrected step only adds words. */
  lemma StepperAdds(ops: WordOps)
    ensures Adds(Stepper(false, ops))
  {
    forall g: Graph, n: nat
      ensures Grows(g, Stepper(false, ops)(g, n).graph) && FilledWhenReady(g, Stepper(false, ops)(g, n).graph)
      ensures forall m :: 0 <= m < |g.nodes| && m != n ==> Stepper(false, ops)(g, n).graph.nodes[m] == g.nodes[m]
    {
      if n < |g.nodes| {
        NodeStepGrows(g, n, ops);
      } else {
        GrowsRefl(g);
      }
    }
  }

  /** A corrected step without changes is a quiet node. */
  lemma StepperStill(ops: WordOps)
    ensures StillWhenQuiet(Stepper(false, ops))
  {
    forall g: Graph, n: nat | Stepper(false, ops)(g, n).changes == 0
      ensures Stepper(false, ops)(g, n).graph == g && (n < |g.nodes| ==> Quiet(g, n))
    {
      if n < |g.nodes| {
        NodeStepQuiet(g, n, ops);
      }
    }
  }

  /** Every step grows the graph consistently with the word operations. */
  ghost predicate KeepsConsistent(step: Step, ops: WordOps)
  {
    forall g: Graph, n: nat :: Grows(g, step(g, n).graph) && Consistent(g, step(g, n).graph, ops)
  }

  /** The corrected step gives only the words the operations make. */
  lemma StepperConsistent(ops: WordOps)
    ensures KeepsConsistent(Stepper(false, ops), ops)
  {
    forall g: Graph, n: nat
      ensures Grows(g, Stepper(false, ops)(g, n).graph) && Consistent(g, Stepper(false, ops)(g, n).graph, ops)
    {
      if n < |g.nodes| {
        NodeStepConsistent(g, n, ops);
      } else {
        GrowsRefl(g);
      }
    }
  }

  /** A pass over nodes `0 .. k - 1` of steps that lower the measure lowers
      it by the number of changes it counts. */
  lemma {:induction false} PassUpToMeasure(g: Graph, k: nat, step: Step)
    requires Lowers(step)
    ensures Unsettled(PassUpTo(g, k, step).graph) + PassUpTo(g, k, step).changes == Unsettled(g)
  {
    if k > 0 {
      PassUpToMeasure(g, k - 1, step);
    }
  }

  /** A pass over nodes `0 .. k - 1` of steps that only add words only adds
      words, and leaves the nodes from `k` on as they are. */
  lemma {:induction false} PassUpToGrows(g: Graph, k: nat, step: Step)
    requires Adds(step)
    ensures Grows(g, PassUpTo(g, k, step).graph) && FilledWhenReady(g, PassUpTo(g, k, step).graph)
    ensures forall m :: k <= m < |g.nodes| ==> PassUpTo(g, k, step).graph.nodes[m] == g.nodes[m]
  {
    if k == 0 {
      GrowsRefl(g);
    } else {
      PassUpToGrows(g, k - 1, step);
      var prev := PassUpTo(g, k - 1, step);
      var next := step(prev.graph, k - 1);
      FilledWhenReadyTransitive(g, prev.graph, next.graph);
    }
  }

  /** A pass without changes leaves the graph as it is, and every node it
      visited is quiet. */
  lemma {:induction false} PassUpToQuiet(g: Graph, k: nat, step: Step)
    requires StillWhenQuiet(step)
    requires k <= |g.nodes|
    ensures PassUpTo(g, k, step).changes == 0 ==> PassUpTo(g, k, step).graph == g
    ensures PassUpTo(g, k, step).changes == 0 ==> forall m :: 0 <= m < k ==> Quiet(g, m)
  {
    if k > 0 {
      PassUpToQuiet(g, k - 1, step);
    }
  }

  /** A pass of consistent steps grows the graph consistently. */
  lemma {:induction false} PassUpToConsistent(g: Graph, k: nat, step: Step, ops: WordOps)
    requires KeepsConsistent(step, ops)
    ensures Grows(g, PassUpTo(g, k, step).graph) && Consistent(g, PassUpTo(g, k, step).graph, ops)
  {
    if k == 0 {
      GrowsRefl(g);
    } else {
      PassUpToConsistent(g, k - 1, step, ops);
      var prev := PassUpTo(g, k - 1, step);
      ConsistentTransitive(g, prev.graph, step(prev.graph, k - 1).graph, ops);
    }
  }

  /** `compute_lexicon`'s loop, corrected: passes until one makes no change.
      Each changing pass lowers the measure, so the loop ends. */
  function Settle(g: Graph, ops: WordOps): Graph
    decreases Unsettled(g)
  {
    var p := Pass(g, Stepper(false, ops));
    StepperLowers(ops);
    PassUpToMeasure(g, |g.nodes|, Stepper(false, ops));
    if p.changes == 0 then p.graph else Settle(p.graph, ops)
  }

  /** Every word the corrected loop adds is the one the word operations
      make of the words it depends on. */
  lemma {:induction false} SettleConsistent(g: Graph, ops: WordOps)
    decreases Unsettled(g)
    ensures Grows(g, Settle(g, ops)) && Consistent(g, Settle(g, ops), ops)
  {
    var step := Stepper(false, ops);
    var p := Pass(g, step);
    StepperConsistent(ops);
    PassUpToConsistent(g, |g.nodes|, step, ops);
    if p.changes != 0 {
      StepperLowers(ops);
      PassUpToMeasure(g, |g.nodes|, step);
      SettleConsistent(p.graph, ops);
      ConsistentTransitive(g, p.graph, Settle(p.graph, ops), ops);
    }
  }

  /** The settled graph: `g` with words added, the given words and filled
      slots kept; one more pass changes nothing; every node is quiet; every
      node that received a word has all incoming slots filled; and every
      word it received is the one the word operations make (`Consistent`). */
  lemma {:induction false} SettleSpec(g: Graph, ops: WordOps)
    requires EdgesIn(g)
    decreases Unsettled(g)
    ensures Grows(g, Settle(g, ops)) && FilledWhenReady(g, Settle(g, ops)) && EdgesIn(Settle(g, ops))
    ensures Consistent(g, Settle(g, ops), ops)
    ensures Pass(Settle(g, ops), Stepper(false, ops)).graph == Settle(g, ops)
    ensures Pass(Settle(g, ops), Stepper(false, ops)).changes == 0
    ensures forall m :: 0 <= m < |Settle(g, ops).nodes| ==> Quiet(Settle(g, ops), m)
  {
    SettleConsistent(g, ops);
    var step := Stepper(false, ops);
    var p := Pass(g, step);
    StepperAdds(ops);
    StepperStill(ops);
    PassUpToGrows(g, |g.nodes|, step);
    PassUpToQuiet(g, |g.nodes|, step);
    if p.changes == 0 {
      GrowsRefl(g);
    } else {
      StepperLowers(ops);
      PassUpToMeasure(g, |g.nodes|, step);
      SettleSpec(p.graph, ops);
      FilledWhenReadyTransitive(g, p.graph, Settle(p.graph, ops));
    }
  }

  /** The settled graph read edge by edge: no worded node has an empty
      outgoing slot, and every wordless node has an empty incoming slot. */
  lemma SettledSlots(g: Graph, ops: WordOps)
    requires EdgesIn(g)
    ensures EdgesIn(Settle(g, ops))
    ensures (forall j :: 0 <= j < |Settle(g, ops).edges| && Settle(g, ops).nodes[Settle(g, ops).edges[j].source].word.Some? ==> Settle(g, ops).edges[j].word.Some?)
    ensures (forall m :: 0 <= m < |Settle(g, ops).nodes| && Settle(g, ops).nodes[m].word.None? ==>
          exists j :: 0 <= j < |Settle(g, ops).edges| && Settle(g, ops).edges[j].target == m && Settle(g, ops).edges[j].word.None?)
  {
    SettleSpec(g, ops);
    var s := Settle(g, ops);
    forall j | 0 <= j < |s.edges| && s.nodes[s.edges[j].source].word.Some? ensures s.edges[j].word.Some? {
      assert Quiet(s, s.edges[j].source);
    }
    forall m | 0 <= m < |s.nodes| && s.nodes[m].word.None?
      ensures exists j :: 0 <= j < |s.edges| && s.edges[j].target == m && s.edges[j].word.None?
    {
      assert Quiet(s, m);
    }
  }

  /** The words of the settled lexicon: every slot the loop filled holds
      the word its transforms make of its etymon's word, and every node
      that received a word holds the agglutination (`join_string_vectors`)
      of its incoming slots. */
  lemma SettledWords(g: Graph)
    requires EdgesIn(g)
    ensures var s := Settle(g, KirumOps);
      && |s.edges| == |g.edges| && |s.nodes| == |g.nodes| && EdgesIn(s)
      && (forall j :: 0 <= j < |g.edges| && g.edges[j].word.None? && s.edges[j].word.Some? ==>
            s.nodes[s.edges[j].source].word.Some? &&
            s.edges[j].word == Some(WordAfter(s.edges[j].trans.transforms, s.nodes[s.edges[j].source].word.value)))
      && (forall m :: 0 <= m < |g.nodes| && g.nodes[m].word.None? && s.nodes[m].word.Some? ==>
            AllFilled(s.edges, EdgesAt(s.edges, m, false)) &&
            s.nodes[m].word == Some(JoinWords(Upstreams(s.edges, EdgesAt(s.edges, m, false)))))
  {
    SettleSpec(g, KirumOps);
    var s := Settle(g, KirumOps);
    forall j | 0 <= j < |g.edges| && g.edges[j].word.None? && s.edges[j].word.Some?
      ensures s.nodes[s.edges[j].source].word.Some?
      ensures s.edges[j].word == Some(WordAfter(s.edges[j].trans.transforms, s.nodes[s.edges[j].source].word.value))
    {
      assert DerivedSlot(s, j, KirumOps);
    }
    forall m | 0 <= m < |g.nodes| && g.nodes[m].word.None? && s.nodes[m].word.Some?
      ensures AllFilled(s.edges, EdgesAt(s.edges, m, false))
      ensures s.nodes[m].word == Some(JoinWords(Upstreams(s.edges, EdgesAt(s.edges, m, false))))
    {
      assert JoinedNode(s, m, KirumOps);
    }
  }

  /** The loop over the outgoing edges `outs` of the worded node `lex`, over
      the snapshot of the edges taken before it. */
  method FillOutgoing(lex: Lexis, snapshot: seq<Edge>, outs: seq<nat>) returns (edges: seq<Edge>, filled: nat)
    requires lex.word.Some?
    requires forall i :: 0 <= i < |outs| ==> outs[i] < |snapshot|
    ensures edges == FillOut(lex.word.value, snapshot, outs, false, KirumOps).edges
    ensures filled == FillOut(lex.word.value, snapshot, outs, false, KirumOps).count
  {
    edges, filled := snapshot, 0;
    for i := 0 to |outs|
      invariant edges == FillOut(lex.word.value, snapshot, outs[..i], false, KirumOps).edges
      invariant filled == FillOut(lex.word.value, snapshot, outs[..i], false, KirumOps).count
    {
      assert outs[..i + 1][..i] == outs[..i];
      var e := outs[i];
      if snapshot[e].word.Some? {
        continue;
      }
      var transformed := TransformEtymon(snapshot[e].trans, lex);
      ApplyAllWord(snapshot[e].trans.transforms, lex);
      edges := edges[e := snapshot[e].(word := transformed.word)];
      filled := filled + 1;
    }
    assert outs[..|outs|] == outs;
  }

  /** The loop over the incoming edges `ins` of a wordless node: the upstream
      words, or None at the first empty slot. */
  method CollectUpstreams(edges: seq<Edge>, ins: seq<nat>) returns (upstreams: Option<seq<(I32, Word)>>)
    requires forall i :: 0 <= i < |ins| ==> ins[i] < |edges|
    ensures upstreams.Some? <==> AllFilled(edges, ins)
    ensures upstreams.Some? ==> upstreams.value == Upstreams(edges, ins)
  {
    var collected: seq<(I32, Word)> := [];
    for i := 0 to |ins|
      invariant AllFilled(edges, ins[..i]) && collected == Upstreams(edges, ins[..i])
    {
      var e := ins[i];
      if edges[e].word.None? {
        return None;
      }
      assert ins[..i + 1][..i] == ins[..i];
      collected := collected + [(OrderOf(edges[e].trans), edges[e].word.value)];
    }
    assert ins[..|ins|] == ins;
    upstreams := Some(collected);
  }

  /** The loop body for one node. */
  method VisitNode(rendered: Graph, node: nat) returns (next: Graph, changes: nat)
    requires node < |rendered.nodes|
    ensures next == NodeStep(rendered, node, false, KirumOps).graph && changes == NodeStep(rendered, node, false, KirumOps).changes
  {
    if rendered.nodes[node].word.Some? {
      var outs := EdgesAt(rendered.edges, node, true);
      var edges;
      edges, changes := FillOutgoing(rendered.nodes[node], rendered.edges, outs);
      next := rendered.(edges := edges);
    } else {
      var ins := EdgesAt(rendered.edges, node, false);
      var upstreams := CollectUpstreams(rendered.edges, ins);
      if upstreams.Some? {
        var word := JoinStringVectors(upstreams.value);
        next := rendered.(nodes := rendered.nodes[node := rendered.nodes[node].(word := Some(word))]);
        changes := 1;
      } else {
        next, changes := rendered, 0;
      }
    }
  }

  /** One corrected pass of the `while incomplete` loop: every node in
      index order. */
  method RenderPass(g: Graph) returns (rendered: Graph, changes: nat)
    ensures rendered == Pass(g, Stepper(false, KirumOps)).graph
    ensures changes == Pass(g, Stepper(false, KirumOps)).changes
  {
    rendered, changes := g, 0;
    for node := 0 to |g.nodes|
      invariant |rendered.nodes| == |g.nodes|
      invariant rendered == PassUpTo(g, node, Stepper(false, KirumOps)).graph
      invariant changes == PassUpTo(g, node, Stepper(false, KirumOps)).changes
    {
      var next, c := VisitNode(rendered, node);
      rendered, changes := next, changes + c;
    }
  }


  // ---------------------------------------------------------------------------
  // `reduce_to_dict`
  // ---------------------------------------------------------------------------

  /** The order Rust derives for `Word`: every `Letters` word before every
      `String` word, then lexicographic within each variant. */
  predicate WordLe(a: Word, b: Word)
  {
    match (a, b)
    case (Letters(x), Letters(y)) => SeqLe(x, y)
    case (String(x), String(y)) => StrLe(x, y)
    case (Letters(_), String(_)) => true
    case (String(_), Letters(_)) => false
  }

  lemma WordLeTotal(a: Word, b: Word)
    ensures WordLe(a, b) || WordLe(b, a)
  {
    if a.Letters? && b.Letters? {
      SeqLeTotal(a.letters, b.letters);
    } else if a.String? && b.String? {
      StrLeTotal(a.text, b.text);
    }
  }

  lemma WordLeTransitive(a: Word, b: Word, c: Word)
    requires WordLe(a, b) && WordLe(b, c)
    ensures WordLe(a, c)
  {
    if a.Letters? && b.Letters? && c.Letters? {
      SeqLeTransitive(a.letters, b.letters, c.letters);
    } else if a.String? && b.String? && c.String? {
      StrLeTransitive(a.text, b.text, c.text);
    }
  }

  /** The sort key of `reduce_to_dict`, `word.unwrap()`; every listed
      lexis has a word, so the fallback (`Word::default()`) is never used. */
  function WordKey(l: Lexis): Word
  {
    l.word.UnwrapOr(String([]))
  }

  predicate ByWord(a: Lexis, b: Lexis)
  {
    WordLe(WordKey(a), WordKey(b))
  }

  /** The order on lexes by word is total and transitive. */
  lemma ByWordOrder()
    ensures Total(ByWord) && Transitive(ByWord)
  {
    forall a: Lexis, b: Lexis ensures ByWord(a, b) || ByWord(b, a) {
      WordLeTotal(WordKey(a), WordKey(b));
    }
    forall a: Lexis, b: Lexis, c: Lexis | ByWord(a, b) && ByWord(b, c) ensures ByWord(a, c) {
      WordLeTransitive(WordKey(a), WordKey(b), WordKey(c));
    }
  }

  /** The nodes `reduce_to_dict` keeps: a word, and the filter passes. */
  function Kept(filter: Lexis -> bool): Lexis -> bool
  {
    (l: Lexis) => l.word.Some? && filter(l)
  }

  /** The tree `compute_lexicon` returns. */
  datatype RenderedTree = RenderedTree(graph: Graph)
  {
    /** `reduce_to_dict`: the worded nodes the filter accepts, in node
        order, then stably sorted by word. */
    method ReduceToDict(filter: Lexis -> bool) returns (dict: seq<Lexis>)
      ensures dict == StableSort(Filter(graph.nodes, Kept(filter)), ByWord)
    {
      var kept: seq<Lexis> := [];
      for i := 0 to |graph.nodes|
        invariant kept == Filter(graph.nodes[..i], Kept(filter))
      {
        assert graph.nodes[..i + 1] == graph.nodes[..i] + [graph.nodes[i]];
        FilterSnoc(graph.nodes[..i], graph.nodes[i], Kept(filter));
        if graph.nodes[i].word.Some? && filter(graph.nodes[i]) {
          kept := kept + [graph.nodes[i]];
        }
      }
      assert graph.nodes[..|graph.nodes|] == graph.nodes;
      dict := StableSort(kept, ByWord);
    }
  }

  /** The dictionary holds exactly the worded nodes the filter accepts, each
      as often as in the graph, sorted by word; lexes with equal words keep
      their node order. */
  lemma ReduceToDictSpec(tree: RenderedTree, filter: Lexis -> bool, y: Lexis)
    ensures Sorted(StableSort(Filter(tree.graph.nodes, Kept(filter)), ByWord), ByWord)
    ensures multiset(StableSort(Filter(tree.graph.nodes, Kept(filter)), ByWord)) == multiset(Filter(tree.graph.nodes, Kept(filter)))
    ensures forall l :: l in StableSort(Filter(tree.graph.nodes, Kept(filter)), ByWord) <==>
      l in tree.graph.nodes && l.word.Some? && filter(l)
    ensures Filter(StableSort(Filter(tree.graph.nodes, Kept(filter)), ByWord), SameKey(ByWord, y)) ==
      Filter(Filter(tree.graph.nodes, Kept(filter)), SameKey(ByWord, y))
  {
    var kept := Filter(tree.graph.nodes, Kept(filter));
    ByWordOrder();
    StableSortSpec(kept, ByWord, y);
    FilterMember(tree.graph.nodes, Kept(filter));
    FilterKeeps(tree.graph.nodes, Kept(filter));
    forall l | l in StableSort(kept, ByWord) ensures l in kept {
      assert l in multiset(StableSort(kept, ByWord));
    }
    forall l | l in kept ensures l in StableSort(kept, ByWord) {
      assert l in multiset(kept);
    }
  }
}
