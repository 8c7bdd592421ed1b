/** The first engine of the repository, src/kirum.rs with src/reader.rs: the
    raw word map is read into a graph (`render_graph`), and the tree runs
    `compute_lexicon` on its own graph in place.  Its `Lexis`, `Transform`,
    `Word` and word operations are those of libkirum (modules `Kirum` and
    `Words`); the pass is `Kirum`'s, with each slot written at its own
    edge. */
module LegacyKirum {
  import opened Wrappers
  import opened Strings
  import opened Letters
  import opened Words
  import opened Sorting
  import opened Kirum

  // ---------------------------------------------------------------------------
  // The raw entries of src/reader.rs
  // ---------------------------------------------------------------------------

  /** `Edge` of src/word.rs: one etymon of an entry, by id, the name of the
      transform that derives the entry from it, and its agglutination order. */
  datatype RawEdge = RawEdge(etymon: string, transform: string, agglutinationOrder: Option<I32>)

  /** `Etymology`: the etymons (its `agglutination` field is never read). */
  datatype Etymology = Etymology(etymons: seq<RawEdge>)

  /** `RawLexicalEntry`, as deserialised (a missing `archaic` is false). */
  datatype RawLexicalEntry = RawLexicalEntry(
    word: Option<Word>,
    wordType: Option<string>,
    language: Option<string>,
    definition: string,
    partOfSpeech: Option<PartOfSpeech>,
    etymology: Option<Etymology>,
    archaic: bool,
    tags: Option<seq<string>>)

  /** `LangError::ValidationError`, the only error `render_graph` returns. */
  datatype LangError = ValidationError(message: string)

  /** `From<RawLexicalEntry> for Lexis`: no id yet, the absent language,
      type and tags become empty, the other fields are copied. */
  function FromRaw(source: RawLexicalEntry): (r: Lexis)
    ensures r.id == [] && r.language == source.language.UnwrapOr([]) && r.lexisType == source.wordType.UnwrapOr([])
    ensures r.tags == source.tags.UnwrapOr([])
    ensures r.word == source.word && r.pos == source.partOfSpeech
    ensures r.definition == source.definition && r.archaic == source.archaic
  {
    Lexis([], source.word, source.language.UnwrapOr([]), source.partOfSpeech,
      source.wordType.UnwrapOr([]), source.definition, source.archaic, source.tags.UnwrapOr([]))
  }

  /** An entry that sets nothing but its word converts to the default lexis
      with that word. */
  lemma FromRawDefault(w: Option<Word>, ety: Option<Etymology>)
    ensures FromRaw(RawLexicalEntry(w, None, None, [], None, ety, false, None)) == DefaultLexis.(word := w)
  {
  }

  /** The etymons an entry lists; none without an etymology. */
  function EtymonsOf(entry: RawLexicalEntry): seq<RawEdge>
  {
    if entry.etymology.None? then [] else entry.etymology.value.etymons
  }

  // ---------------------------------------------------------------------------
  // `render_graph`
  // ---------------------------------------------------------------------------

  /** The transform lists by name. */
  type Known = map<string, seq<TransformFunc>>

  /** The order a `HashMap` yields its keys in: each key once.  Rust leaves
      the order unspecified, so the model takes it as a parameter. */
  ghost predicate IterationOrder(words: map<string, RawLexicalEntry>, order: seq<string>)
  {
    && (forall k :: k in words <==> k in order)
    && (forall i, j :: 0 <= i < j < |order| ==> order[i] != order[j])
  }

  /** The node of entry `k`: the converted entry, with the key as its id. */
  function NodeOf(words: map<string, RawLexicalEntry>, k: string): Lexis
    requires k in words
  {
    FromRaw(words[k]).(id := k)
  }

  /** The nodes the first loop adds, one per key in order. */
  function Nodes(words: map<string, RawLexicalEntry>, order: seq<string>): (r: seq<Lexis>)
    requires forall k :: k in order ==> k in words
    ensures |r| == |order|
    ensures forall i :: 0 <= i < |order| ==> r[i] == NodeOf(words, order[i])
  {
    if order == [] then []
    else Nodes(words, order[..|order| - 1]) + [NodeOf(words, order[|order| - 1])]
  }

  /** The `added` map the first loop builds: each key to its node index. */
  function Index(order: seq<string>): (r: map<string, nat>)
    ensures forall k :: k in r <==> k in order
    ensures forall k :: k in r ==> r[k] < |order| && order[r[k]] == k
  {
    if order == [] then map[]
    else Index(order[..|order| - 1])[order[|order| - 1] := |order| - 1]
  }

  /** With distinct keys, each key maps to its own position. */
  lemma {:induction false} IndexAt(order: seq<string>, i: nat)
    requires forall a, b :: 0 <= a < b < |order| ==> order[a] != order[b]
    requires i < |order|
    ensures Index(order)[order[i]] == i
  {
    if i < |order| - 1 {
      IndexAt(order[..|order| - 1], i);
    }
  }

  function TransformMissing(name: string): LangError
  {
    ValidationError("could not find transform with ID " + name)
  }

  function EtymonMissing(id: string): LangError
  {
    ValidationError("could not find etymon with ID " + id)
  }

  /** The edges the etymons `ets` of the node at `target` add, or the error
      of the first etymon whose transform (checked first) or etymon is
      unknown. */
  function EtymonEdges(ets: seq<RawEdge>, target: nat, added: map<string, nat>, known: Known): Result<seq<Edge>, LangError>
  {
    if ets == [] then Ok([])
    else
      var prev := EtymonEdges(ets[..|ets| - 1], target, added, known);
      var et := ets[|ets| - 1];
      if prev.Err? then prev
      else if et.transform !in known then Err(TransformMissing(et.transform))
      else if et.etymon !in added then Err(EtymonMissing(et.etymon))
      else Ok(prev.value + [Edge(added[et.etymon], target, Transform(et.transform, known[et.transform], et.agglutinationOrder), None)])
  }

  /** The edges of the second loop over the keys `keys`, or its first
      error. */
  function GraphEdges(words: map<string, RawLexicalEntry>, keys: seq<string>, added: map<string, nat>, known: Known): Result<seq<Edge>, LangError>
    requires forall k :: k in keys ==> k in words && k in added
  {
    if keys == [] then Ok([])
    else
      var prev := GraphEdges(words, keys[..|keys| - 1], added, known);
      var k := keys[|keys| - 1];
      var es := EtymonEdges(EtymonsOf(words[k]), added[k], added, known);
      if prev.Err? then prev
      else if es.Err? then es
      else Ok(prev.value + es.value)
  }

  /** The graph `render_graph` returns: one node per entry, then one edge
      per etymon. */
  function ReadGraph(words: map<string, RawLexicalEntry>, order: seq<string>, known: Known): Result<Graph, LangError>
    requires forall k :: k in order ==> k in words
  {
    var edges := GraphEdges(words, order, Index(order), known);
    if edges.Err? then Err(edges.error) else Ok(Graph(Nodes(words, order), edges.value))
  }

  /** `render_graph`: the first loop adds the nodes and fills `added`, the
      second adds the edges of each entry's etymons and stops at the first
      unknown transform or etymon.  (Its third check, for the derived entry
      itself, cannot fail: every key was added by the first loop.) */
  method RenderGraph(words: map<string, RawLexicalEntry>, order: seq<string>, known: Known) returns (r: Result<Graph, LangError>)
    requires forall k :: k in order ==> k in words
    ensures r == ReadGraph(words, order, known)
  {
    var nodes, added := AddNodes(words, order);
    var edges := AddEdges(words, order, added, known);
    if edges.Err? {
      return Err(edges.error);
    }
    r := Ok(Graph(nodes, edges.value));
  }

  /** The second loop of `render_graph`: the edges of each entry's etymons,
      returning at the first error. */
  method AddEdges(words: map<string, RawLexicalEntry>, keys: seq<string>, added: map<string, nat>, known: Known) returns (r: Result<seq<Edge>, LangError>)
    requires forall k :: k in keys ==> k in words && k in added
    ensures r == GraphEdges(words, keys, added, known)
  {
    var edges: seq<Edge> := [];
    for i := 0 to |keys|
      invariant GraphEdges(words, keys[..i], added, known) == Ok(edges)
    {
      assert keys[..i + 1][..i] == keys[..i];
      var k := keys[i];
      var own := AddEtymons(EtymonsOf(words[k]), added[k], added, known);
      if own.Err? {
        GraphEdgesErr(words, keys, i + 1, added, known);
        return Err(own.error);
      }
      edges := edges + own.value;
    }
    assert keys[..|keys|] == keys;
    r := Ok(edges);
  }

  /** The first loop of `render_graph`: a node per key, and its index in
      `added`. */
  method AddNodes(words: map<string, RawLexicalEntry>, order: seq<string>) returns (nodes: seq<Lexis>, added: map<string, nat>)
    requires forall k :: k in order ==> k in words
    ensures nodes == Nodes(words, order) && added == Index(order)
  {
    nodes, added := [], map[];
    for i := 0 to |order|
      invariant nodes == Nodes(words, order[..i])
      invariant added == Index(order[..i])
    {
      assert order[..i + 1][..i] == order[..i];
      nodes := nodes + [NodeOf(words, order[i])];
      added := added[order[i] := i];
    }
    assert order[..|order|] == order;
  }

  /** The loop over one entry's etymons, returning at the first unknown
      transform or etymon. */
  method AddEtymons(ets: seq<RawEdge>, target: nat, added: map<string, nat>, known: Known) returns (r: Result<seq<Edge>, LangError>)
    ensures r == EtymonEdges(ets, target, added, known)
  {
    var own: seq<Edge> := [];
    for j := 0 to |ets|
      invariant EtymonEdges(ets[..j], target, added, known) == Ok(own)
    {
      assert ets[..j + 1][..j] == ets[..j];
      var et := ets[j];
      if et.transform !in known {
        EtymonEdgesErr(ets, j + 1, target, added, known);
        return Err(TransformMissing(et.transform));
      }
      if et.etymon !in added {
        EtymonEdgesErr(ets, j + 1, target, added, known);
        return Err(EtymonMissing(et.etymon));
      }
      own := own + [Edge(added[et.etymon], target, Transform(et.transform, known[et.transform], et.agglutinationOrder), None)];
    }
    assert ets[..|ets|] == ets;
    r := Ok(own);
  }

  /** An error among the first `j` etymons is the error of the whole list. */
  lemma {:induction false} EtymonEdgesErr(ets: seq<RawEdge>, j: nat, target: nat, added: map<string, nat>, known: Known)
    requires j <= |ets|
    requires EtymonEdges(ets[..j], target, added, known).Err?
    ensures EtymonEdges(ets, target, added, known) == EtymonEdges(ets[..j], target, added, known)
  {
    if j < |ets| {
      assert ets[..|ets| - 1][..j] == ets[..j];
      EtymonEdgesErr(ets[..|ets| - 1], j, target, added, known);
    } else {
      assert ets[..j] == ets;
    }
  }

  /** An error among the first `i` keys is the error of the whole loop. */
  lemma {:induction false} GraphEdgesErr(words: map<string, RawLexicalEntry>, keys: seq<string>, i: nat, added: map<string, nat>, known: Known)
    requires i <= |keys|
    requires forall k :: k in keys ==> k in words && k in added
    requires GraphEdges(words, keys[..i], added, known).Err?
    ensures GraphEdges(words, keys, added, known) == GraphEdges(words, keys[..i], added, known)
  {
    if i < |keys| {
      assert keys[..|keys| - 1][..i] == keys[..i];
      GraphEdgesErr(words, keys[..|keys| - 1], i, added, known);
    } else {
      assert keys[..i] == keys;
    }
  }

  /** Every etymon of the list names a known transform and an added id. */
  predicate Resolvable(ets: seq<RawEdge>, added: map<string, nat>, known: Known)
  {
    forall i :: 0 <= i < |ets| ==> ets[i].transform in known && ets[i].etymon in added
  }

  /** The etymons of one entry give one edge each, from the etymon's node to
      `target`, with the named transform, the etymon's order and an empty
      slot, exactly when every one resolves; otherwise the error names the
      first that does not, its transform checked before its etymon. */
  lemma {:induction false} EtymonEdgesSpec(ets: seq<RawEdge>, target: nat, added: map<string, nat>, known: Known)
    ensures EtymonEdges(ets, target, added, known).Ok? <==> Resolvable(ets, added, known)
    ensures EtymonEdges(ets, target, added, known).Ok? ==>
      var es := EtymonEdges(ets, target, added, known).value;
      && |es| == |ets|
      && forall i :: 0 <= i < |es| ==>
        es[i] == Edge(added[ets[i].etymon], target, Transform(ets[i].transform, known[ets[i].transform], ets[i].agglutinationOrder), None)
    ensures EtymonEdges(ets, target, added, known).Err? ==>
      exists i :: 0 <= i < |ets| && Resolvable(ets[..i], added, known) &&
        EtymonEdges(ets, target, added, known).error ==
          (if ets[i].transform !in known then TransformMissing(ets[i].transform) else EtymonMissing(ets[i].etymon)) &&
        !(ets[i].transform in known && ets[i].etymon in added)
  {
    if ets != [] {
      var n := |ets| - 1;
      EtymonEdgesSpec(ets[..n], target, added, known);
      var prev := EtymonEdges(ets[..n], target, added, known);
      if prev.Err? {
        var i :| 0 <= i < n && Resolvable(ets[..n][..i], added, known) &&
          prev.error == (if ets[..n][i].transform !in known then TransformMissing(ets[..n][i].transform) else EtymonMissing(ets[..n][i].etymon)) &&
          !(ets[..n][i].transform in known && ets[..n][i].etymon in added);
        assert ets[..n][..i] == ets[..i];
        assert !Resolvable(ets, added, known) by {
          assert ets[..n][i] == ets[i];
        }
      } else {
        assert ets[..n] == ets[..n][..n];
        if !Resolvable(ets, added, known) {
          assert !(ets[n].transform in known && ets[n].etymon in added);
        }
      }
    }
  }

  /** All etymons of all entries resolve. */
  predicate AllResolvable(words: map<string, RawLexicalEntry>, keys: seq<string>, added: map<string, nat>, known: Known)
    requires forall k :: k in keys ==> k in words
  {
    forall i :: 0 <= i < |keys| ==> Resolvable(EtymonsOf(words[keys[i]]), added, known)
  }

  /** How many etymons the entries list in all. */
  function EtymonTotal(words: map<string, RawLexicalEntry>, keys: seq<string>): nat
    requires forall k :: k in keys ==> k in words
  {
    if keys == [] then 0
    else EtymonTotal(words, keys[..|keys| - 1]) + |EtymonsOf(words[keys[|keys| - 1]])|
  }

  /** `e` is the edge etymon `et` adds to the node at `target`. */
  predicate EdgeOf(et: RawEdge, target: nat, added: map<string, nat>, known: Known, e: Edge)
  {
    && et.etymon in added && et.transform in known
    && e == Edge(added[et.etymon], target, Transform(et.transform, known[et.transform], et.agglutinationOrder), None)
  }

  /** Edge `e` came from one of the etymons of an entry: its source is that
      etymon's node, its target the entry's own, its transform the named
      one. */
  ghost predicate FromSomeEtymon(words: map<string, RawLexicalEntry>, added: map<string, nat>, known: Known, e: Edge)
  {
    exists k, j :: k in words && k in added && 0 <= j < |EtymonsOf(words[k])| &&
      EdgeOf(EtymonsOf(words[k])[j], added[k], added, known, e)
  }

  /** The second loop succeeds exactly when every etymon resolves. */
  lemma {:induction false} GraphEdgesOk(words: map<string, RawLexicalEntry>, keys: seq<string>, added: map<string, nat>, known: Known)
    requires forall k :: k in keys ==> k in words && k in added
    ensures GraphEdges(words, keys, added, known).Ok? <==> AllResolvable(words, keys, added, known)
  {
    if keys != [] {
      var n := |keys| - 1;
      var init := keys[..n];
      GraphEdgesOk(words, init, added, known);
      EtymonEdgesOk(EtymonsOf(words[keys[n]]), added[keys[n]], added, known);
      AllResolvableSnoc(words, keys, added, known);
    }
  }

  /** The first clause of `EtymonEdgesSpec` on its own. */
  lemma EtymonEdgesOk(ets: seq<RawEdge>, target: nat, added: map<string, nat>, known: Known)
    ensures EtymonEdges(ets, target, added, known).Ok? <==> Resolvable(ets, added, known)
  {
    EtymonEdgesSpec(ets, target, added, known);
  }

  /** `AllResolvable` of a list is that of all but its last key, and the last
      key's etymons resolving. */
  lemma AllResolvableSnoc(words: map<string, RawLexicalEntry>, keys: seq<string>, added: map<string, nat>, known: Known)
    requires keys != [] && forall k :: k in keys ==> k in words
    ensures AllResolvable(words, keys, added, known) <==>
      AllResolvable(words, keys[..|keys| - 1], added, known) &&
      Resolvable(EtymonsOf(words[keys[|keys| - 1]]), added, known)
  {
    var n := |keys| - 1;
    var init := keys[..n];
    assert forall i :: 0 <= i < n ==> init[i] == keys[i];
  }

  /** On success the second loop adds one edge per etymon. */
  lemma {:induction false} GraphEdgesCount(words: map<string, RawLexicalEntry>, keys: seq<string>, added: map<string, nat>, known: Known)
    requires forall k :: k in keys ==> k in words && k in added
    ensures GraphEdges(words, keys, added, known).Ok? ==>
      |GraphEdges(words, keys, added, known).value| == EtymonTotal(words, keys)
  {
    if keys != [] {
      var n := |keys| - 1;
      GraphEdgesCount(words, keys[..n], added, known);
      EtymonEdgesSpec(EtymonsOf(words[keys[n]]), added[keys[n]], added, known);
    }
  }

  /** On success every edge comes from an etymon of an entry. */
  lemma {:induction false} GraphEdgesFrom(words: map<string, RawLexicalEntry>, keys: seq<string>, added: map<string, nat>, known: Known)
    requires forall k :: k in keys ==> k in words && k in added
    ensures GraphEdges(words, keys, added, known).Ok? ==>
      forall e :: 0 <= e < |GraphEdges(words, keys, added, known).value| ==>
        FromSomeEtymon(words, added, known, GraphEdges(words, keys, added, known).value[e])
  {
    if keys != [] {
      var n := |keys| - 1;
      var k := keys[n];
      GraphEdgesFrom(words, keys[..n], added, known);
      var ets := EtymonsOf(words[k]);
      EtymonEdgesSpec(ets, added[k], added, known);
      var prev := GraphEdges(words, keys[..n], added, known);
      var es := EtymonEdges(ets, added[k], added, known);
      if prev.Ok? && es.Ok? {
        var all := prev.value + es.value;
        forall e | 0 <= e < |all|
          ensures FromSomeEtymon(words, added, known, all[e])
        {
          if e < |prev.value| {
            assert all[e] == prev.value[e];
          } else {
            var j := e - |prev.value|;
            assert all[e] == es.value[j];
            assert EdgeOf(EtymonsOf(words[k])[j], added[k], added, known, all[e]);
          }
        }
      }
    }
  }

  /** Edge `e` of `g` leads from the node of one of the etymons its target's
      entry lists, with the transform that etymon names. */
  ghost predicate ListedEtymon(words: map<string, RawLexicalEntry>, known: Known, g: Graph, e: nat)
    requires e < |g.edges| && EdgesIn(g)
    requires forall i :: 0 <= i < |g.nodes| ==> g.nodes[i].id in words
  {
    var ets := EtymonsOf(words[g.nodes[g.edges[e].target].id]);
    exists j :: 0 <= j < |ets| && ets[j].etymon == g.nodes[g.edges[e].source].id && ets[j].transform in known &&
      g.edges[e].trans == Transform(ets[j].transform, known[ets[j].transform], ets[j].agglutinationOrder)
  }

  /** The error an etymon that does not resolve raises: the unknown
      transform, or, with a known transform, the unknown etymon. */
  predicate BadEtymon(et: RawEdge, ids: set<string>, known: Known, err: LangError)
  {
    || (et.transform !in known && err == TransformMissing(et.transform))
    || (et.transform in known && et.etymon !in ids && err == EtymonMissing(et.etymon))
  }

  /** A failing second loop fails on one entry's etymons, with that
      entry's error. */
  lemma {:induction false} GraphEdgesFails(words: map<string, RawLexicalEntry>, keys: seq<string>, added: map<string, nat>, known: Known)
    requires forall k :: k in keys ==> k in words && k in added
    ensures GraphEdges(words, keys, added, known).Err? ==>
      exists i :: 0 <= i < |keys| &&
        EtymonEdges(EtymonsOf(words[keys[i]]), added[keys[i]], added, known) == Err(GraphEdges(words, keys, added, known).error)
  {
    if keys != [] {
      var n := |keys| - 1;
      GraphEdgesFails(words, keys[..n], added, known);
      if GraphEdges(words, keys[..n], added, known).Err? {
        var i :| 0 <= i < n &&
          EtymonEdges(EtymonsOf(words[keys[..n][i]]), added[keys[..n][i]], added, known) == Err(GraphEdges(words, keys[..n], added, known).error);
        assert keys[..n][i] == keys[i];
      }
    }
  }

  /** When `render_graph` fails, its error is that of an etymon of some
      entry: the transform is checked before the etymon id. */
  lemma ReadGraphErr(words: map<string, RawLexicalEntry>, order: seq<string>, known: Known)
    requires IterationOrder(words, order)
    ensures ReadGraph(words, order, known).Err? ==>
      exists k, i :: k in words && 0 <= i < |EtymonsOf(words[k])| &&
        BadEtymon(EtymonsOf(words[k])[i], words.Keys, known, ReadGraph(words, order, known).error)
  {
    var added := Index(order);
    GraphEdgesFails(words, order, added, known);
    var r := ReadGraph(words, order, known);
    if r.Err? {
      var p :| 0 <= p < |order| &&
        EtymonEdges(EtymonsOf(words[order[p]]), added[order[p]], added, known) == Err(r.error);
      var ets := EtymonsOf(words[order[p]]);
      EtymonEdgesSpec(ets, added[order[p]], added, known);
      var i :| 0 <= i < |ets| && Resolvable(ets[..i], added, known) &&
        r.error == (if ets[i].transform !in known then TransformMissing(ets[i].transform) else EtymonMissing(ets[i].etymon)) &&
        !(ets[i].transform in known && ets[i].etymon in added);
      assert BadEtymon(ets[i], words.Keys, known, r.error);
    }
  }

  /** Every etymon of every entry names a known transform and an entry of
      the map. */
  ghost predicate AllKnown(words: map<string, RawLexicalEntry>, known: Known)
  {
    forall k, i :: k in words && 0 <= i < |EtymonsOf(words[k])| ==>
      EtymonsOf(words[k])[i].transform in known && EtymonsOf(words[k])[i].etymon in words
  }

  lemma ResolvableFromKnown(words: map<string, RawLexicalEntry>, order: seq<string>, known: Known)
    requires forall k :: k in words <==> k in order
    requires AllKnown(words, known)
    ensures AllResolvable(words, order, Index(order), known)
  {
    forall i | 0 <= i < |order| ensures Resolvable(EtymonsOf(words[order[i]]), Index(order), known) {
      var ets := EtymonsOf(words[order[i]]);
      forall j | 0 <= j < |ets| ensures ets[j].transform in known && ets[j].etymon in Index(order) {
        assert ets[j].etymon in words;
      }
    }
  }

  lemma KnownFromResolvable(words: map<string, RawLexicalEntry>, order: seq<string>, known: Known)
    requires forall k :: k in words <==> k in order
    requires AllResolvable(words, order, Index(order), known)
    ensures AllKnown(words, known)
  {
    var added := Index(order);
    forall k, i | k in words && 0 <= i < |EtymonsOf(words[k])|
      ensures EtymonsOf(words[k])[i].transform in known && EtymonsOf(words[k])[i].etymon in words
    {
      var p := added[k];
      assert Resolvable(EtymonsOf(words[order[p]]), added, known);
    }
  }

  /** `render_graph` succeeds exactly when every etymon of every entry names
      a known transform and an entry of the map. */
  lemma ReadGraphOk(words: map<string, RawLexicalEntry>, order: seq<string>, known: Known)
    requires IterationOrder(words, order)
    ensures ReadGraph(words, order, known).Ok? <==> AllKnown(words, known)
  {
    GraphEdgesOk(words, order, Index(order), known);
    if AllKnown(words, known) {
      ResolvableFromKnown(words, order, known);
    }
    if AllResolvable(words, order, Index(order), known) {
      KnownFromResolvable(words, order, known);
    }
  }

  /** On success there is one node per entry, with the key as id and the
      converted entry's fields, and one edge per etymon. */
  lemma ReadGraphNodes(words: map<string, RawLexicalEntry>, order: seq<string>, known: Known)
    requires IterationOrder(words, order)
    requires ReadGraph(words, order, known).Ok?
    ensures var g := ReadGraph(words, order, known).value;
      && |g.nodes| == |order|
      && (forall i :: 0 <= i < |order| ==> g.nodes[i] == FromRaw(words[order[i]]).(id := order[i]))
      && |g.edges| == EtymonTotal(words, order)
  {
    GraphEdgesCount(words, order, Index(order), known);
  }

  /** On success every edge joins two nodes, has an empty slot, and leads
      from a listed etymon to the entry that lists it. */
  lemma ReadGraphEdges(words: map<string, RawLexicalEntry>, order: seq<string>, known: Known)
    requires IterationOrder(words, order)
    requires ReadGraph(words, order, known).Ok?
    ensures var g := ReadGraph(words, order, known).value;
      && EdgesIn(g)
      && (forall e :: 0 <= e < |g.edges| ==> g.edges[e].word.None?)
      && (forall e :: 0 <= e < |g.edges| ==> ListedEtymon(words, known, g, e))
  {
    var added := Index(order);
    GraphEdgesFrom(words, order, added, known);
    var g := ReadGraph(words, order, known).value;
    forall e | 0 <= e < |g.edges|
      ensures g.edges[e].source < |g.nodes| && g.edges[e].target < |g.nodes| && g.edges[e].word.None?
    {
      assert FromSomeEtymon(words, added, known, g.edges[e]);
    }
    forall e | 0 <= e < |g.edges|
      ensures ListedEtymon(words, known, g, e)
    {
      EdgeListed(words, order, known, g, e);
    }
  }

  /** One edge of a read graph leads from a listed etymon. */
  lemma EdgeListed(words: map<string, RawLexicalEntry>, order: seq<string>, known: Known, g: Graph, e: nat)
    requires IterationOrder(words, order)
    requires g.nodes == Nodes(words, order) && EdgesIn(g) && e < |g.edges|
    requires FromSomeEtymon(words, Index(order), known, g.edges[e])
    ensures ListedEtymon(words, known, g, e)
  {
    var added := Index(order);
    var k, j :| k in words && k in added && 0 <= j < |EtymonsOf(words[k])| &&
      EdgeOf(EtymonsOf(words[k])[j], added[k], added, known, g.edges[e]);
    var et := EtymonsOf(words[k])[j];
    IndexAt(order, added[k]);
    assert g.nodes[g.edges[e].target].id == k;
    assert et.etymon == g.nodes[g.edges[e].source].id;
  }

  // ---------------------------------------------------------------------------
  // The tree
  // ---------------------------------------------------------------------------

  /** `LanguageTree` of src/kirum.rs: the graph it derives words in. */
  class LanguageTree {
    var graph: Graph

    constructor (g: Graph)
      ensures graph == g
    {
      graph := g;
    }

    /** `LanguageTree::new`: read the graph, then compute the lexicon; a
        read error is returned as it is. */
    static method New(known: Known, words: map<string, RawLexicalEntry>, order: seq<string>) returns (r: Result<LanguageTree, LangError>)
      requires IterationOrder(words, order)
      ensures r.Err? <==> ReadGraph(words, order, known).Err?
      ensures r.Err? ==> r.error == ReadGraph(words, order, known).error
      ensures r.Ok? ==> fresh(r.value) && r.value.graph == Settle(ReadGraph(words, order, known).value, KirumOps)
    {
      var raw := RenderGraph(words, order, known);
      if raw.Err? {
        return Err(raw.error);
      }
      var tree := new LanguageTree(raw.value);
      tree.ComputeLexicon();
      r := Ok(tree);
    }

    /** `compute_lexicon` on the tree's own graph: passes over the nodes,
        each node step writing to the graph, until a pass makes no
        change. */
    method ComputeLexicon()
      modifies this
      ensures graph == Settle(old(graph), KirumOps)
    {
      var incomplete := true;
      while incomplete
        invariant incomplete ==> Settle(graph, KirumOps) == Settle(old(graph), KirumOps)
        invariant !incomplete ==> graph == Settle(old(graph), KirumOps)
        decreases Unsettled(graph), incomplete
      {
        ghost var before := graph;
        var changes := 0;
        var count := |graph.nodes|;
        for node := 0 to count
          invariant |graph.nodes| == count
          invariant graph == PassUpTo(before, node, Stepper(false, KirumOps)).graph
          invariant changes == PassUpTo(before, node, Stepper(false, KirumOps)).changes
        {
          var next, c := VisitNode(graph, node);
          graph, changes := next, changes + c;
        }
        StepperLowers(KirumOps);
        PassUpToMeasure(before, count, Stepper(false, KirumOps));
        if changes == 0 {
          incomplete := false;
        }
      }
    }

    /** `reduce_to_dict`: the worded nodes the filter accepts, sorted by
        word. */
    method ReduceToDict(filter: Lexis -> bool) returns (dict: seq<Lexis>)
      ensures dict == StableSort(Filter(graph.nodes, Kept(filter)), ByWord)
    {
      dict := RenderedTree(graph).ReduceToDict(filter);
    }
  }

  /** A tree built by `new` keeps one node per entry, with its id and every
      field but the word; a hard-coded word is kept; every edge joins two
      nodes; the computation has settled: a worded node has no empty
      outgoing slot, a wordless node has an empty incoming slot; every
      filled slot holds the word its transforms make of its etymon's word;
      and every node without a hard-coded word that has a word holds the
      agglutination of its incoming slots. */
  lemma NewSpec(words: map<string, RawLexicalEntry>, order: seq<string>, known: Known)
    requires IterationOrder(words, order)
    requires ReadGraph(words, order, known).Ok?
    ensures var s := Settle(ReadGraph(words, order, known).value, KirumOps);
      && |s.nodes| == |order|
      && (forall i :: 0 <= i < |order| ==> s.nodes[i] == FromRaw(words[order[i]]).(id := order[i], word := s.nodes[i].word))
      && (forall i :: 0 <= i < |order| && words[order[i]].word.Some? ==> s.nodes[i].word == words[order[i]].word)
      && EdgesIn(s)
      && (forall j :: 0 <= j < |s.edges| && s.nodes[s.edges[j].source].word.Some? ==> s.edges[j].word.Some?)
      && (forall m :: 0 <= m < |s.nodes| && s.nodes[m].word.None? ==>
            exists j :: 0 <= j < |s.edges| && s.edges[j].target == m && s.edges[j].word.None?)
      && (forall j :: 0 <= j < |s.edges| && s.edges[j].word.Some? ==>
            s.nodes[s.edges[j].source].word.Some? &&
            s.edges[j].word == Some(WordAfter(s.edges[j].trans.transforms, s.nodes[s.edges[j].source].word.value)))
      && (forall i :: 0 <= i < |order| && words[order[i]].word.None? && s.nodes[i].word.Some? ==>
            AllFilled(s.edges, EdgesAt(s.edges, i, false)) &&
            s.nodes[i].word == Some(JoinWords(Upstreams(s.edges, EdgesAt(s.edges, i, false)))))
  {
    var g := ReadGraph(words, order, known).value;
    ReadGraphNodes(words, order, known);
    ReadGraphEdges(words, order, known);
    SettleSpec(g, KirumOps);
    SettledSlots(g, KirumOps);
    NewWords(words, order, known);
  }

  /** The words of a tree built by `new`: every filled slot holds the word
      its transforms make of its etymon's word, and every node without a
      hard-coded word that has a word holds the agglutination of its
      incoming slots. */
  lemma NewWords(words: map<string, RawLexicalEntry>, order: seq<string>, known: Known)
    requires IterationOrder(words, order)
    requires ReadGraph(words, order, known).Ok?
    ensures var s := Settle(ReadGraph(words, order, known).value, KirumOps);
      && |s.nodes| == |order| && EdgesIn(s)
      && (forall j :: 0 <= j < |s.edges| && s.edges[j].word.Some? ==>
            s.nodes[s.edges[j].source].word.Some? &&
            s.edges[j].word == Some(WordAfter(s.edges[j].trans.transforms, s.nodes[s.edges[j].source].word.value)))
      && (forall i :: 0 <= i < |order| && words[order[i]].word.None? && s.nodes[i].word.Some? ==>
            AllFilled(s.edges, EdgesAt(s.edges, i, false)) &&
            s.nodes[i].word == Some(JoinWords(Upstreams(s.edges, EdgesAt(s.edges, i, false)))))
  {
    var g := ReadGraph(words, order, known).value;
    ReadGraphNodes(words, order, known);
    ReadGraphEdges(words, order, known);
    SettledWords(g);
  }
}
