/** Reading a project into a language tree (kirum/src/files.rs), after the
    files have been read and parsed: derivative entries are turned into
    ordinary entries, keys repeated across tree files are rejected, transform
    names are looked up, and each entry becomes calls on the tree.  The
    `HashMap` iteration order, which Rust leaves unspecified, is a
    parameter. */
module Files {
  import opened Wrappers
  import opened Strings
  import opened Lexes
  import opened Transforms
  import opened Entries

  datatype FileError =
    | DuplicateKey(key: string)     // "Key '..' found multiple times"
    | EmptyTree                     // "specified language tree does not contain any data"
    | TransformMissing(name: string)
    | EtymonMissing(id: string)

  /** The order a `HashMap` yields its keys in: each key once. */
  ghost predicate IterationOrder<V>(m: map<string, V>, order: seq<string>)
  {
    && (forall k :: k in m <==> k in order)
    && (forall i, j :: 0 <= i < j < |order| ==> order[i] != order[j])
  }

  // ---------------------------------------------------------------------------
  // Derivative ids: "<parent>-autoderive-<index>"
  // ---------------------------------------------------------------------------

  function Digit(d: nat): char
    requires d < 10
  {
    (('0' as int) + d) as char
  }

  /** `format!("{}", n)` for a `usize`. */
  function Decimal(n: nat): (r: string)
    ensures r != []
  {
    if n < 10 then [Digit(n)] else Decimal(n / 10) + [Digit(n % 10)]
  }

  /** Reading decimal digits back. */
  function ParseDecimal(s: string): nat
  {
    if s == [] then 0
    else
      var c := s[|s| - 1];
      ParseDecimal(s[..|s| - 1]) * 10 + (if '0' <= c <= '9' then c as int - '0' as int else 0)
  }

  lemma {:induction false} DecimalRoundTrip(n: nat)
    ensures ParseDecimal(Decimal(n)) == n
  {
    if n >= 10 {
      DecimalRoundTrip(n / 10);
      var s := Decimal(n);
      assert s[..|s| - 1] == Decimal(n / 10);
    }
  }

  const AutoDerive := "-autoderive-"

  function DerivativeId(parent: string, index: nat): string
  {
    parent + AutoDerive + Decimal(index)
  }

  /** Derivatives of one parent get distinct ids. */
  lemma DerivativeIdInjective(parent: string, i: nat, j: nat)
    requires DerivativeId(parent, i) == DerivativeId(parent, j)
    ensures i == j
  {
    var n := |parent + AutoDerive|;
    assert Decimal(i) == DerivativeId(parent, i)[n..];
    assert Decimal(j) == DerivativeId(parent, j)[n..];
    DecimalRoundTrip(i);
    DecimalRoundTrip(j);
  }

  /** The entry a derivative becomes: its own fields, with a single edge to
      the parent carrying the derivative's transforms and no order. */
  function Derived(parent: string, d: Derivative): RawLexicalEntry
  {
    d.lexis.(etymology := Some(Etymology([Edge(parent, d.transforms, None)])))
  }

  /** The map after inserting the derivatives of `parent` in order. */
  function AddDerivatives(m: WordGraph, parent: string, ds: seq<Derivative>): WordGraph
  {
    if ds == [] then m
    else
      var n := |ds| - 1;
      AddDerivatives(m, parent, ds[..n])[DerivativeId(parent, n) := Derived(parent, ds[n])]
  }

  /** The derivatives of the entries of one file, visited in `order`. */
  function AddAllDerivatives(m: WordGraph, g: WordGraph, order: seq<string>): WordGraph
    requires forall k :: k in order ==> k in g
  {
    if order == [] then m
    else
      var prev := AddAllDerivatives(m, g, order[..|order| - 1]);
      var node := g[order[|order| - 1]];
      if node.derivatives.Some? then AddDerivatives(prev, order[|order| - 1], node.derivatives.value) else prev
  }

  /** The explicit keys of one file, visited in `order`, each rejected if
      already present. */
  function AddKeys(m: WordGraph, g: WordGraph, order: seq<string>): Result<WordGraph, FileError>
    requires forall k :: k in order ==> k in g
  {
    if order == [] then Ok(m)
    else
      var key := order[|order| - 1];
      match AddKeys(m, g, order[..|order| - 1])
      case Err(e) => Err(e)
      case Ok(prev) => if key in prev then Err(DuplicateKey(key)) else Ok(prev[key := g[key]])
  }

  predicate OrdersFit(files: seq<WordGraph>, orders: seq<seq<string>>)
  {
    |orders| == |files| && forall i, k :: 0 <= i < |files| && k in orders[i] ==> k in files[i]
  }

  /** `read_tree_files` after parsing: each file adds its derivatives, then
      its own keys. */
  function ReadTree(files: seq<WordGraph>, orders: seq<seq<string>>): Result<WordGraph, FileError>
    requires OrdersFit(files, orders)
  {
    if files == [] then Ok(map[])
    else
      var n := |files| - 1;
      match ReadTree(files[..n], orders[..n])
      case Err(e) => Err(e)
      case Ok(m) => AddKeys(AddAllDerivatives(m, files[n], orders[n]), files[n], orders[n])
  }

  /** The innermost loop of `read_tree_files`: the derivatives of one
      entry, numbered in order. */
  method InsertDerivatives(start: WordGraph, lexName: string, derivatives: seq<Derivative>) returns (languageMap: WordGraph)
    ensures languageMap == AddDerivatives(start, lexName, derivatives)
  {
    languageMap := start;
    for count := 0 to |derivatives|
      invariant languageMap == AddDerivatives(start, lexName, derivatives[..count])
    {
      var der := derivatives[count];
      var derId := lexName + AutoDerive + Decimal(count);
      var derLexRaw := der.lexis.(etymology := Some(Etymology([Edge(lexName, der.transforms, None)])));
      assert derivatives[..count + 1][..count] == derivatives[..count];
      languageMap := languageMap[derId := derLexRaw];
    }
    assert derivatives[..|derivatives|] == derivatives;
  }

  /** The first pass over one file: every entry's derivatives. */
  method InsertFileDerivatives(start: WordGraph, rawGraph: WordGraph, order: seq<string>) returns (languageMap: WordGraph)
    requires forall k :: k in order ==> k in rawGraph
    ensures languageMap == AddAllDerivatives(start, rawGraph, order)
  {
    languageMap := start;
    for j := 0 to |order|
      invariant languageMap == AddAllDerivatives(start, rawGraph, order[..j])
    {
      var lexName := order[j];
      var node := rawGraph[lexName];
      assert order[..j + 1][..j] == order[..j];
      if node.derivatives.Some? {
        languageMap := InsertDerivatives(languageMap, lexName, node.derivatives.value);
      }
    }
    assert order[..|order|] == order;
  }

  /** The second pass over one file: its own keys, a key already present
      failing the read. */
  method InsertFileKeys(derived: WordGraph, rawGraph: WordGraph, order: seq<string>) returns (r: Result<WordGraph, FileError>)
    requires forall k :: k in order ==> k in rawGraph
    ensures r == AddKeys(derived, rawGraph, order)
  {
    var languageMap := derived;
    for j := 0 to |order|
      invariant AddKeys(derived, rawGraph, order[..j]) == Ok(languageMap)
    {
      var key := order[j];
      assert order[..j + 1][..j] == order[..j];
      var found := key in languageMap;
      languageMap := languageMap[key := rawGraph[key]];
      if found {
        AddKeysErrStays(derived, rawGraph, order, j + 1);
        return Err(DuplicateKey(key));
      }
    }
    assert order[..|order|] == order;
    return Ok(languageMap);
  }

  /** `read_tree_files` after each file is parsed. */
  method ReadTreeFiles(files: seq<WordGraph>, orders: seq<seq<string>>) returns (r: Result<WordGraph, FileError>)
    requires OrdersFit(files, orders)
    ensures r == ReadTree(files, orders)
  {
    var languageMap: WordGraph := map[];
    for f := 0 to |files|
      invariant ReadTree(files[..f], orders[..f]) == Ok(languageMap)
    {
      assert files[..f + 1][..f] == files[..f] && orders[..f + 1][..f] == orders[..f];
      var derived := InsertFileDerivatives(languageMap, files[f], orders[f]);
      var added := InsertFileKeys(derived, files[f], orders[f]);
      if added.Err? {
        ReadTreeErrStays(files, orders, f + 1);
        return added;
      }
      languageMap := added.value;
    }
    assert files[..|files|] == files && orders[..|orders|] == orders;
    return Ok(languageMap);
  }

  /** Once a prefix of the keys fails, the whole file fails the same way. */
  lemma {:induction false} AddKeysErrStays(m: WordGraph, g: WordGraph, order: seq<string>, j: nat)
    requires forall k :: k in order ==> k in g
    requires j <= |order| && AddKeys(m, g, order[..j]).Err?
    ensures AddKeys(m, g, order) == AddKeys(m, g, order[..j])
    decreases |order|
  {
    if j < |order| {
      var init := order[..|order| - 1];
      assert init[..j] == order[..j];
      AddKeysErrStays(m, g, init, j);
    } else {
      assert order[..j] == order;
    }
  }

  /** Once a prefix of the files fails, the whole read fails the same way. */
  lemma {:induction false} ReadTreeErrStays(files: seq<WordGraph>, orders: seq<seq<string>>, f: nat)
    requires OrdersFit(files, orders)
    requires f <= |files| && OrdersFit(files[..f], orders[..f]) && ReadTree(files[..f], orders[..f]).Err?
    ensures ReadTree(files, orders) == ReadTree(files[..f], orders[..f])
    decreases |files|
  {
    if f < |files| {
      var n := |files| - 1;
      assert files[..n][..f] == files[..f] && orders[..n][..f] == orders[..f];
      ReadTreeErrStays(files[..n], orders[..n], f);
    } else {
      assert files[..f] == files && orders[..f] == orders;
    }
  }

  // ---------------------------------------------------------------------------
  // What reading the tree files does
  // ---------------------------------------------------------------------------

  /** Each derivative of `parent` is present under its id with its entry
      and a single edge to the parent; all other keys keep their entries. */
  lemma {:induction false} AddDerivativesSpec(m: WordGraph, parent: string, ds: seq<Derivative>)
    ensures forall i :: 0 <= i < |ds| ==>
      DerivativeId(parent, i) in AddDerivatives(m, parent, ds) && AddDerivatives(m, parent, ds)[DerivativeId(parent, i)] == Derived(parent, ds[i])
    ensures forall k :: k in AddDerivatives(m, parent, ds) <==> k in m || exists i :: 0 <= i < |ds| && k == DerivativeId(parent, i)
    ensures forall k :: k in m && (forall i :: 0 <= i < |ds| ==> k != DerivativeId(parent, i)) ==> AddDerivatives(m, parent, ds)[k] == m[k]
  {
    AddDerivativesPresent(m, parent, ds);
    AddDerivativesKeys(m, parent, ds);
    AddDerivativesKeeps(m, parent, ds);
  }

  lemma {:induction false} AddDerivativesPresent(m: WordGraph, parent: string, ds: seq<Derivative>)
    ensures forall i :: 0 <= i < |ds| ==>
      DerivativeId(parent, i) in AddDerivatives(m, parent, ds) && AddDerivatives(m, parent, ds)[DerivativeId(parent, i)] == Derived(parent, ds[i])
  {
    if ds != [] {
      var n := |ds| - 1;
      var init := ds[..n];
      AddDerivativesPresent(m, parent, init);
      var prev := AddDerivatives(m, parent, init);
      var r := AddDerivatives(m, parent, ds);
      assert r == prev[DerivativeId(parent, n) := Derived(parent, ds[n])];
      forall i | 0 <= i < |ds|
        ensures DerivativeId(parent, i) in r && r[DerivativeId(parent, i)] == Derived(parent, ds[i])
      {
        if i < n {
          if DerivativeId(parent, i) == DerivativeId(parent, n) {
            DerivativeIdInjective(parent, i, n);
          }
          assert init[i] == ds[i];
        }
      }
    }
  }

  lemma {:induction false} AddDerivativesKeys(m: WordGraph, parent: string, ds: seq<Derivative>)
    ensures forall k :: k in AddDerivatives(m, parent, ds) <==> k in m || exists i :: 0 <= i < |ds| && k == DerivativeId(parent, i)
  {
    if ds != [] {
      var n := |ds| - 1;
      AddDerivativesKeys(m, parent, ds[..n]);
    }
  }

  lemma {:induction false} AddDerivativesKeeps(m: WordGraph, parent: string, ds: seq<Derivative>)
    ensures forall k :: k in m && (forall i :: 0 <= i < |ds| ==> k != DerivativeId(parent, i)) ==>
      k in AddDerivatives(m, parent, ds) && AddDerivatives(m, parent, ds)[k] == m[k]
  {
    if ds != [] {
      var n := |ds| - 1;
      AddDerivativesKeeps(m, parent, ds[..n]);
    }
  }

  /** The derivatives never remove a key. */
  lemma {:induction false} AddAllDerivativesGrows(m: WordGraph, g: WordGraph, order: seq<string>)
    requires forall k :: k in order ==> k in g
    ensures m.Keys <= AddAllDerivatives(m, g, order).Keys
  {
    if order != [] {
      AddAllDerivativesGrows(m, g, order[..|order| - 1]);
      var node := g[order[|order| - 1]];
      if node.derivatives.Some? {
        AddDerivativesSpec(AddAllDerivatives(m, g, order[..|order| - 1]), order[|order| - 1], node.derivatives.value);
      }
    }
  }

  /** `r` is `m` with the entries of `g` listed in `order` added. */
  ghost predicate Merged(m: WordGraph, g: WordGraph, order: seq<string>, r: WordGraph)
    requires forall k :: k in order ==> k in g
  {
    && (forall k :: k in r <==> k in m || k in order)
    && (forall k :: k in order ==> r[k] == g[k])
    && (forall k :: k in m ==> r[k] == m[k])
  }

  /** Adding the explicit keys of a file succeeds exactly when none of them
      is already present, and then merges the file into the map. */
  lemma {:induction false} AddKeysSpec(m: WordGraph, g: WordGraph, order: seq<string>)
    requires forall k :: k in order ==> k in g
    requires forall i, j :: 0 <= i < j < |order| ==> order[i] != order[j]
    ensures AddKeys(m, g, order).Ok? <==> forall k :: k in order ==> k !in m
    ensures AddKeys(m, g, order).Ok? ==> Merged(m, g, order, AddKeys(m, g, order).value)
    ensures AddKeys(m, g, order).Err? ==> exists k :: k in order && k in m && AddKeys(m, g, order).error == DuplicateKey(k)
  {
    if order != [] {
      var init := order[..|order| - 1];
      var key := order[|order| - 1];
      assert forall k :: k in order <==> k in init || k == key by {
        assert order == init + [key];
      }
      AddKeysSpec(m, g, init);
      forall j | 0 <= j < |init|
        ensures init[j] != key
      {
        assert init[j] == order[j];
      }
    }
  }

  /** A file that reads successfully is merged whole: its derivatives, then
      each of its keys with its own entry. */
  lemma AddFileSpec(m: WordGraph, g: WordGraph, order: seq<string>)
    requires IterationOrder(g, order)
    requires AddKeys(AddAllDerivatives(m, g, order), g, order).Ok?
    ensures var derived := AddAllDerivatives(m, g, order);
      var r := AddKeys(derived, g, order).value;
      && (forall k :: k in r <==> k in derived || k in g)
      && (forall k :: k in g ==> r[k] == g[k])
      && (forall k :: k in derived ==> r[k] == derived[k])
  {
    AddKeysSpec(AddAllDerivatives(m, g, order), g, order);
  }

  /** Reading never loses a key of an earlier file. */
  lemma {:induction false} ReadTreeGrows(files: seq<WordGraph>, orders: seq<seq<string>>, f: nat, k: string)
    requires OrdersFit(files, orders) && f < |files|
    requires forall i :: 0 <= i < |files| ==> IterationOrder(files[i], orders[i])
    requires k in files[f] && ReadTree(files, orders).Ok?
    ensures k in ReadTree(files, orders).value
    decreases |files|
  {
    var n := |files| - 1;
    assert OrdersFit(files[..n], orders[..n]);
    var m := ReadTree(files[..n], orders[..n]).value;
    AddAllDerivativesGrows(m, files[n], orders[n]);
    AddFileSpec(m, files[n], orders[n]);
    if f < n {
      assert files[..n][f] == files[f];
      ReadTreeGrows(files[..n], orders[..n], f, k);
    }
  }

  /** A key written in two tree files makes the read fail. */
  lemma ReadTreeDuplicate(files: seq<WordGraph>, orders: seq<seq<string>>, f: nat, g: nat, k: string)
    requires OrdersFit(files, orders) && f < g < |files|
    requires forall i :: 0 <= i < |files| ==> IterationOrder(files[i], orders[i])
    requires k in files[f] && k in files[g]
    ensures ReadTree(files, orders).Err?
  {
    var upTo := files[..g + 1];
    var ordersUpTo := orders[..g + 1];
    assert OrdersFit(upTo, ordersUpTo);
    if ReadTree(upTo, ordersUpTo).Ok? {
      assert upTo[..g] == files[..g] && ordersUpTo[..g] == orders[..g];
      assert OrdersFit(files[..g], orders[..g]);
      var m := ReadTree(files[..g], orders[..g]).value;
      assert files[..g][f] == files[f];
      ReadTreeGrows(files[..g], orders[..g], f, k);
      var derived := AddAllDerivatives(m, files[g], orders[g]);
      AddAllDerivativesGrows(m, files[g], orders[g]);
      AddKeysSpec(derived, files[g], orders[g]);
      assert false;
    }
    ReadTreeErrStays(files, orders, g + 1);
  }

  // ---------------------------------------------------------------------------
  // Transform lookup (find_transforms)
  // ---------------------------------------------------------------------------

  /** A transform as written in an etymology file, before it has a name. */
  datatype RawTransform = RawTransform(lexMatch: Option<Matching.LexisMatch>, transforms: seq<TransformFunc>)

  /** The transform stored under `name`, renamed to its key. */
  function Named(name: string, raw: RawTransform): Transform
  {
    Transform(name, raw.lexMatch, raw.transforms)
  }

  /** `find_transforms`: every name looked up in order, the first missing
      one failing the whole lookup. */
  function Found(raw: seq<string>, tree: map<string, RawTransform>): (r: Result<seq<Transform>, FileError>)
    ensures r.Err? ==> r.error.TransformMissing?
  {
    if raw == [] then Ok([])
    else if raw[0] !in tree then Err(TransformMissing(raw[0]))
    else
      match Found(raw[1..], tree)
      case Err(e) => Err(e)
      case Ok(rest) => Ok([Named(raw[0], tree[raw[0]])] + rest)
  }

  /** The transforms already found, followed by the rest of a lookup. */
  function After(found: seq<Transform>, rest: Result<seq<Transform>, FileError>): Result<seq<Transform>, FileError>
  {
    if rest.Err? then rest else Ok(found + rest.value)
  }

  lemma AfterNothing(rest: Result<seq<Transform>, FileError>)
    ensures After([], rest) == rest
  {
    if rest.Ok? {
      assert [] + rest.value == rest.value;
    }
  }

  lemma AfterStep(found: seq<Transform>, t: Transform, rest: Result<seq<Transform>, FileError>)
    ensures After(found, if rest.Err? then rest else Ok([t] + rest.value)) == After(found + [t], rest)
  {
    if rest.Ok? {
      assert found + ([t] + rest.value) == (found + [t]) + rest.value;
    }
  }

  /** `find_transforms`. */
  method FindTransforms(raw: seq<string>, transTree: map<string, RawTransform>) returns (r: Result<seq<Transform>, FileError>)
    ensures r == Found(raw, transTree)
  {
    var wordTransforms: seq<Transform> := [];
    assert raw[0..] == raw;
    AfterNothing(Found(raw, transTree));
    for i := 0 to |raw|
      invariant Found(raw, transTree) == After(wordTransforms, Found(raw[i..], transTree))
    {
      var trans := raw[i];
      assert raw[i..][0] == trans && raw[i..][1..] == raw[i + 1..];
      if trans !in transTree {
        return Err(TransformMissing(trans));
      }
      var transRaw := transTree[trans];
      AfterStep(wordTransforms, Named(trans, transRaw), Found(raw[i + 1..], transTree));
      wordTransforms := wordTransforms + [Named(trans, transRaw)];
    }
    assert raw[|raw|..] == [];
    assert wordTransforms + [] == wordTransforms;
    return Ok(wordTransforms);
  }

  /** The lookup succeeds exactly when every name is known, and then lists
      the named transforms in the order of the names; a failure names the
      first unknown one. */
  lemma {:induction false} FoundSpec(raw: seq<string>, tree: map<string, RawTransform>)
    ensures Found(raw, tree).Ok? <==> forall i :: 0 <= i < |raw| ==> raw[i] in tree
    ensures Found(raw, tree).Ok? ==>
      (|Found(raw, tree).value| == |raw| &&
       forall i :: 0 <= i < |raw| ==> Found(raw, tree).value[i] == Named(raw[i], tree[raw[i]]))
    ensures Found(raw, tree).Err? ==>
      (exists i :: 0 <= i < |raw| && raw[i] !in tree &&
         (forall j :: 0 <= j < i ==> raw[j] in tree) && Found(raw, tree).error == TransformMissing(raw[i]))
  {
    if raw != [] {
      FoundSpec(raw[1..], tree);
      if raw[0] in tree && Found(raw[1..], tree).Err? {
        var i :| 0 <= i < |raw[1..]| && raw[1..][i] !in tree &&
          (forall j :: 0 <= j < i ==> raw[1..][j] in tree) && Found(raw[1..], tree).error == TransformMissing(raw[1..][i]);
        assert raw[i + 1] !in tree;
      }
      if Found(raw, tree).Ok? {
        forall i | 0 <= i < |raw|
          ensures Found(raw, tree).value[i] == Named(raw[i], tree[raw[i]])
        {
          if i > 0 {
            assert raw[1..][i - 1] == raw[i];
          }
        }
      }
    }
  }

  // ---------------------------------------------------------------------------
  // Building the tree (add_single_word, read_from_files)
  // ---------------------------------------------------------------------------

  /** A call on the language tree: `connect_etymology(lex, etymon,
      transforms, agglutination_order)` or `add_lexis(lex)`. */
  datatype TreeCall =
    | Connect(lex: Lexis, etymon: Lexis, transforms: seq<Transform>, agglutinationOrder: Option<Letters.I32>)
    | AddLexis(added: Lexis)

  /** `tree.contains(lex)`: some earlier call put `lex` in the tree. */
  predicate Contains(calls: seq<TreeCall>, lex: Lexis)
  {
    exists i :: 0 <= i < |calls| && (if calls[i].AddLexis? then calls[i].added == lex else calls[i].lex == lex || calls[i].etymon == lex)
  }

  /** The transform used for an edge that names none. */
  const LoanwordTransform := Transform("loanword", None, [Loanword])

  /** The call for one etymon: its transforms looked up (or the loanword
      transform), then the etymon's entry looked up by key. */
  function EtymonCall(nodeLex: Lexis, e: Edge, transMap: map<string, RawTransform>, lexMap: WordGraph): (r: Result<TreeCall, FileError>)
    ensures r.Err? ==> r.error.TransformMissing? || r.error == EtymonMissing(e.etymon)
  {
    var wordTransforms := if e.transforms.Some? then Found(e.transforms.value, transMap) else Ok([LoanwordTransform]);
    if wordTransforms.Err? then Err(wordTransforms.error)
    else if e.etymon !in lexMap then Err(EtymonMissing(e.etymon))
    else Ok(Connect(nodeLex, ToLexis(lexMap[e.etymon]).(id := e.etymon), wordTransforms.value, e.agglutinationOrder))
  }

  /** The calls for a list of etymons, in order, up to the first failure. */
  function EtymonCalls(nodeLex: Lexis, es: seq<Edge>, transMap: map<string, RawTransform>, lexMap: WordGraph): (r: Result<seq<TreeCall>, FileError>)
    ensures r.Err? ==> r.error.TransformMissing? || r.error.EtymonMissing?
  {
    if es == [] then Ok([])
    else
      match EtymonCalls(nodeLex, es[..|es| - 1], transMap, lexMap)
      case Err(e) => Err(e)
      case Ok(calls) =>
        match EtymonCall(nodeLex, es[|es| - 1], transMap, lexMap)
        case Err(e) => Err(e)
        case Ok(c) => Ok(calls + [c])
  }

  /** `add_single_word`: the calls it makes on a tree that has already
      received `calls`. */
  function SingleWord(calls: seq<TreeCall>, transMap: map<string, RawTransform>, lexMap: WordGraph,
                      nodeLex: Lexis, lexEty: Option<Etymology>): (r: Result<seq<TreeCall>, FileError>)
    ensures r.Err? ==> r.error.TransformMissing? || r.error.EtymonMissing?
  {
    if lexEty.Some? then EtymonCalls(nodeLex, lexEty.value.etymons, transMap, lexMap)
    else if Contains(calls, nodeLex) then Ok([])
    else Ok([AddLexis(nodeLex)])
  }

  method AddSingleWord(tree: seq<TreeCall>, transMap: map<string, RawTransform>, lexMap: WordGraph,
                       nodeLex: Lexis, lexEty: Option<Etymology>) returns (r: Result<seq<TreeCall>, FileError>)
    ensures r == SingleWord(tree, transMap, lexMap, nodeLex, lexEty)
  {
    var added: seq<TreeCall> := [];
    if lexEty.Some? {
      var etymons := lexEty.value.etymons;
      for i := 0 to |etymons|
        invariant EtymonCalls(nodeLex, etymons[..i], transMap, lexMap) == Ok(added)
      {
        var e := etymons[i];
        assert etymons[..i + 1][..i] == etymons[..i];
        var wordTransforms: seq<Transform>;
        if e.transforms.Some? {
          var found := FindTransforms(e.transforms.value, transMap);
          if found.Err? {
            EtymonCallsErrStays(nodeLex, etymons, transMap, lexMap, i + 1);
            return Err(found.error);
          }
          wordTransforms := found.value;
        } else {
          wordTransforms := [LoanwordTransform];
        }
        if e.etymon !in lexMap {
          EtymonCallsErrStays(nodeLex, etymons, transMap, lexMap, i + 1);
          return Err(EtymonMissing(e.etymon));
        }
        var etyLex := lexMap[e.etymon];
        added := added + [Connect(nodeLex, ToLexis(etyLex).(id := e.etymon), wordTransforms, e.agglutinationOrder)];
      }
      assert etymons[..|etymons|] == etymons;
    } else {
      if !Contains(tree, nodeLex) {
        added := [AddLexis(nodeLex)];
      }
    }
    return Ok(added);
  }

  lemma {:induction false} EtymonCallsErrStays(nodeLex: Lexis, es: seq<Edge>, transMap: map<string, RawTransform>, lexMap: WordGraph, i: nat)
    requires i <= |es| && EtymonCalls(nodeLex, es[..i], transMap, lexMap).Err?
    ensures EtymonCalls(nodeLex, es, transMap, lexMap) == EtymonCalls(nodeLex, es[..i], transMap, lexMap)
    decreases |es|
  {
    if i < |es| {
      var init := es[..|es| - 1];
      assert init[..i] == es[..i];
      EtymonCallsErrStays(nodeLex, init, transMap, lexMap, i);
    } else {
      assert es[..i] == es;
    }
  }

  /** Each etymon gives exactly one call, in order, connecting the word to
      the etymon's entry (with the etymon key as its id); a failure is the
      first etymon whose transforms or entry cannot be found. */
  lemma {:induction false} EtymonCallsSpec(nodeLex: Lexis, es: seq<Edge>, transMap: map<string, RawTransform>, lexMap: WordGraph)
    ensures EtymonCalls(nodeLex, es, transMap, lexMap).Ok? <==> forall i :: 0 <= i < |es| ==> EtymonCall(nodeLex, es[i], transMap, lexMap).Ok?
    ensures EtymonCalls(nodeLex, es, transMap, lexMap).Ok? ==>
      var calls := EtymonCalls(nodeLex, es, transMap, lexMap).value;
      |calls| == |es| && forall i :: 0 <= i < |es| ==> calls[i] == EtymonCall(nodeLex, es[i], transMap, lexMap).value
  {
    EtymonCallsOk(nodeLex, es, transMap, lexMap);
    if EtymonCalls(nodeLex, es, transMap, lexMap).Ok? {
      EtymonCallsValues(nodeLex, es, transMap, lexMap);
    }
  }

  /** The first half of `EtymonCallsSpec`: when the calls succeed. */
  lemma {:induction false} EtymonCallsOk(nodeLex: Lexis, es: seq<Edge>, transMap: map<string, RawTransform>, lexMap: WordGraph)
    ensures EtymonCalls(nodeLex, es, transMap, lexMap).Ok? <==> forall i :: 0 <= i < |es| ==> EtymonCall(nodeLex, es[i], transMap, lexMap).Ok?
  {
    if es != [] {
      var n := |es| - 1;
      var init := es[..n];
      EtymonCallsOk(nodeLex, init, transMap, lexMap);
      assert forall i :: 0 <= i < n ==> init[i] == es[i];
    }
  }

  /** The second half of `EtymonCallsSpec`: what the calls are. */
  lemma {:induction false} EtymonCallsValues(nodeLex: Lexis, es: seq<Edge>, transMap: map<string, RawTransform>, lexMap: WordGraph)
    requires EtymonCalls(nodeLex, es, transMap, lexMap).Ok?
    ensures var calls := EtymonCalls(nodeLex, es, transMap, lexMap).value;
      |calls| == |es| && forall i :: 0 <= i < |es| ==>
        EtymonCall(nodeLex, es[i], transMap, lexMap).Ok? && calls[i] == EtymonCall(nodeLex, es[i], transMap, lexMap).value
  {
    if es != [] {
      var n := |es| - 1;
      var init := es[..n];
      var prev := EtymonCalls(nodeLex, init, transMap, lexMap);
      assert prev.Ok?;
      EtymonCallsValues(nodeLex, init, transMap, lexMap);
      var calls := EtymonCalls(nodeLex, es, transMap, lexMap).value;
      assert calls == prev.value + [EtymonCall(nodeLex, es[n], transMap, lexMap).value];
      forall i | 0 <= i < |es|
        ensures EtymonCall(nodeLex, es[i], transMap, lexMap).Ok? && calls[i] == EtymonCall(nodeLex, es[i], transMap, lexMap).value
      {
        if i < n {
          assert init[i] == es[i];
        }
      }
    }
  }

  /** A looked-up etymon call connects the word to its etymon entry, with the
      looked-up transforms, or the loanword transform when none are named. */
  lemma EtymonCallSpec(nodeLex: Lexis, e: Edge, transMap: map<string, RawTransform>, lexMap: WordGraph)
    requires EtymonCall(nodeLex, e, transMap, lexMap).Ok?
    ensures var c := EtymonCall(nodeLex, e, transMap, lexMap).value;
      && c.Connect? && c.lex == nodeLex && e.etymon in lexMap
      && c.etymon == ToLexis(lexMap[e.etymon]).(id := e.etymon)
      && c.agglutinationOrder == e.agglutinationOrder
      && (e.transforms.None? ==> c.transforms == [LoanwordTransform])
      && (e.transforms.Some? ==>
            (|c.transforms| == |e.transforms.value| &&
             forall i :: 0 <= i < |c.transforms| ==> c.transforms[i].name == e.transforms.value[i]))
  {
    if e.transforms.Some? {
      FoundSpec(e.transforms.value, transMap);
    }
  }

  /** A word without etymology is added exactly when the tree does not
      already hold it. */
  lemma SingleWordPlain(calls: seq<TreeCall>, transMap: map<string, RawTransform>, lexMap: WordGraph, nodeLex: Lexis)
    ensures SingleWord(calls, transMap, lexMap, nodeLex, None).Ok?
    ensures Contains(calls + SingleWord(calls, transMap, lexMap, nodeLex, None).value, nodeLex)
    ensures SingleWord(calls, transMap, lexMap, nodeLex, None).value == [] <==> Contains(calls, nodeLex)
  {
    if !Contains(calls, nodeLex) {
      var all := calls + [AddLexis(nodeLex)];
      assert all[|calls|] == AddLexis(nodeLex);
    } else {
      ContainsAppend(calls, [], nodeLex);
    }
  }

  /** The node of key `k`: its entry converted, with the key as its id. */
  function NodeLexis(languageMap: WordGraph, k: string): Lexis
    requires k in languageMap
  {
    ToLexis(languageMap[k]).(id := k)
  }

  /** `read_from_files` after the files are parsed: an empty map is an
      error; otherwise every entry, in `order`, adds its calls. */
  function BuildTree(transMap: map<string, RawTransform>, languageMap: WordGraph, order: seq<string>): Result<seq<TreeCall>, FileError>
    requires forall k :: k in order ==> k in languageMap
  {
    if |languageMap| == 0 then Err(EmptyTree) else AddWords(transMap, languageMap, order)
  }

  function AddWords(transMap: map<string, RawTransform>, languageMap: WordGraph, order: seq<string>): (r: Result<seq<TreeCall>, FileError>)
    requires forall k :: k in order ==> k in languageMap
    ensures r.Err? ==> r.error.TransformMissing? || r.error.EtymonMissing?
  {
    if order == [] then Ok([])
    else
      var k := order[|order| - 1];
      match AddWords(transMap, languageMap, order[..|order| - 1])
      case Err(e) => Err(e)
      case Ok(calls) =>
        match SingleWord(calls, transMap, languageMap, NodeLexis(languageMap, k), languageMap[k].etymology)
        case Err(e) => Err(e)
        case Ok(added) => Ok(calls + added)
  }

  method ReadFromFiles(transformMap: map<string, RawTransform>, languageMap: WordGraph, order: seq<string>) returns (r: Result<seq<TreeCall>, FileError>)
    requires forall k :: k in order ==> k in languageMap
    ensures r == BuildTree(transformMap, languageMap, order)
    ensures |languageMap| == 0 <==> r == Err(EmptyTree)
  {
    if |languageMap| == 0 {
      return Err(EmptyTree);
    }
    var tree: seq<TreeCall> := [];
    for i := 0 to |order|
      invariant AddWords(transformMap, languageMap, order[..i]) == Ok(tree)
    {
      var lexName := order[i];
      var node := languageMap[lexName];
      assert order[..i + 1][..i] == order[..i];
      var nodeLex := ToLexis(node).(id := lexName);
      var added := AddSingleWord(tree, transformMap, languageMap, nodeLex, node.etymology);
      if added.Err? {
        AddWordsErrStays(transformMap, languageMap, order, i + 1);
        return Err(added.error);
      }
      tree := tree + added.value;
    }
    assert order[..|order|] == order;
    return Ok(tree);
  }

  lemma {:induction false} AddWordsErrStays(transMap: map<string, RawTransform>, languageMap: WordGraph, order: seq<string>, i: nat)
    requires forall k :: k in order ==> k in languageMap
    requires i <= |order| && AddWords(transMap, languageMap, order[..i]).Err?
    ensures AddWords(transMap, languageMap, order) == AddWords(transMap, languageMap, order[..i])
    decreases |order|
  {
    if i < |order| {
      var init := order[..|order| - 1];
      assert init[..i] == order[..i];
      AddWordsErrStays(transMap, languageMap, init, i);
    } else {
      assert order[..i] == order;
    }
  }

  lemma ContainsAppend(calls: seq<TreeCall>, more: seq<TreeCall>, lex: Lexis)
    requires Contains(calls, lex)
    ensures Contains(calls + more, lex)
  {
    var i :| 0 <= i < |calls| && (if calls[i].AddLexis? then calls[i].added == lex else calls[i].lex == lex || calls[i].etymon == lex);
    assert (calls + more)[i] == calls[i];
  }

  /** After a successful build, every entry without etymology, and every
      entry with at least one etymon, is in the tree under its key. */
  lemma {:induction false} AddWordsContains(transMap: map<string, RawTransform>, languageMap: WordGraph, order: seq<string>, k: string)
    requires forall k :: k in order ==> k in languageMap
    requires AddWords(transMap, languageMap, order).Ok? && k in order
    requires languageMap[k].etymology.None? || languageMap[k].etymology.value.etymons != []
    ensures Contains(AddWords(transMap, languageMap, order).value, NodeLexis(languageMap, k))
  {
    var n := |order| - 1;
    var init := order[..n];
    var calls := AddWords(transMap, languageMap, init).value;
    var last := order[n];
    var lex := NodeLexis(languageMap, last);
    var added := SingleWord(calls, transMap, languageMap, lex, languageMap[last].etymology).value;
    if k in init {
      AddWordsContains(transMap, languageMap, init, k);
      ContainsAppend(calls, added, NodeLexis(languageMap, k));
    } else {
      assert k == last;
      if languageMap[k].etymology.None? {
        SingleWordPlain(calls, transMap, languageMap, lex);
      } else {
        var es := languageMap[k].etymology.value.etymons;
        EtymonCallsSpec(lex, es, transMap, languageMap);
        EtymonCallSpec(lex, es[0], transMap, languageMap);
        assert (calls + added)[|calls|] == added[0];
      }
    }
  }

  // ---------------------------------------------------------------------------
  // Which files are read (check_path)
  // ---------------------------------------------------------------------------

  /** The index of the last '.' in a file name, if any. */
  function LastDot(name: string): (r: Option<nat>)
    ensures r.Some? ==> r.value < |name| && name[r.value] == '.' && '.' !in name[r.value + 1..]
    ensures r.None? ==> '.' !in name
  {
    if name == [] then None
    else if name[|name| - 1] == '.' then Some(|name| - 1)
    else
      var r := LastDot(name[..|name| - 1]);
      assert name == name[..|name| - 1] + [name[|name| - 1]];
      r
  }

  /** `Path::extension` of a file name: the text after the last '.', unless
      there is none or the only '.' starts the name. */
  function Extension(name: string): Option<string>
  {
    match LastDot(name)
    case None => None
    case Some(i) => if i == 0 then None else Some(name[i + 1..])
  }

  /** `check_path`: directories are walked, files are read only when their
      extension is exactly "json" (a missing extension counts as ""). */
  function CheckPath(isDir: bool, name: string): bool
  {
    if isDir then true else Extension(name).UnwrapOr([]) == "json"
  }

  /** A file is read exactly when its name is a non-empty stem followed by
      ".json". */
  lemma CheckPathSpec(name: string)
    ensures CheckPath(false, name) <==> exists stem :: stem != [] && name == stem + ".json"
  {
    if CheckPath(false, name) {
      var i := LastDot(name).value;
      assert name == name[..i] + ".json";
    }
    if exists stem :: stem != [] && name == stem + ".json" {
      var stem :| stem != [] && name == stem + ".json";
      assert name[..|name| - 5] == stem;
      assert LastDot(name) == Some(|stem|) by {
        LastDotSuffix(name, |stem|);
      }
    }
  }

  lemma {:induction false} LastDotSuffix(name: string, i: nat)
    requires i < |name| && name[i] == '.' && '.' !in name[i + 1..]
    ensures LastDot(name) == Some(i)
    decreases |name|
  {
    if i < |name| - 1 {
      var after := name[i + 1..];
      assert name[|name| - 1] == after[|after| - 1];
      var init := name[..|name| - 1];
      assert init[i + 1..] == after[..|after| - 1];
      LastDotSuffix(init, i);
    }
  }
}
