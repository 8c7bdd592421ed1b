/** JSON ingest (kirum/src/ingest/json.rs): a tree of JSON values is walked
    and every word met becomes an entry "ingest-<word>", linked to the word
    it was found under.  The file read and the JSON parse are left out: the
    walk starts from the parsed values.  An object's members are listed in
    the iteration order of the map that holds them. */
module IngestJson {
  import opened Wrappers
  import opened Lemmas
  import opened Entries
  import IngestLines

  /** `serde_json::Value`. */
  datatype Value =
    | Null
    | Bool(b: bool)
    | Number(n: int)
    | Str(s: string)
    | Arr(items: seq<Value>)
    | Obj(fields: seq<Member>)

  /** One member of an object. */
  datatype Member = Member(key: string, val: Value)

  /** `KeyType`: whether the ingested strings are definitions or words. */
  datatype KeyType = Definitions | Words

  /** `Ingest`: the parsed file. */
  datatype IngestFile = IngestFile(keysAre: KeyType, words: seq<Value>)

  /** Which object walk is meant: the code as written, or the walk with
      the flag that suppresses the fallback insert kept per key and also
      set by a "!transform" value. */
  datatype Reading = AsWritten | Intended

  /** The key of an ingested word. */
  function Id(word: string): string
  {
    IngestLines.Prefix + word
  }

  /** The member key that names the transform from the parent. */
  const EtymologyKey := "!etymology"

  /** `strip_prefix('!')`. */
  function StripBang(s: string): (r: Option<string>)
    ensures r.Some? <==> |s| > 0 && s[0] == '!'
    ensures r.Some? ==> s == ['!'] + r.value
  {
    if |s| > 0 && s[0] == '!' then Some(s[1..]) else None
  }

  /** The entry `insert_into_map` builds for `word`. */
  function EntryFor(overrides: RawLexicalEntry, keyType: KeyType, parent: Option<string>,
                    parentTransform: Option<string>, word: string): RawLexicalEntry
  {
    var parentEty :=
      if parent.Some? then
        var transforms := if parentTransform.Some? then Some([parentTransform.value]) else None;
        Some(Etymology([Edge(Id(parent.value), transforms, None)]))
      else None;
    match keyType
    case Definitions => overrides.(definition := word, etymology := parentEty)
    case Words => overrides.(word := Some(Lemma.FromString(word)), etymology := parentEty)
  }

  /** An inserted entry: by definitions it sets the definition, by words the
      word; everything else but the etymology is the overrides'.  With a
      parent it has exactly one edge, to the parent's entry, carrying the
      transform exactly when one is given; without one it has no
      etymology. */
  lemma EntryForSpec(overrides: RawLexicalEntry, keyType: KeyType, parent: Option<string>,
                     parentTransform: Option<string>, word: string)
    ensures var r := EntryFor(overrides, keyType, parent, parentTransform, word);
      && (keyType == Definitions ==> r == overrides.(definition := word, etymology := r.etymology))
      && (keyType == Words ==> r == overrides.(word := Some(Lemma.FromString(word)), etymology := r.etymology))
      && (parent.None? <==> r.etymology.None?)
      && (parent.Some? ==>
            && |r.etymology.value.etymons| == 1
            && r.etymology.value.etymons[0].etymon == Id(parent.value)
            && r.etymology.value.etymons[0].agglutinationOrder.None?
            && (r.etymology.value.etymons[0].transforms.Some? <==> parentTransform.Some?)
            && (parentTransform.Some? ==> r.etymology.value.etymons[0].transforms.value == [parentTransform.value]))
  {
  }

  /** `insert_into_map`: the entry for `word` replaces whatever was stored
      under its key. */
  function Insert(overrides: RawLexicalEntry, keyType: KeyType, parent: Option<string>,
                  parentTransform: Option<string>, word: string, m: WordGraph): WordGraph
  {
    m[Id(word) := EntryFor(overrides, keyType, parent, parentTransform, word)]
  }

  // ---------------------------------------------------------------------------
  // The walk, as functions
  // ---------------------------------------------------------------------------

  /** `ingest_value`: the graph after walking `v` found under `parent`. */
  function Walk(reading: Reading, overrides: RawLexicalEntry, keyType: KeyType, parent: Option<string>,
                m: WordGraph, v: Value): (r: WordGraph)
    decreases v
    ensures m.Keys <= r.Keys
    ensures v.Null? || v.Bool? || v.Number? ==> r == m
  {
    match v
    case Str(s) => Insert(overrides, keyType, parent, None, s, m)
    case Arr(items) => WalkItems(reading, overrides, keyType, parent, m, items)
    case Obj(fields) => WalkMembers(reading, overrides, keyType, parent, m, fields, false)
    case _ => m
  }

  /** The elements of an array, each walked under the array's parent. */
  function WalkItems(reading: Reading, overrides: RawLexicalEntry, keyType: KeyType, parent: Option<string>,
                     m: WordGraph, items: seq<Value>): (r: WordGraph)
    decreases items
    ensures m.Keys <= r.Keys
  {
    if items == [] then m
    else WalkItems(reading, overrides, keyType, parent, Walk(reading, overrides, keyType, parent, m, items[0]), items[1..])
  }

  /** The members of an object, threading the `created_root` flag: as
      written it is set once for the whole object, as intended it starts
      afresh for every key. */
  function WalkMembers(reading: Reading, overrides: RawLexicalEntry, keyType: KeyType, parent: Option<string>,
                       m: WordGraph, fields: seq<Member>, createdRoot: bool): (r: WordGraph)
    decreases fields
    ensures m.Keys <= r.Keys
  {
    if fields == [] then m
    else
      var start := if reading == Intended then false else createdRoot;
      var step := MemberStep(reading, overrides, keyType, parent, m, fields[0], start);
      WalkMembers(reading, overrides, keyType, parent, step.0, fields[1..], step.1)
  }

  /** The look into a child object for an "!etymology" string: under a
      parent it inserts the key as the parent's child by that transform
      and sets the flag; at the root it is only logged. */
  function Peek(overrides: RawLexicalEntry, keyType: KeyType, parent: Option<string>, m: WordGraph,
                wordKey: string, children: seq<Member>, created: bool): (r: (WordGraph, bool))
    decreases children
    ensures m.Keys <= r.0.Keys
    ensures r.1 <==> created || (parent.Some? && exists i :: 0 <= i < |children| && children[i].key == EtymologyKey && children[i].val.Str?)
  {
    if children == [] then (m, created)
    else
      var child := children[0];
      if child.key == EtymologyKey && child.val.Str? && parent.Some? then
        Peek(overrides, keyType, parent, Insert(overrides, keyType, parent, Some(child.val.s), wordKey, m),
             wordKey, children[1..], true)
      else Peek(overrides, keyType, parent, m, wordKey, children[1..], created)
  }

  /** Unless the flag is set, the key itself is ingested as a string under
      the object's parent. */
  function Fallback(overrides: RawLexicalEntry, keyType: KeyType, parent: Option<string>,
                    wordKey: string, m: WordGraph, created: bool): WordGraph
  {
    if created then m else Insert(overrides, keyType, parent, None, wordKey, m)
  }

  /** A member whose value is a string, before the fallback insert: the
      graph, the flag, and whether the loop moves on to the next member at
      once (a key with '!', or a "!" value at the root). */
  function StringStep(reading: Reading, overrides: RawLexicalEntry, keyType: KeyType, parent: Option<string>,
                      m: WordGraph, wordKey: string, found: string, created: bool): (WordGraph, bool, bool)
  {
    if '!' in wordKey then (m, created, true)
    else if parent.None? && StripBang(found).Some? then (m, created, true)
    else if parent.Some? && StripBang(found).Some? then
      (Insert(overrides, keyType, parent, StripBang(found), wordKey, m), created || reading == Intended, false)
    else (Insert(overrides, keyType, Some(wordKey), None, found, m), created, false)
  }

  /** One member of an object: the graph and the flag after it. */
  function MemberStep(reading: Reading, overrides: RawLexicalEntry, keyType: KeyType, parent: Option<string>,
                      m: WordGraph, mem: Member, created: bool): (r: (WordGraph, bool))
    decreases mem
    ensures m.Keys <= r.0.Keys
    ensures mem.val.Str? && '!' in mem.key ==> r == (m, created)
    ensures mem.val.Str? && parent.None? && StripBang(mem.val.s).Some? ==> r == (m, created)
    ensures mem.val.Str? && '!' !in mem.key && StripBang(mem.val.s).None? ==>
      Id(mem.val.s) in r.0 && (!created ==> Id(mem.key) in r.0)
  {
    var wordKey := mem.key;
    if mem.val.Str? then
      var step := StringStep(reading, overrides, keyType, parent, m, wordKey, mem.val.s, created);
      if step.2 then (m, created) else (Fallback(overrides, keyType, parent, wordKey, step.0, step.1), step.1)
    else
      var peeked := if mem.val.Obj? then Peek(overrides, keyType, parent, m, wordKey, mem.val.fields, created) else (m, created);
      var walked := Walk(reading, overrides, keyType, Some(wordKey), peeked.0, mem.val);
      (Fallback(overrides, keyType, parent, wordKey, walked, peeked.1), peeked.1)
  }

  /** `ingest` after the parse: every top-level value walked at the root. */
  function Ingested(reading: Reading, overrides: RawLexicalEntry, parsed: IngestFile): WordGraph
  {
    WalkItems(reading, overrides, parsed.keysAre, None, map[], parsed.words)
  }

  // ---------------------------------------------------------------------------
  // The walk, as the source runs it
  // ---------------------------------------------------------------------------

  /** `ingest_value`. */
  method IngestValue(reading: Reading, overrides: RawLexicalEntry, keyType: KeyType, parent: Option<string>,
                     wordMap: WordGraph, val: Value) returns (r: WordGraph)
    ensures r == Walk(reading, overrides, keyType, parent, wordMap, val)
    decreases val, 1
  {
    r := wordMap;
    match val {
      case Str(st) =>
        r := Insert(overrides, keyType, parent, None, st, r);
      case Arr(arr) =>
        assert arr[0..] == arr;
        for i := 0 to |arr|
          invariant WalkItems(reading, overrides, keyType, parent, wordMap, arr)
                 == WalkItems(reading, overrides, keyType, parent, r, arr[i..])
        {
          assert arr[i..][1..] == arr[i + 1..];
          r := IngestValue(reading, overrides, keyType, parent, r, arr[i]);
        }
      case Obj(obj) =>
        var createdRoot := false;
        assert obj[0..] == obj;
        for i := 0 to |obj|
          invariant WalkMembers(reading, overrides, keyType, parent, wordMap, obj, false)
                 == WalkMembers(reading, overrides, keyType, parent, r, obj[i..], createdRoot)
        {
          assert obj[i..][1..] == obj[i + 1..];
          if reading == Intended {
            createdRoot := false;
          }
          r, createdRoot := IngestMember(reading, overrides, keyType, parent, r, obj[i], createdRoot);
        }
      case _ =>
    }
  }

  /** The body of the member loop of `ingest_value`. */
  method IngestMember(reading: Reading, overrides: RawLexicalEntry, keyType: KeyType, parent: Option<string>,
                      wordMap: WordGraph, mem: Member, createdRoot: bool) returns (r: WordGraph, created: bool)
    ensures (r, created) == MemberStep(reading, overrides, keyType, parent, wordMap, mem, createdRoot)
    decreases mem, 0
  {
    var wordKey := mem.key;
    r := wordMap;
    created := createdRoot;
    if mem.val.Str? {
      var skipped;
      r, created, skipped := IngestStringMember(reading, overrides, keyType, parent, r, wordKey, mem.val.s, created);
      if skipped {
        return;
      }
    } else {
      if mem.val.Obj? {
        r, created := PeekEtymology(overrides, keyType, parent, r, wordKey, mem.val.fields, created);
      }
      r := IngestValue(reading, overrides, keyType, Some(wordKey), r, mem.val);
    }
    if !created {
      r := Insert(overrides, keyType, parent, None, wordKey, r);
    }
  }

  /** A member whose value is a string, up to the fallback insert; `skipped`
      tells the cases the loop leaves with `continue`. */
  method IngestStringMember(reading: Reading, overrides: RawLexicalEntry, keyType: KeyType, parent: Option<string>,
                            wordMap: WordGraph, wordKey: string, found: string, createdRoot: bool)
    returns (r: WordGraph, created: bool, skipped: bool)
    ensures (r, created, skipped) == StringStep(reading, overrides, keyType, parent, wordMap, wordKey, found, createdRoot)
  {
    r, created, skipped := wordMap, createdRoot, false;
    if '!' in wordKey {
      skipped := true;
      return;
    }
    var ety := StripBang(found);
    if parent.Some? {
      if ety.Some? {
        r := Insert(overrides, keyType, parent, ety, wordKey, r);
        if reading == Intended {
          created := true;
        }
      } else {
        r := Insert(overrides, keyType, Some(wordKey), None, found, r);
      }
    } else {
      if ety.Some? {
        skipped := true;
        return;
      }
      r := Insert(overrides, keyType, Some(wordKey), None, found, r);
    }
  }

  /** The look into a child object for an "!etymology" string. */
  method PeekEtymology(overrides: RawLexicalEntry, keyType: KeyType, parent: Option<string>, wordMap: WordGraph,
                       wordKey: string, childObj: seq<Member>, createdRoot: bool) returns (r: WordGraph, created: bool)
    ensures (r, created) == Peek(overrides, keyType, parent, wordMap, wordKey, childObj, createdRoot)
  {
    r, created := wordMap, createdRoot;
    assert childObj[0..] == childObj;
    for j := 0 to |childObj|
      invariant Peek(overrides, keyType, parent, wordMap, wordKey, childObj, createdRoot)
             == Peek(overrides, keyType, parent, r, wordKey, childObj[j..], created)
    {
      var child := childObj[j];
      assert childObj[j..][1..] == childObj[j + 1..];
      if child.key == EtymologyKey && child.val.Str? && parent.Some? {
        r := Insert(overrides, keyType, parent, Some(child.val.s), wordKey, r);
        created := true;
      }
    }
  }

  /** `ingest` after the parse. */
  method Ingest(reading: Reading, overrides: RawLexicalEntry, parsed: IngestFile) returns (working: WordGraph)
    ensures working == Ingested(reading, overrides, parsed)
  {
    working := map[];
    var words := parsed.words;
    assert words[0..] == words;
    for i := 0 to |words|
      invariant Ingested(reading, overrides, parsed)
             == WalkItems(reading, overrides, parsed.keysAre, None, working, words[i..])
    {
      assert words[i..][1..] == words[i + 1..];
      working := IngestValue(reading, overrides, parsed.keysAre, None, working, words[i]);
    }
  }

  // ---------------------------------------------------------------------------
  // What the walk stores
  // ---------------------------------------------------------------------------

  /** An entry stored under `k` as the walk stores them: `k` is "ingest-"
      followed by a word, the entry sets that word as its definition (or
      its word), everything else but the etymology is the overrides', and
      an etymology is one edge to another ingested entry, with at most one
      transform and no order. */
  predicate Shaped(overrides: RawLexicalEntry, keyType: KeyType, k: string, e: RawLexicalEntry)
  {
    && |IngestLines.Prefix| <= |k|
    && k[..|IngestLines.Prefix|] == IngestLines.Prefix
    && var w := k[|IngestLines.Prefix|..];
       && (keyType == Definitions ==> e == overrides.(definition := w, etymology := e.etymology))
       && (keyType == Words ==> e == overrides.(word := Some(Lemma.FromString(w)), etymology := e.etymology))
       && (e.etymology.Some? ==>
             && |e.etymology.value.etymons| == 1
             && var edge := e.etymology.value.etymons[0];
                && |IngestLines.Prefix| <= |edge.etymon|
                && edge.etymon[..|IngestLines.Prefix|] == IngestLines.Prefix
                && edge.agglutinationOrder.None?
                && (edge.transforms.Some? ==> |edge.transforms.value| == 1))
  }

  predicate AllShaped(overrides: RawLexicalEntry, keyType: KeyType, m: WordGraph)
  {
    forall k :: k in m ==> Shaped(overrides, keyType, k, m[k])
  }

  lemma InsertShaped(overrides: RawLexicalEntry, keyType: KeyType, parent: Option<string>,
                     parentTransform: Option<string>, word: string, m: WordGraph)
    requires AllShaped(overrides, keyType, m)
    ensures AllShaped(overrides, keyType, Insert(overrides, keyType, parent, parentTransform, word, m))
  {
    var k := Id(word);
    assert k[|IngestLines.Prefix|..] == word;
    EntryForSpec(overrides, keyType, parent, parentTransform, word);
    if parent.Some? {
      assert Id(parent.value)[..|IngestLines.Prefix|] == IngestLines.Prefix;
    }
  }

  /** The walk keeps every stored entry in that shape. */
  lemma {:induction false} WalkShaped(reading: Reading, overrides: RawLexicalEntry, keyType: KeyType,
                                      parent: Option<string>, m: WordGraph, v: Value)
    requires AllShaped(overrides, keyType, m)
    ensures AllShaped(overrides, keyType, Walk(reading, overrides, keyType, parent, m, v))
    decreases v
  {
    match v
    case Str(s) => InsertShaped(overrides, keyType, parent, None, s, m);
    case Arr(items) => WalkItemsShaped(reading, overrides, keyType, parent, m, items);
    case Obj(fields) => WalkMembersShaped(reading, overrides, keyType, parent, m, fields, false);
    case _ =>
  }

  lemma {:induction false} WalkItemsShaped(reading: Reading, overrides: RawLexicalEntry, keyType: KeyType,
                                           parent: Option<string>, m: WordGraph, items: seq<Value>)
    requires AllShaped(overrides, keyType, m)
    ensures AllShaped(overrides, keyType, WalkItems(reading, overrides, keyType, parent, m, items))
    decreases items
  {
    if items != [] {
      WalkShaped(reading, overrides, keyType, parent, m, items[0]);
      WalkItemsShaped(reading, overrides, keyType, parent, Walk(reading, overrides, keyType, parent, m, items[0]), items[1..]);
    }
  }

  lemma {:induction false} WalkMembersShaped(reading: Reading, overrides: RawLexicalEntry, keyType: KeyType,
                                             parent: Option<string>, m: WordGraph, fields: seq<Member>, createdRoot: bool)
    requires AllShaped(overrides, keyType, m)
    ensures AllShaped(overrides, keyType, WalkMembers(reading, overrides, keyType, parent, m, fields, createdRoot))
    decreases fields
  {
    if fields != [] {
      var start := if reading == Intended then false else createdRoot;
      var step := MemberStep(reading, overrides, keyType, parent, m, fields[0], start);
      MemberStepShaped(reading, overrides, keyType, parent, m, fields[0], start);
      WalkMembersShaped(reading, overrides, keyType, parent, step.0, fields[1..], step.1);
    }
  }

  lemma {:induction false} PeekShaped(overrides: RawLexicalEntry, keyType: KeyType, parent: Option<string>, m: WordGraph,
                                      wordKey: string, children: seq<Member>, created: bool)
    requires AllShaped(overrides, keyType, m)
    ensures AllShaped(overrides, keyType, Peek(overrides, keyType, parent, m, wordKey, children, created).0)
    decreases children
  {
    if children != [] {
      var child := children[0];
      if child.key == EtymologyKey && child.val.Str? && parent.Some? {
        InsertShaped(overrides, keyType, parent, Some(child.val.s), wordKey, m);
        PeekShaped(overrides, keyType, parent, Insert(overrides, keyType, parent, Some(child.val.s), wordKey, m),
                   wordKey, children[1..], true);
      } else {
        PeekShaped(overrides, keyType, parent, m, wordKey, children[1..], created);
      }
    }
  }

  lemma {:induction false} MemberStepShaped(reading: Reading, overrides: RawLexicalEntry, keyType: KeyType,
                                            parent: Option<string>, m: WordGraph, mem: Member, created: bool)
    requires AllShaped(overrides, keyType, m)
    ensures AllShaped(overrides, keyType, MemberStep(reading, overrides, keyType, parent, m, mem, created).0)
    decreases mem
  {
    var wordKey := mem.key;
    if mem.val.Str? {
      var found := mem.val.s;
      var step := StringStep(reading, overrides, keyType, parent, m, wordKey, found, created);
      if !step.2 {
        if parent.Some? && StripBang(found).Some? {
          InsertShaped(overrides, keyType, parent, StripBang(found), wordKey, m);
        } else {
          InsertShaped(overrides, keyType, Some(wordKey), None, found, m);
        }
        if !step.1 {
          InsertShaped(overrides, keyType, parent, None, wordKey, step.0);
        }
      }
    } else {
      var peeked := if mem.val.Obj? then Peek(overrides, keyType, parent, m, wordKey, mem.val.fields, created) else (m, created);
      if mem.val.Obj? {
        PeekShaped(overrides, keyType, parent, m, wordKey, mem.val.fields, created);
      }
      WalkShaped(reading, overrides, keyType, Some(wordKey), peeked.0, mem.val);
      var walked := Walk(reading, overrides, keyType, Some(wordKey), peeked.0, mem.val);
      if !peeked.1 {
        InsertShaped(overrides, keyType, parent, None, wordKey, walked);
      }
    }
  }

  /** Every entry an ingest stores carries the overrides in all fields but
      the one the key type sets and the etymology: in particular each one
      has the overrides' `generate`. */
  lemma IngestedShaped(reading: Reading, overrides: RawLexicalEntry, parsed: IngestFile)
    ensures AllShaped(overrides, parsed.keysAre, Ingested(reading, overrides, parsed))
    ensures forall k :: k in Ingested(reading, overrides, parsed) ==>
      Ingested(reading, overrides, parsed)[k].generate == overrides.generate
  {
    WalkItemsShaped(reading, overrides, parsed.keysAre, None, map[], parsed.words);
    var r := Ingested(reading, overrides, parsed);
    forall k | k in r
      ensures r[k].generate == overrides.generate
    {
      assert Shaped(overrides, parsed.keysAre, k, r[k]);
    }
  }

  // ---------------------------------------------------------------------------
  // Arrays, tags and skips
  // ---------------------------------------------------------------------------

  /** The strings of an array are all ingested under the array's parent. */
  lemma {:induction false} StringItemsStored(reading: Reading, overrides: RawLexicalEntry, keyType: KeyType,
                                             parent: Option<string>, m: WordGraph, items: seq<Value>)
    requires forall i :: 0 <= i < |items| ==> items[i].Str?
    ensures var r := WalkItems(reading, overrides, keyType, parent, m, items);
      forall i :: 0 <= i < |items| ==>
        Id(items[i].s) in r && r[Id(items[i].s)] == EntryFor(overrides, keyType, parent, None, items[i].s)
    decreases items
  {
    if items != [] {
      var first := items[0].s;
      var m' := Insert(overrides, keyType, parent, None, first, m);
      var rest := items[1..];
      StringItemsStored(reading, overrides, keyType, parent, m', rest);
      var r := WalkItems(reading, overrides, keyType, parent, m, items);
      assert Walk(reading, overrides, keyType, parent, m, items[0]) == m';
      assert r == WalkItems(reading, overrides, keyType, parent, m', rest);
      forall i | 0 <= i < |items|
        ensures Id(items[i].s) in r && r[Id(items[i].s)] == EntryFor(overrides, keyType, parent, None, items[i].s)
      {
        if i > 0 {
          assert rest[i - 1] == items[i];
        } else {
          StringItemsKeep(reading, overrides, keyType, parent, m', rest, Id(first));
        }
      }
    }
  }

  /** An array of strings stores nothing but its strings, and changes no
      entry under another key. */
  lemma {:induction false} StringItemsKeep(reading: Reading, overrides: RawLexicalEntry, keyType: KeyType,
                                           parent: Option<string>, m: WordGraph, items: seq<Value>, k: string)
    requires forall i :: 0 <= i < |items| ==> items[i].Str?
    ensures var r := WalkItems(reading, overrides, keyType, parent, m, items);
      && (k in r ==> k in m || exists i :: 0 <= i < |items| && k == Id(items[i].s))
      && (k in m ==> k in r)
      && (k in m && (forall i :: 0 <= i < |items| ==> k != Id(items[i].s)) ==> r[k] == m[k])
      && (k in m && (exists i :: 0 <= i < |items| && k == Id(items[i].s)) ==>
            r[k] == EntryFor(overrides, keyType, parent, None, k[|IngestLines.Prefix|..]))
    decreases items
  {
    if items != [] {
      var first := items[0].s;
      var m' := Insert(overrides, keyType, parent, None, first, m);
      var rest := items[1..];
      StringItemsKeep(reading, overrides, keyType, parent, m', rest, k);
      forall j | 0 <= j < |rest|
        ensures rest[j] == items[j + 1]
      {
      }
      if k == Id(first) {
        assert Id(first)[|IngestLines.Prefix|..] == first;
      }
    }
  }

  /** A child object holding just "!etymology": "t", under a parent, makes
      its key the parent's child by `t`, sets the flag, and stores nothing
      else. */
  lemma EtymologyTag(reading: Reading, overrides: RawLexicalEntry, keyType: KeyType, p: string,
                     m: WordGraph, key: string, t: string, created: bool)
    ensures MemberStep(reading, overrides, keyType, Some(p), m, Member(key, Obj([Member(EtymologyKey, Str(t))])), created)
         == (Insert(overrides, keyType, Some(p), Some(t), key, m), true)
  {
    var tag := [Member(EtymologyKey, Str(t))];
    var m1 := Insert(overrides, keyType, Some(p), Some(t), key, m);
    assert tag[1..] == [];
    assert Peek(overrides, keyType, Some(p), m, key, tag, created) == (m1, true);
    TagSkipped(reading, overrides, keyType, key, m1, t);
  }

  /** Inside the child object the tag itself is skipped. */
  lemma TagSkipped(reading: Reading, overrides: RawLexicalEntry, keyType: KeyType, key: string, m: WordGraph, t: string)
    ensures Walk(reading, overrides, keyType, Some(key), m, Obj([Member(EtymologyKey, Str(t))])) == m
  {
    var tag := [Member(EtymologyKey, Str(t))];
    assert EtymologyKey[0] == '!';
    assert MemberStep(reading, overrides, keyType, Some(key), m, tag[0], false) == (m, false);
    assert tag[1..] == [];
    assert WalkMembers(reading, overrides, keyType, Some(key), m, tag[1..], false) == m;
    assert WalkMembers(reading, overrides, keyType, Some(key), m, tag, false) == m;
  }

  /** At the root an "!etymology" tag has no parent to link to: it is
      logged, the key is not marked, and the fallback stores the key
      without an etymology. */
  lemma EtymologyTagAtRoot(reading: Reading, overrides: RawLexicalEntry, keyType: KeyType,
                           m: WordGraph, key: string, t: string)
    ensures MemberStep(reading, overrides, keyType, None, m, Member(key, Obj([Member(EtymologyKey, Str(t))])), false)
         == (Insert(overrides, keyType, None, None, key, m), false)
  {
    var tag := [Member(EtymologyKey, Str(t))];
    assert tag[1..] == [];
    assert Peek(overrides, keyType, None, m, key, tag, false) == (m, false);
    TagSkipped(reading, overrides, keyType, key, m, t);
  }

  // ---------------------------------------------------------------------------
  // A key with a "!transform" value, and the flag shared by siblings
  // ---------------------------------------------------------------------------

  /** As written, `key: "!t"` under a parent first stores `key` as the
      parent's child by `t`, and then the fallback insert, which nothing
      suppressed, replaces that entry: the stored edge has no transform. */
  lemma BangTransformAsWritten(overrides: RawLexicalEntry, keyType: KeyType, p: string, m: WordGraph,
                               key: string, t: string)
    requires '!' !in key
    ensures var r := Walk(AsWritten, overrides, keyType, Some(p), m, Obj([Member(key, Str(['!'] + t))]));
      && Id(key) in r
      && r[Id(key)] == EntryFor(overrides, keyType, Some(p), None, key)
      && r[Id(key)].etymology == Some(Etymology([Edge(Id(p), None, None)]))
  {
    var mem := Member(key, Str(['!'] + t));
    assert StripBang(['!'] + t) == Some(t);
    var m1 := Insert(overrides, keyType, Some(p), Some(t), key, m);
    assert StringStep(AsWritten, overrides, keyType, Some(p), m, key, mem.val.s, false) == (m1, false, false);
    var r := Insert(overrides, keyType, Some(p), None, key, m1);
    assert MemberStep(AsWritten, overrides, keyType, Some(p), m, mem, false) == (r, false);
    assert [mem][1..] == [];
    assert WalkMembers(AsWritten, overrides, keyType, Some(p), r, [mem][1..], false) == r;
    assert WalkMembers(AsWritten, overrides, keyType, Some(p), m, [mem], false) == r;
  }

  /** As intended, the "!t" insert marks the key, so its entry keeps the
      edge to the parent carrying `t`. */
  lemma BangTransformIntended(overrides: RawLexicalEntry, keyType: KeyType, p: string, m: WordGraph,
                              key: string, t: string)
    requires '!' !in key
    ensures var r := Walk(Intended, overrides, keyType, Some(p), m, Obj([Member(key, Str(['!'] + t))]));
      && Id(key) in r
      && r[Id(key)] == EntryFor(overrides, keyType, Some(p), Some(t), key)
      && r[Id(key)].etymology == Some(Etymology([Edge(Id(p), Some([t]), None)]))
  {
    var mem := Member(key, Str(['!'] + t));
    assert StripBang(['!'] + t) == Some(t);
    var r := Insert(overrides, keyType, Some(p), Some(t), key, m);
    assert StringStep(Intended, overrides, keyType, Some(p), m, key, mem.val.s, false) == (r, true, false);
    assert MemberStep(Intended, overrides, keyType, Some(p), m, mem, false) == (r, true);
    assert [mem][1..] == [];
    assert WalkMembers(Intended, overrides, keyType, Some(p), r, [mem][1..], true) == r;
    assert WalkMembers(Intended, overrides, keyType, Some(p), m, [mem], false) == r;
  }

  /** The members of the object both findings use: a key tagged with
      "!etymology", then a plain sibling. */
  function TaggedThenPlain(first: string, t: string, second: string): Value
  {
    Obj([Member(first, Obj([Member(EtymologyKey, Str(t))])), Member(second, Arr([]))])
  }

  /** As written, the flag set by the tagged key stays set for the rest of
      the object, so the sibling that follows it is never stored. */
  lemma SiblingDroppedAsWritten(overrides: RawLexicalEntry, keyType: KeyType, p: string, m: WordGraph,
                                first: string, t: string, second: string)
    requires first != second && Id(second) !in m
    ensures Id(second) !in Walk(AsWritten, overrides, keyType, Some(p), m, TaggedThenPlain(first, t, second))
  {
    var m1 := Insert(overrides, keyType, Some(p), Some(t), first, m);
    WalkTaggedFirst(AsWritten, overrides, keyType, p, m, first, t, second);
    WalkPlainLast(AsWritten, overrides, keyType, p, m1, second, true);
    assert Id(first) != Id(second) by {
      IngestLines.PrefixInjective(first, second);
    }
  }

  /** As intended, the flag starts afresh for every key: the tagged key is
      the parent's child by `t`, and its sibling is stored as the parent's
      plain child. */
  lemma SiblingKeptIntended(overrides: RawLexicalEntry, keyType: KeyType, p: string, m: WordGraph,
                            first: string, t: string, second: string)
    requires first != second
    ensures var r := Walk(Intended, overrides, keyType, Some(p), m, TaggedThenPlain(first, t, second));
      && Id(first) in r && Id(second) in r
      && r[Id(first)] == EntryFor(overrides, keyType, Some(p), Some(t), first)
      && r[Id(second)] == EntryFor(overrides, keyType, Some(p), None, second)
  {
    var m1 := Insert(overrides, keyType, Some(p), Some(t), first, m);
    WalkTaggedFirst(Intended, overrides, keyType, p, m, first, t, second);
    WalkPlainLast(Intended, overrides, keyType, p, m1, second, true);
    assert Id(first) != Id(second) by {
      IngestLines.PrefixInjective(first, second);
    }
  }

  /** The tagged first key of `TaggedThenPlain`: it is stored as the
      parent's child by `t` and the flag is set. */
  lemma WalkTaggedFirst(reading: Reading, overrides: RawLexicalEntry, keyType: KeyType, p: string, m: WordGraph,
                        first: string, t: string, second: string)
    ensures Walk(reading, overrides, keyType, Some(p), m, TaggedThenPlain(first, t, second))
         == WalkMembers(reading, overrides, keyType, Some(p), Insert(overrides, keyType, Some(p), Some(t), first, m),
                        [Member(second, Arr([]))], true)
  {
    EtymologyTag(reading, overrides, keyType, p, m, first, t, false);
    var fields := TaggedThenPlain(first, t, second).fields;
    assert fields[1..] == [Member(second, Arr([]))];
  }

  /** A last key holding an empty array: it is stored as the parent's plain
      child unless the flag, which only the as-written reading keeps, is
      set. */
  lemma WalkPlainLast(reading: Reading, overrides: RawLexicalEntry, keyType: KeyType, p: string, m1: WordGraph,
                      second: string, created: bool)
    ensures WalkMembers(reading, overrides, keyType, Some(p), m1, [Member(second, Arr([]))], created)
         == Fallback(overrides, keyType, Some(p), second, m1, reading == AsWritten && created)
  {
    var rest := [Member(second, Arr([]))];
    assert Walk(reading, overrides, keyType, Some(second), m1, Arr([])) == m1;
    assert rest[1..] == [];
  }

  /** A key whose value is an array: the elements are walked under the
      key, and then the key itself is stored under the object's parent. */
  lemma KeyWithArray(reading: Reading, overrides: RawLexicalEntry, keyType: KeyType, parent: Option<string>,
                     m: WordGraph, key: string, items: seq<Value>)
    ensures Walk(reading, overrides, keyType, parent, m, Obj([Member(key, Arr(items))]))
         == Insert(overrides, keyType, parent, None, key, WalkItems(reading, overrides, keyType, Some(key), m, items))
  {
    var mem := Member(key, Arr(items));
    var walked := WalkItems(reading, overrides, keyType, Some(key), m, items);
    var r := Insert(overrides, keyType, parent, None, key, walked);
    assert Walk(reading, overrides, keyType, Some(key), m, mem.val) == walked;
    assert MemberStep(reading, overrides, keyType, parent, m, mem, false) == (r, false);
    assert [mem][1..] == [];
    assert WalkMembers(reading, overrides, keyType, parent, r, [mem][1..], false) == r;
    assert WalkMembers(reading, overrides, keyType, parent, m, [mem], false) == r;
  }

  /** `{"stem": ["a", "b"]}` at the root, the shape of the override
      example: the stem and both inflections are stored, each inflection
      linked to the stem (that each also carries the overrides' `generate`
      is `IngestedShaped`). */
  lemma InflectionsExample(reading: Reading, overrides: RawLexicalEntry, stem: string, a: string, b: string)
    requires stem != a && stem != b
    ensures var r := Walk(reading, overrides, Definitions, None, map[], Obj([Member(stem, Arr([Str(a), Str(b)]))]));
      && r.Keys == {Id(stem), Id(a), Id(b)}
      && r[Id(stem)] == EntryFor(overrides, Definitions, None, None, stem)
      && r[Id(a)] == EntryFor(overrides, Definitions, Some(stem), None, a)
      && r[Id(b)] == EntryFor(overrides, Definitions, Some(stem), None, b)
  {
    var items := [Str(a), Str(b)];
    var m0: WordGraph := map[];
    StringItemsStored(reading, overrides, Definitions, Some(stem), m0, items);
    var walked := WalkItems(reading, overrides, Definitions, Some(stem), m0, items);
    assert items[0].s == a && items[1].s == b;
    forall k | k in walked
      ensures k == Id(a) || k == Id(b)
    {
      StringItemsKeep(reading, overrides, Definitions, Some(stem), m0, items, k);
    }
    IngestLines.PrefixInjective(stem, a);
    IngestLines.PrefixInjective(stem, b);
    KeyWithArray(reading, overrides, Definitions, None, m0, stem, items);
  }
}
