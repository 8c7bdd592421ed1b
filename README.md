# Kirum in Dafny

Kirum builds the vocabularies of constructed languages. A language family is
an etymology graph. Each lexical entry (a `Lexis`) is a node. Each edge
carries a `Transform`: a chain of letter edits that turns an etymon into a
derived word, gated by a match condition on the etymon. `compute_lexicon`
walks the graph until every word that can be derived has been derived. A
phonetic generator makes fresh words from patterns of phoneme groups. The
command-line crate reads tree files and JSON or line ingests into raw
entries, and buckets and counts the rendered words.

This project models that core and proves what it promises:

- the two word representations and their letter edits: `Lemma`, a string
  with a U+200B separator after every letter (`Lemmas`), and `Word`, a
  letter list or a plain string (`Words`, shared with the older `src/word.rs`);
  the edits themselves work on letter sequences (`Letters`);
- transform dispatch and its match conditions (`Transforms`, `Matching`,
  with the `Lexis` of the `Lemma` revision in `Lexes`);
- the etymology graph and the `compute_lexicon` fixpoint of
  `libkirum/src/kirum.rs` (`Kirum`, a class over node and edge tables), its
  failure on parallel edges (`KirumParallel`), and the older in-place engine
  with its graph reader, `src/kirum.rs` and `src/reader.rs` (`LegacyKirum`);
- the phonetic generator with its random choices drawn from an explicit
  stream (`LexCreate`);
- the command-line data shaping: raw entries (`Entries`), tree-file reading
  (`Files`), JSON and line ingest (`IngestJson`, `IngestLines`), the
  override list (`Overrides`), output bucketing (`Generate`) and statistics
  (`Stat`);
- Rust's `sort_by_key` as a stable insertion sort (`Sorting`), and the
  standard-library string operations the source relies on (`Strings`).

The repository's files come from several revisions, and each is modelled
against its own signatures:

- `libkirum/src/kirum.rs` and both `word.rs` files spell words as `Word`.
  `transforms.rs`, `matching.rs`, `lemma.rs`, `lexcreate.rs` and the
  command-line crate spell them as `Lemma`. So there are two `Lexis` types:
  `Kirum.Lexis` and `Lexes.Lexis`.
- `libkirum/src/kirum.rs` calls a `Word`-based transform that is not in these
  files. `Kirum.TransformWord` rebuilds it by dispatching each
  `TransformFunc` to the `Word` edit of the same name.
- `src/kirum.rs` repeats libkirum's `Transform::transform` and
  `join_string_vectors` word for word. They are modelled once, as
  `Kirum.TransformEtymon` and `Kirum.JoinStringVectors`.
- `src/transforms.rs` is not part of this model. `LegacyKirum` uses
  `Kirum`'s transform.
- `Entries.ToLexis` follows the revision that the ingest code and
  `files.rs` are written against. In that revision a raw entry has a `Lemma`
  word, `generate` and `derivatives`, and an edge lists its transforms.
  `kirum/src/entries.rs` as shown has neither `generate` nor `derivatives`.
- `PartOfSpeech::from_str` and the conversion of a raw transform into a
  `Transform` are not part of this model. Part-of-speech parsing is taken as
  the inverse of `to_string`. The transform conversion is taken as a copy of
  its fields.

Operations that the source writes as loops over mutable state are methods
with loops, proved against specification functions:

- `Letters.Dedouble`, `Letters.ModifyWithArray`,
  `Kirum.LanguageTree.ComputeLexicon` and `LegacyKirum.RenderGraph`;
- `Files.ReadTreeFiles`, `IngestJson.IngestValue`, `IngestLines.Ingest`,
  `Overrides.Parse`, `Generate.GroupBy` and `Stat.GenStats`;
- the generator's `LexCreate.LexPhonology.CreateWord`.

Objects whose fields the source updates in place are classes:

- `Kirum.LanguageTree` and `LegacyKirum.LanguageTree`, the graph;
- `LexCreate.Rng`, the random source.

The properties about several calls are lemmas. Among them:

- list → `Lemma` → list is the identity;
- dedoubling undoes doubling;
- replacing back restores a word;
- `compute_lexicon` settles with every slot below a worded node filled;
- a generated word is derived from its pattern;
- every generated word is non-empty;
- the reader's edge count is the total number of etymons.

## Model

| member | source | states |
|---|---|---|
| Entries.ToLexis | kirum/src/entries.rs:24-35 | the `Lexis` has an empty id; an absent language, lexis type or tag list becomes empty; word, part of speech, definition and archaic flag are copied unchanged; `generate` becomes the word-creation pattern |
| Entries.ToLexisRoundTrip | kirum/src/entries.rs:24-35 | the conversion loses nothing but the id: a `Lexis` turned into a raw entry and back is itself with an empty id |
| Entries.ToLexisIgnores | kirum/src/entries.rs:24-35 | etymology and derivatives play no part in the `Lexis`; an absent language, type or tag list converts exactly as an empty one |
| Entries.ToLexisDefault | kirum/src/entries.rs:14-22 | an entry without an `archaic` key is not archaic, and the default raw entry becomes the default `Lexis` |
| IngestLines.Ingest | kirum/src/ingest/lines.rs:8-15 | the graph built by the loop is the graph of inserting each '\n'-separated piece of the text in order |
| IngestLines.InsertedSpec | kirum/src/ingest/lines.rs:9-12 | every piece has an entry under "ingest-" followed by the piece, whose definition is the piece and whose other fields are the overrides; every key is "ingest-" followed by some piece |
| IngestLines.PrefixInjective | kirum/src/ingest/lines.rs:10 | two pieces get the same key exactly when they are equal |
| IngestLines.InsertedCount | kirum/src/ingest/lines.rs:9-13 | the number of entries is the number of distinct pieces, so repeated lines collapse into one entry |
| IngestLines.TrailingNewline | kirum/src/ingest/lines.rs:9-12 | a text ending in '\n' also yields an entry under the bare key "ingest-" with an empty definition |
| Overrides.ParsePos | kirum/src/ingest/overrides.rs:20 | a part of speech parses exactly from its lower-case name; anything else is the error naming the value |
| Overrides.ParsePosName | kirum/src/ingest/overrides.rs:20 | every part of speech parses back from its name |
| Overrides.ParseBool | kirum/src/ingest/overrides.rs:21 | the flag parses iff the value is "true" or "false", to true iff it is "true"; anything else is the error naming the value |
| Overrides.Apply | kirum/src/ingest/overrides.rs:11-27 | an item without '=' is an error; an unknown key is an error; a bad `pos` or `archaic` value propagates its parse error; on success the key is known, its field holds the text between the first and second '=' (`tag` as a one-element list) and every other field is unchanged |
| Overrides.Parse | kirum/src/ingest/overrides.rs:8-30 | the loop over the items from the default entry computes the item-by-item fold, stopping at the first error |
| Overrides.PiecesCount | kirum/src/ingest/overrides.rs:11-14 | splitting on '=' gives at least two pieces exactly when the item contains '=' |
| Overrides.KeyValue | kirum/src/ingest/overrides.rs:11-15 | key and value hold no '='; the key is the text before the first '=' and the value the text after it up to the next '=' or the end |
| Overrides.ParseAppend | kirum/src/ingest/overrides.rs:10-29 | parsing a + b is parsing a, then b from its result; an error in a stops the parse |
| Overrides.FirstMalformed | kirum/src/ingest/overrides.rs:12-14 | after a successful prefix, an item without '=' is the error of the whole parse, whatever follows |
| Overrides.FirstUnknown | kirum/src/ingest/overrides.rs:24-26 | after a successful prefix, an item with an unknown key is the error of the whole parse, whatever follows |
| Overrides.ParseKeeps | kirum/src/ingest/overrides.rs:9-23 | fields no override can set (definition, etymology, derivatives) keep their starting values, and a field whose key no item mentions keeps its default |
| Overrides.ParseHolds | kirum/src/ingest/overrides.rs:10-28 | the last item for a key decides its field: later items overwrite earlier ones |
| Overrides.LastTagWins | kirum/src/ingest/overrides.rs:22 | the tags are the one-element list of the last `tag` item, so a repeated `tag` overwrites |
| Overrides.ItemPieces | kirum/src/ingest/overrides.rs:11-15 | an item written key=value with no other '=' splits back into that key and value |
| Overrides.OverrideExample | kirum/src/ingest/overrides.rs:36-42 | "generate=test_gen", "pos=noun" parse to generate "test_gen" and part of speech Noun |
| Generate.GroupBy | kirum/src/generate.rs:75-115 | the map built by the loops is the grouping function: per-id buckets for Word, archaic/modern buckets, per-type buckets, or everything under the default name |
| Generate.GroupedNone | kirum/src/generate.rs:110-112 | with no field there is one bucket, under the default name, holding all entries in input order |
| Generate.GroupedFilter | kirum/src/generate.rs:86-108 | for Archaic and LexisType a bucket exists iff some entry belongs to it, and holds exactly those entries in input order, so none is lost or duplicated |
| Generate.GroupedWords | kirum/src/generate.rs:81-85 | for Word a bucket exists per id present and holds only the last entry with that id: a later duplicate overwrites |
| Generate.Grouped | kirum/src/generate.rs:75-115 | `group_by`'s buckets; their meaning is proved in Generate.GroupedNone, Generate.GroupedFilter and Generate.GroupedWords |
| Generate.ArchaicBuckets | kirum/src/generate.rs:86-99 | Archaic grouping uses only the keys "archaic" and "modern", and a bucket holds only entries whose flag matches its key |
| Generate.TypeBuckets | kirum/src/generate.rs:100-108 | every entry is in the bucket of its lexis type |
| Stat.GenStats | kirum/src/stat.rs:14-35 | the counting loop computes the tally function over the lexes, starting from total = number of lexes |
| Stat.CountedPos | kirum/src/stat.rs:17-25 | nouns, verbs and adjectives are the numbers of lexes with that part of speech (a lexis without one counts in none), and total is the tree length |
| Stat.CountedLanguages | kirum/src/stat.rs:26-31 | a language name is present iff some lexis has it, and its count is the number of such lexes, an empty language counting as "None Set" |
| Stat.CountedTypes | kirum/src/stat.rs:33-34 | a lexis type is present iff some lexis has it, and its count is the number of such lexes |
| Stat.Counted | kirum/src/stat.rs:14-35 | the tally after visiting the lexes in order; Stat.GenStats computes it and Stat.CountedPos, Stat.CountedLanguages and Stat.CountedTypes state its counts |
| Stat.EmptyLanguage | kirum/src/stat.rs:26-29 | a lexis with an empty language is counted under "None Set" |
| Files.Decimal | kirum/src/files.rs:74 | the decimal text of a derivative index is never empty |
| Files.DecimalRoundTrip | kirum/src/files.rs:74 | the decimal text of an index reads back as that index |
| Files.DerivativeIdInjective | kirum/src/files.rs:73-74 | two derivatives of one parent get the same "<parent>-autoderive-<index>" id only when their indexes are equal |
| Files.DerivativeId | kirum/src/files.rs:73-74 | the "<parent>-autoderive-<index>" id of a derivative; Files.DerivativeIdInjective proves distinct indexes give distinct ids |
| Files.InsertDerivatives | kirum/src/files.rs:73-83 | the loop over one entry's derivatives inserts exactly the derivative entries of the specification function |
| Files.InsertFileDerivatives | kirum/src/files.rs:70-86 | the loop over a file's entries inserts the derivatives of every entry, in iteration order |
| Files.InsertFileKeys | kirum/src/files.rs:87-92 | the loop over a file's keys inserts them one by one and returns the duplicate-key error at the first key already present |
| Files.ReadTreeFiles | kirum/src/files.rs:63-96 | the loop over the files computes the specification fold: derivatives first, then the file's own keys, stopping at the first error |
| Files.AddDerivativesSpec | kirum/src/files.rs:73-83 | derivative i of a parent is stored under "<parent>-autoderive-i", holding the derivative's entry with a single etymon edge to the parent, the derivative's transforms and no agglutination order; other keys are untouched |
| Files.AddAllDerivativesGrows | kirum/src/files.rs:70-86 | inserting derivatives never removes a key |
| Files.AddKeysSpec | kirum/src/files.rs:87-92 | inserting a file's keys succeeds iff none is already in the map; the result then holds the old entries and the file's entries; otherwise the error names a duplicate key |
| Files.AddKeys | kirum/src/files.rs:87-92 | a file's keys inserted one by one, failing on a key already present; its meaning is proved in Files.AddKeysSpec |
| Files.AddKeysErrStays | kirum/src/files.rs:89-91 | a duplicate-key error ends the insertion: later keys do not change the result |
| Files.ReadTreeErrStays | kirum/src/files.rs:66-91 | an error in one file ends the read: later files do not change the result |
| Files.AddFileSpec | kirum/src/files.rs:70-92 | after one file, the map holds exactly the earlier entries, the derivatives and the file's entries, a file entry taking precedence for its own key |
| Files.ReadTreeGrows | kirum/src/files.rs:63-96 | on success every key of every file is in the merged map |
| Files.ReadTreeDuplicate | kirum/src/files.rs:87-91 | a key present in two files makes the read fail |
| Files.ReadTree | kirum/src/files.rs:63-96 | the fold over the parsed files; Files.ReadTreeFiles computes it and Files.ReadTreeGrows, Files.ReadTreeDuplicate and Files.ReadTreeErrStays state what it keeps and when it fails |
| Files.Found | kirum/src/files.rs:150-159 | the only error of the transform lookup is a missing transform |
| Files.FindTransforms | kirum/src/files.rs:150-159 | the loop computes the lookup function, returning at the first name that is missing |
| Files.FoundSpec | kirum/src/files.rs:150-159 | the lookup succeeds iff every name is a known transform; then the output has one transform per name, in order, each the named transform renamed to its key; otherwise the error names the first missing name |
| Files.EtymonCall | kirum/src/files.rs:115-123 | connecting one etymon fails only with a missing transform or with the missing etymon's key |
| Files.EtymonCalls | kirum/src/files.rs:115-124 | connecting a list of etymons fails only with a missing transform or a missing etymon |
| Files.SingleWord | kirum/src/files.rs:111-134 | adding a word fails only with a missing transform or a missing etymon |
| Files.AddSingleWord | kirum/src/files.rs:111-134 | the loop over the etymons issues exactly the tree calls of the specification function, stopping at the first error |
| Files.EtymonCallsErrStays | kirum/src/files.rs:118-121 | an error at one etymon ends the word: later etymons do not change the result |
| Files.EtymonCallsSpec | kirum/src/files.rs:115-124 | connecting the etymons succeeds iff each one does, and then issues one connect call per etymon, in order |
| Files.EtymonCallSpec | kirum/src/files.rs:117-123 | a successful connect links the word to the etymon entry, given the etymon's key as id and the edge's agglutination order; an edge without transforms gets the single `loanword` transform, otherwise the transforms are the listed names in order |
| Files.SingleWordPlain | kirum/src/files.rs:125-131 | a word without etymology never fails, is in the tree afterwards, and is added only if the tree did not already contain it |
| Files.AddWords | kirum/src/files.rs:54-58 | building the tree fails only with a missing transform or a missing etymon |
| Files.ReadFromFiles | kirum/src/files.rs:35-61 | the tree is built from the merged map by adding each entry in iteration order, with the key as the id; the result is the empty-tree error exactly when the map is empty |
| Files.AddWordsErrStays | kirum/src/files.rs:57 | an error at one entry ends the build: later entries do not change the result |
| Files.AddWordsContains | kirum/src/files.rs:113-131 | on success every entry that has no etymology or at least one etymon is in the tree |
| Files.LastDot | kirum/src/files.rs:206 | the position found is the last '.' of the name, and no position is found only when the name has no '.' |
| Files.CheckPathSpec | kirum/src/files.rs:201-209 | a file that is not a directory is accepted iff its name is a non-empty stem followed by ".json" (so ".json" alone and ".JSON" are refused) |
| Files.CheckPath | kirum/src/files.rs:201-209 | `check_path`; its meaning is proved in Files.CheckPathSpec |
| Files.LastDotSuffix | kirum/src/files.rs:206 | a '.' with no '.' after it is the one found |
| IngestJson.StripBang | kirum/src/ingest/json.rs:76-88 | a value has a '!' prefix to strip exactly when it starts with '!', and the rest is what follows it |
| IngestJson.EntryForSpec | kirum/src/ingest/json.rs:144-165 | an inserted entry is the overrides with the definition (Definitions mode) or the word (Words mode) set; it has an etymology iff a parent is given, and then exactly one edge, to "ingest-"+parent, with no agglutination order, carrying `Some([t])` exactly when a transform t is given |
| IngestJson.Walk | kirum/src/ingest/json.rs:37-141 | the walk never removes a key, and null, boolean and number values insert nothing |
| IngestJson.WalkItems | kirum/src/ingest/json.rs:54-58 | walking array elements never removes a key |
| IngestJson.WalkMembers | kirum/src/ingest/json.rs:59-134 | walking an object's members never removes a key |
| IngestJson.Peek | kirum/src/ingest/json.rs:107-123 | the peek never removes a key, and sets `created_root` iff it was set or, under a parent, some child is "!etymology" with a string value |
| IngestJson.MemberStep | kirum/src/ingest/json.rs:61-133 | one member never removes a key; a '!'-containing key with a string value changes nothing; at the root a "!"-prefixed string changes nothing; a plain key: plain string member stores the value, and the key too unless `created_root` is set |
| IngestJson.IngestValue | kirum/src/ingest/json.rs:37-141 | the recursive walk with its loops over arrays and objects inserts exactly what the walk function describes |
| IngestJson.IngestMember | kirum/src/ingest/json.rs:61-133 | one pass of the member loop, with its peek and fallback insert, computes the member step and the new `created_root` |
| IngestJson.IngestStringMember | kirum/src/ingest/json.rs:63-99 | a string-valued member is skipped, stored as a parent link, or stored as a transform child exactly as the string step says |
| IngestJson.PeekEtymology | kirum/src/ingest/json.rs:107-123 | the loop over a child object's members computes the peek |
| IngestJson.Ingest | kirum/src/ingest/json.rs:26-35 | after parsing, ingesting each top-level value from an empty graph gives the fold of the walk over the values |
| IngestJson.InsertShaped | kirum/src/ingest/json.rs:144-165 | an insert keeps every entry shaped as an ingest entry: key "ingest-"+word, the word in the mode's field, every other field from the overrides |
| IngestJson.WalkShaped | kirum/src/ingest/json.rs:37-141 | walking a value keeps every entry shaped |
| IngestJson.WalkItemsShaped | kirum/src/ingest/json.rs:54-58 | walking array elements keeps every entry shaped |
| IngestJson.WalkMembersShaped | kirum/src/ingest/json.rs:59-134 | walking object members keeps every entry shaped |
| IngestJson.PeekShaped | kirum/src/ingest/json.rs:107-123 | the peek keeps every entry shaped |
| IngestJson.MemberStepShaped | kirum/src/ingest/json.rs:61-133 | one member keeps every entry shaped |
| IngestJson.IngestedShaped | kirum/src/ingest/json.rs:178-195 | every ingested entry is shaped, so every entry carries the override `generate` |
| IngestJson.StringItemsStored | kirum/src/ingest/json.rs:42-58 | every string of an array is stored under "ingest-"+string with the array's parent and no transform |
| IngestJson.StringItemsKeep | kirum/src/ingest/json.rs:42-58 | an array of strings adds only their keys, keeps every earlier key, and changes no entry other than theirs |
| IngestJson.EtymologyTag | kirum/src/ingest/json.rs:107-133 | under a parent, `key: {"!etymology": t}` stores key as a child of the parent through transform t and sets `created_root`, in either reading |
| IngestJson.TagSkipped | kirum/src/ingest/json.rs:63-67 | walking `{"!etymology": t}` itself inserts nothing |
| IngestJson.EtymologyTagAtRoot | kirum/src/ingest/json.rs:116-133 | at the root, `key: {"!etymology": t}` is only logged, and the key is stored with no parent |
| IngestJson.BangTransformAsWritten | kirum/src/ingest/json.rs:76-133 | under a parent, `key: "!t"` as written ends with key stored with an edge to the parent and no transform: the fallback insert overwrites the transform edge |
| IngestJson.BangTransformIntended | kirum/src/ingest/json.rs:76-79 | in the corrected reading `key: "!t"` keeps key as a child of the parent through transform t |
| IngestJson.SiblingDroppedAsWritten | kirum/src/ingest/json.rs:60-133 | as written, once one member used "!etymology", a later plain sibling key is never stored |
| IngestJson.SiblingKeptIntended | kirum/src/ingest/json.rs:60-133 | in the corrected reading, the tagged member keeps its transform edge and the later sibling is stored with the parent |
| IngestJson.KeyWithArray | kirum/src/ingest/json.rs:127-133 | `key: [..]` ingests the array with the key as parent, then stores the key with the object's parent |
| IngestJson.InflectionsExample | kirum/src/ingest/json.rs:178-195 | `{"attack": ["attacking", "attacked"]}` yields exactly the three entries, the two inflections with "attack" as parent |
| Kirum.Apply | libkirum/src/kirum.rs:76 | one function changes only the word; a lexis without a word, and any lexis under `Loanword`, is returned unchanged; otherwise the word is the function's edit of it |
| Kirum.TransformWord | libkirum/src/kirum.rs:76 | the dispatch over the function kinds computes the single-function application |
| Kirum.ApplyAllOnlyWord | libkirum/src/kirum.rs:72-81 | applying a list of functions changes only the word, keeps its presence, and leaves a wordless lexis alone |
| Kirum.ApplyAllAppend | libkirum/src/kirum.rs:75-77 | functions apply in list order: applying a + b is applying a, then b |
| Kirum.TransformEtymon | libkirum/src/kirum.rs:72-81 | `Transform::transform` applies its functions in order to a copy of the etymon, and only the word of the result differs from the etymon |
| Kirum.EdgesAt | libkirum/src/kirum.rs:160-181 | the edges listed at a node are edge indexes of the graph |
| Kirum.EdgesAtSpec | libkirum/src/kirum.rs:160-181 | the outgoing (incoming) edges of a node are exactly the edges leaving (entering) it, listed newest first without repeats |
| Kirum.EdgesAtSameEnds | libkirum/src/kirum.rs:160-181 | which edges are at a node depends only on the edges' endpoints, not on their slots |
| Kirum.LanguageTree.constructor | libkirum/src/kirum.rs:92-95 | a new tree has no node and no edge |
| Kirum.LanguageTree.AddLexis | libkirum/src/kirum.rs:98-100 | one node is appended and nothing else changes |
| Kirum.LanguageTree.ConnectEtymology | libkirum/src/kirum.rs:108-143 | the graph becomes the connect function of the old graph |
| Kirum.LanguageTree.ComputeLexicon | libkirum/src/kirum.rs:147-207 | the loop of passes over a copy of the graph ends with the settled graph of the tree's own graph, which is left unchanged |
| Kirum.FindNodes | libkirum/src/kirum.rs:118-132 | the node scan finds the first node equal to `lex`, and the first other node equal to `etymon` |
| Kirum.FindLexis | libkirum/src/kirum.rs:119-123 | the index found holds `lex` and no earlier node does; none is found only when `lex` is absent |
| Kirum.FindOther | libkirum/src/kirum.rs:119-127 | the index found for `etymon` holds it and is not the one taken by `lex`; none is found only when every node equal to `etymon` is the one taken by `lex` |
| Kirum.FindStable | libkirum/src/kirum.rs:128-130 | stopping the scan once both are found gives the same indexes as scanning every node |
| Kirum.ConnectSpec | libkirum/src/kirum.rs:108-143 | connecting adds exactly one edge, from the etymon's node to the lex's node, with the transform and an empty slot; old nodes and edges are kept, the node count grows by at most 2 (by 1 when `lex` is present, by 0 when both are present and differ) |
| Kirum.Connect | libkirum/src/kirum.rs:108-143 | the graph `connect_etynmology` leaves; its meaning is proved in Kirum.ConnectSpec |
| Kirum.NewestEdge | libkirum/src/kirum.rs:172 | `update_edge` stores on the newest edge between the two nodes, never on an older one than the edge read |
| Kirum.ApplyAllWord | libkirum/src/kirum.rs:166-168 | the word a transform derives from a worded lexis is the word after its functions |
| Kirum.FillOut | libkirum/src/kirum.rs:160-174 | the loop over outgoing edges keeps the number of edges |
| Kirum.Upstreams | libkirum/src/kirum.rs:181-190 | one upstream entry per incoming edge |
| Kirum.NodeStep | libkirum/src/kirum.rs:157-197 | a node step keeps the number of nodes |
| Kirum.JoinStringVectors | libkirum/src/kirum.rs:237-241 | the in-place sort and concatenation compute the joined word |
| Kirum.ByOrderOrder | libkirum/src/kirum.rs:238 | ordering by agglutination order is total and transitive, so the stable sort applies |
| Kirum.JoinWordsSpec | libkirum/src/kirum.rs:237-241 | the joined word is the letters of the words, concatenated after a stable sort by agglutination order: the sort is ascending, a permutation, and keeps the input order of equal orders |
| Kirum.JoinWords | libkirum/src/kirum.rs:237-241 | the agglutinated word; its meaning is proved in Kirum.JoinWordsSpec |
| Kirum.SortedAll | libkirum/src/kirum.rs:238 | a sorted list of upstreams is ascending in agglutination order |
| Kirum.FlattenTwo | libkirum/src/kirum.rs:239 | two words flatten to the letters of the first followed by those of the second |
| Kirum.JoinTwo | libkirum/src/kirum.rs:237-241 | two upstream words join lower order first, and in input order when the orders are equal |
| Kirum.FillOutEdges | libkirum/src/kirum.rs:160-174 | with each slot written at its own edge, exactly the listed edges whose slot was empty get the derived word; every other edge, and every filled slot, is unchanged |
| Kirum.FillOutCount | libkirum/src/kirum.rs:161-169 | each filled slot counts one change, and no change is counted iff every listed slot was already filled |
| Kirum.FillOutAt | libkirum/src/kirum.rs:158-174 | for a worded node, exactly its outgoing edges with an empty slot are filled, one change each; filled edges are never rewritten |
| Kirum.GrowsTransitive | libkirum/src/kirum.rs:153-204 | the growth relation between graphs (same nodes and edges, words and slots only added) is transitive |
| Kirum.FilledWhenReadyTransitive | libkirum/src/kirum.rs:191-196 | "a node gets a word only when its incoming slots are filled" composes over steps |
| Kirum.GrowsRefl | libkirum/src/kirum.rs:153-204 | a graph grows into itself |
| Kirum.OutStepSpec | libkirum/src/kirum.rs:158-174 | a worded node's step leaves the nodes alone, only fills empty slots, counts one change per filled slot, and makes no change iff all its outgoing slots are filled |
| Kirum.InStepSpec | libkirum/src/kirum.rs:175-197 | a wordless node's step leaves the edges and other nodes alone, changes at most its own word, and counts one change iff every incoming slot is filled |
| Kirum.NodeStepMeasure | libkirum/src/kirum.rs:169-192 | every counted change fills one empty slot or one wordless node, so the number of unsettled slots and nodes drops by the changes |
| Kirum.NodeStepGrows | libkirum/src/kirum.rs:157-197 | a node step only adds words and slots, gives a node a word only when its incoming slots are filled, and touches no other node |
| Kirum.NodeStepQuiet | libkirum/src/kirum.rs:157-197 | a node step counts no change iff it leaves the graph unchanged, iff the node has nothing to do |
| Kirum.StepperLowers | libkirum/src/kirum.rs:155-199 | the node step lowers the unsettled measure by its changes |
| Kirum.StepperAdds | libkirum/src/kirum.rs:155-199 | the node step only adds, and fills a node only when it is ready |
| Kirum.StepperStill | libkirum/src/kirum.rs:155-199 | a node step with no change leaves the graph as it was |
| Kirum.PassUpToMeasure | libkirum/src/kirum.rs:154-199 | a pass lowers the unsettled measure by the changes it counts |
| Kirum.PassUpToGrows | libkirum/src/kirum.rs:155-199 | a pass only adds words and slots, fills nodes only when ready, and does not touch nodes it has not reached |
| Kirum.PassUpToQuiet | libkirum/src/kirum.rs:154-199 | a pass with zero changes leaves the graph unchanged and every visited node had nothing to do |
| Kirum.SettleSpec | libkirum/src/kirum.rs:153-204 | the settled graph grows from the start, one more pass over it makes zero changes (the loop stops there), every node has nothing left to do, and every slot and node word the loop added is the one the word operations make (Kirum.Consistent) |
| Kirum.DerivedKept | libkirum/src/kirum.rs:158-174 | a slot holding the derived word of its etymon's word keeps it as the graph grows, because filled slots and given words never change |
| Kirum.JoinedKept | libkirum/src/kirum.rs:175-197 | a node holding the join of its incoming slots keeps it as the graph grows |
| Kirum.UpstreamsKept | libkirum/src/kirum.rs:181-190 | once all incoming slots are filled, later growth leaves the `upstreams` list unchanged |
| Kirum.ConsistentTransitive | libkirum/src/kirum.rs:153-204 | consistent growth composes |
| Kirum.NodeStepConsistent | libkirum/src/kirum.rs:158-197 | a worded node fills each empty outgoing slot with its transform applied to the node's own word; a ready wordless node gets the join of its incoming slots |
| Kirum.StepperConsistent | libkirum/src/kirum.rs:155-199 | every node step adds only words the word operations make |
| Kirum.PassUpToConsistent | libkirum/src/kirum.rs:155-199 | a pass adds only words the word operations make |
| Kirum.SettleConsistent | libkirum/src/kirum.rs:153-204 | every word the whole loop adds is the one the word operations make of the words it depends on |
| Kirum.SettledWords | libkirum/src/kirum.rs:158-197 | in the settled lexicon, every slot the loop filled holds its transforms applied to its etymon's word, and every node that received a word holds the agglutination (`join_string_vectors`) of its incoming slots |
| Kirum.Settle | libkirum/src/kirum.rs:153-204 | `compute_lexicon`'s loop run until a pass makes no change, with each edge receiving its own word; its meaning is proved in Kirum.SettleSpec |
| Kirum.SettledSlots | libkirum/src/kirum.rs:158-197 | once settled, every edge out of a worded node is filled, and every wordless node has an empty incoming slot |
| Kirum.FillOutgoing | libkirum/src/kirum.rs:160-174 | the loop over a worded node's outgoing edges computes the filled edges and the number of changes |
| Kirum.CollectUpstreams | libkirum/src/kirum.rs:178-190 | the loop over incoming edges gives up iff some slot is empty, and otherwise collects (order, word) for every incoming edge |
| Kirum.VisitNode | libkirum/src/kirum.rs:157-197 | one iteration of the node loop computes the node step and its changes |
| Kirum.RenderPass | libkirum/src/kirum.rs:154-199 | one iteration of the `while incomplete` loop computes a pass and its change count |
| Kirum.WordLeTotal | libkirum/src/kirum.rs:229 | words are totally ordered for `sort_by_key` |
| Kirum.WordLeTransitive | libkirum/src/kirum.rs:229 | the word order is transitive |
| Kirum.ByWordOrder | libkirum/src/kirum.rs:229 | ordering entries by word is total and transitive |
| Kirum.RenderedTree.ReduceToDict | libkirum/src/kirum.rs:219-231 | the dictionary is the stable sort by word of the worded nodes that pass the filter, in node order |
| Kirum.ReduceToDictSpec | libkirum/src/kirum.rs:219-231 | the dictionary is sorted by word, is a permutation of the kept nodes, holds exactly the worded nodes passing the filter, and keeps node order among equal words |
| KirumParallel.TwoEdgesAt | libkirum/src/kirum.rs:160-181 | two edges between the same nodes are both outgoing at the etymon and both incoming at the lexis, newest first |
| KirumParallel.FirstOutStep | libkirum/src/kirum.rs:160-174 | as written, the worded etymon's step counts two changes but stores both derived words on the newer edge, leaving the older slot empty |
| KirumParallel.LaterOutStep | libkirum/src/kirum.rs:160-174 | as written, every later step of the etymon again counts a change on the older slot and again writes only the newer edge |
| KirumParallel.InStepWaits | libkirum/src/kirum.rs:181-186 | the wordless lexis waits, because the older incoming slot stays empty |
| KirumParallel.ParallelAsWritten | libkirum/src/kirum.rs:153-204 | as written, the first pass reaches the stuck graph with two changes, and every pass over the stuck graph returns it with one change |
| KirumParallel.StuckForever | libkirum/src/kirum.rs:153-204 | a pass that returns its graph with a nonzero change count repeats forever |
| KirumParallel.ParallelNeverSettles | libkirum/src/kirum.rs:153-204 | as written, two parallel edges make every pass count a change, so `compute_lexicon` never returns |
| KirumParallel.ParallelSettles | libkirum/src/kirum.rs:153-204 | with each slot written at its own edge, the same graph settles with both slots filled and the lexis given a word |
| KirumParallel.NewestIsOwn | libkirum/src/kirum.rs:171-172 | without parallel edges, `update_edge` writes into the edge being visited |
| KirumParallel.FillOutAgrees | libkirum/src/kirum.rs:160-174 | without parallel edges, the as-written loop over outgoing edges fills exactly the slots the corrected loop fills, and keeps every endpoint |
| KirumParallel.NodeStepAgrees | libkirum/src/kirum.rs:158-198 | without parallel edges, the as-written and corrected step of any node give the same graph and change count |
| KirumParallel.StepperAgree | libkirum/src/kirum.rs:158-198 | the as-written and corrected loop bodies agree on every graph without parallel edges |
| KirumParallel.PassUpToAgrees | libkirum/src/kirum.rs:155-199 | two loop bodies that agree without parallel edges give the same pass, with the same change count |
| KirumParallel.PassesAgree | libkirum/src/kirum.rs:153-204 | two such loop bodies give the same graph after any number of iterations |
| KirumParallel.PassesShift | libkirum/src/kirum.rs:153-204 | one pass followed by `n` more is `n + 1` passes |
| KirumParallel.SettleByPasses | libkirum/src/kirum.rs:153-204 | the corrected loop's result is the graph after some finite number of passes |
| KirumParallel.AsWrittenSettles | libkirum/src/kirum.rs:153-204 | on a graph without parallel edges, the as-written loop reaches the corrected result after finitely many passes, and the next pass makes no change, so `compute_lexicon` returns it |
| LegacyKirum.FromRaw | src/kirum.rs:22-33 | the converted `Lexis` has an empty id, language, lexis type and tags defaulting to empty, and word, part of speech, definition and archaic flag copied |
| LegacyKirum.FromRawDefault | src/kirum.rs:22-46 | an entry with nothing set but a word converts to the default `Lexis` with that word |
| LegacyKirum.Nodes | src/reader.rs:61-64 | one node per raw entry, in iteration order, each the converted entry with its key as id |
| LegacyKirum.Index | src/reader.rs:59-63 | the `added` map has exactly the keys, each mapped to a node index holding that key |
| LegacyKirum.IndexAt | src/reader.rs:62-63 | with distinct keys, the i-th key is mapped to node i |
| LegacyKirum.RenderGraph | src/reader.rs:55-98 | the two loops build exactly the graph, or the first validation error, of the specification function |
| LegacyKirum.AddEdges | src/reader.rs:66-95 | the loop over the entries adds the edges of each entry's etymons in iteration order, stopping at the first error |
| LegacyKirum.AddNodes | src/reader.rs:61-64 | the node loop adds one node per key and records each key's index |
| LegacyKirum.AddEtymons | src/reader.rs:71-93 | the loop over one entry's etymons adds their edges in order, stopping at the first error |
| LegacyKirum.EtymonEdgesErr | src/reader.rs:72-83 | an error at one etymon ends the entry: later etymons do not change the result |
| LegacyKirum.GraphEdgesErr | src/reader.rs:66-95 | an error at one entry ends the read: later entries do not change the result |
| LegacyKirum.EtymonEdgesSpec | src/reader.rs:71-93 | an entry's etymons succeed iff each names a known transform and a known etymon; then each adds one edge from the etymon's node to the entry's node carrying the transform name, functions and agglutination order and an empty slot; otherwise the error is at the first bad etymon, the missing transform checked before the missing etymon |
| LegacyKirum.GraphEdgesOk | src/reader.rs:66-95 | adding the edges succeeds iff every etymon of every entry resolves |
| LegacyKirum.GraphEdgesCount | src/reader.rs:66-95 | on success the number of edges is the total number of listed etymons, so entries without etymology add none |
| LegacyKirum.GraphEdgesFrom | src/reader.rs:90-92 | every edge comes from some listed etymon |
| LegacyKirum.GraphEdgesFails | src/reader.rs:66-95 | a failure is the failure of one entry's etymons |
| LegacyKirum.ReadGraphErr | src/reader.rs:72-83 | a failure names an etymon of some entry whose transform is unknown or whose etymon id is not a key |
| LegacyKirum.ResolvableFromKnown | src/reader.rs:72-83 | when every etymon names a known transform and an existing key, every etymon resolves |
| LegacyKirum.KnownFromResolvable | src/reader.rs:72-83 | when every etymon resolves, every etymon names a known transform and an existing key |
| LegacyKirum.ReadGraphOk | src/reader.rs:55-98 | `render_graph` succeeds iff every etymon names a known transform and an existing key |
| LegacyKirum.ReadGraphNodes | src/reader.rs:61-95 | on success there is one node per raw entry whose id is its key, and the edge count is the total number of listed etymons |
| LegacyKirum.ReadGraphEdges | src/reader.rs:90-92 | on success every edge has an empty slot and joins a listed etymon's node to its entry's node with that etymon's transform and order |
| LegacyKirum.ReadGraph | src/reader.rs:55-98 | the graph `render_graph` builds; its meaning is proved in LegacyKirum.ReadGraphOk, LegacyKirum.ReadGraphErr, LegacyKirum.ReadGraphNodes and LegacyKirum.ReadGraphEdges |
| LegacyKirum.EdgeListed | src/reader.rs:90-92 | an edge made from a listed etymon joins the etymon's node to its entry's node |
| LegacyKirum.LanguageTree.constructor | src/kirum.rs:106-114 | the tree holds the given graph |
| LegacyKirum.LanguageTree.New | src/kirum.rs:112-118 | `new` fails exactly when `render_graph` fails, with its error; otherwise the fresh tree holds the settled rendered graph |
| LegacyKirum.LanguageTree.ComputeLexicon | src/kirum.rs:135-189 | the in-place loop replaces the tree's graph by its settled graph |
| LegacyKirum.LanguageTree.ReduceToDict | src/kirum.rs:120-132 | the dictionary is the stable sort by word of the worded nodes that pass the filter |
| LegacyKirum.NewSpec | src/kirum.rs:112-118 | after `new`, there is one node per entry, keyed by id, with every hard-coded word kept; every edge out of a worded node is filled and every wordless node has an empty incoming slot; every filled slot holds its transforms applied to its etymon's word, and every node without a hard-coded word that has a word holds the agglutination of its incoming slots |
| LegacyKirum.NewWords | src/kirum.rs:112-118 | after `new`, every filled slot holds its transforms applied to its etymon's word, and every node without a hard-coded word that has a word holds the agglutination of its incoming slots |
| Lemmas.SplitTerminated | libkirum/src/lemma.rs:90-134 | splitting a built value on the separator gives back the separator-free parts, followed by the empty piece after the last separator |
| Lemmas.Pieces | libkirum/src/lemma.rs:130-134 | the letters read from any value are non-empty and separator-free |
| Lemmas.PiecesTerminated | libkirum/src/lemma.rs:90-134 | reading back a value built from separator-free parts gives the non-empty parts |
| Lemmas.Lemma.FromParts | libkirum/src/lemma.rs:90-102 | building from a list skips empty parts and separator parts and ends each kept part with the separator |
| Lemmas.Lemma.Parts | libkirum/src/lemma.rs:130-134 | the letters of a lemma are non-empty and free of the separator |
| Lemmas.Lemma.Push | libkirum/src/lemma.rs:184-194 | `push` gives the old letters followed by the pushed ones, and an empty lemma becomes the pushed one |
| Lemmas.Lemma.PushChar | libkirum/src/lemma.rs:196-207 | `push_char` on an empty lemma makes its value the pushed string verbatim; otherwise a letter is appended as one more letter, and an empty or separator string adds nothing |
| Lemmas.Lemma.StringWithoutSep | libkirum/src/lemma.rs:210-213 | the string without separators holds no separator |
| Lemmas.Lemma.DedoubleSep | libkirum/src/lemma.rs:371-382 | the loop over the characters computes the collapse of doubled separators |
| Lemmas.Lemma.RemoveChar | libkirum/src/lemma.rs:221-224 | `remove_char` replaces the letter's text by nothing (through the corrected `Last` arm of `replace`) and then collapses doubled separators |
| Lemmas.Lemma.Dedouble | libkirum/src/lemma.rs:242-280 | `dedouble` rebuilds the lemma from its letters with the pair of the given kind collapsed |
| Lemmas.Lemma.ModifyWithArray | libkirum/src/lemma.rs:324-349 | the new value is, per array entry, the literal letter or the letter at that place, each followed by the separator, places out of range skipped |
| Lemmas.PushCharParts | libkirum/src/lemma.rs:196-202 | appending a letter to a list of letters rebuilds into exactly those letters plus it; an empty or separator string is dropped |
| Lemmas.FromPartsRoundTrip | libkirum/src/lemma.rs:90-134 | for non-empty, separator-free parts, list → Lemma → list is the identity |
| Lemmas.FromPartsParts | libkirum/src/lemma.rs:90-134 | for separator-free parts, list → Lemma → list drops exactly the empty parts |
| Lemmas.LenFromParts | libkirum/src/lemma.rs:173-180 | `len` is the number of letters, and `is_empty` holds iff there are none |
| Lemmas.Lemma.Len | libkirum/src/lemma.rs:173-175 | `len`: the number of letters; Lemmas.LenFromParts proves it is the number of letters the lemma was built from |
| Lemmas.Lemma.IsEmpty | libkirum/src/lemma.rs:178-180 | `is_empty`: the raw value is empty; Lemmas.LenFromParts proves this holds iff there are no letters |
| Lemmas.Lemma.ToString | libkirum/src/lemma.rs:124-128 | `to_string`: the raw value, separators included; its meaning is proved in Lemmas.ToStringParts |
| Lemmas.ToStringParts | libkirum/src/lemma.rs:124-128 | the text of a lemma built from letters is each letter followed by the separator, and reading it back gives the same letters |
| Lemmas.JoinWithoutSep | libkirum/src/lemma.rs:210-213 | removing the separators from a built value gives the parts concatenated |
| Lemmas.StringWithoutSepFromParts | libkirum/src/lemma.rs:210-213 | a lemma built from separator-free parts reads without separators as the parts concatenated |
| Lemmas.PrefixPostfixParts | libkirum/src/lemma.rs:232-239 | `add_prefix` puts the prefix's letters first and `add_postfix` the postfix's letters last, and the plain strings concatenate in that order |
| Lemmas.Lemma.AddPrefix | libkirum/src/lemma.rs:232-234 | `add_prefix`: the prefix's raw value in front; Lemmas.PrefixPostfixParts proves the prefix's letters come first |
| Lemmas.Lemma.AddPostfix | libkirum/src/lemma.rs:237-239 | `add_postfix`: the postfix's raw value behind; Lemmas.PrefixPostfixParts proves the postfix's letters come last |
| Lemmas.CollapseSeps | libkirum/src/lemma.rs:371-382 | collapsing separators never lengthens the value |
| Lemmas.CollapseSepsNoDouble | libkirum/src/lemma.rs:371-382 | after collapsing, no two separators are adjacent |
| Lemmas.CollapseSepsPieces | libkirum/src/lemma.rs:371-382 | collapsing separators does not change the letters read from the value |
| Lemmas.DedoubleSepSpec | libkirum/src/lemma.rs:371-382 | `dedouble_sep` leaves no two consecutive separators and keeps the letters |
| Lemmas.ReplaceAllTerminated | libkirum/src/lemma.rs:353-356 | when the pattern matches only whole letters, replacing all its occurrences in the value replaces every equal letter |
| Lemmas.ReplaceFirstTerminated | libkirum/src/lemma.rs:357-360 | when the pattern matches only whole letters, replacing its first occurrence replaces the first equal letter |
| Lemmas.ReplaceParts | libkirum/src/lemma.rs:351-369 | `replace` at First, Last or All gives the letters with the first, last or every equal letter replaced (an empty replacement dropping the letter); at Last this is the corrected arm, which keeps the other letters whole |
| Lemmas.AllLettersReplace | libkirum/src/lemma.rs:351-369 | replacing a letter by a letter gives a list of letters |
| Lemmas.ReplaceLetterParts | libkirum/src/lemma.rs:351-369 | replacing a whole letter by a letter maps the first, last or every equal letter to the new one and keeps the rest; at Last this is the corrected arm |
| Lemmas.Lemma.Replace | libkirum/src/lemma.rs:351-369 | `replace`, with the Last arm corrected to keep letters whole; its meaning is proved in Lemmas.ReplaceParts and Lemmas.ReplaceLetterParts, and its agreement with the source in Lemmas.ReplaceAgrees |
| Lemmas.Lemma.ReplaceAsWritten | libkirum/src/lemma.rs:361-367 | `replace` as written, whose Last arm re-reads the replaced text through `From<String>`; Lemmas.ReplaceAgrees proves it equal to Lemmas.Lemma.Replace on single-character letters and a whole-letter pattern, and LemmaExamples.ReplaceLastAsWrittenSplits shows where they differ |
| Lemmas.ReplaceLastAgrees | libkirum/src/lemma.rs:361-367 | when every letter and the replacement are at most one character, matched whole, the as-written Last arm (re-split into characters) gives the same lemma as the corrected one |
| Lemmas.ReplaceAgrees | libkirum/src/lemma.rs:351-369 | under the same conditions `replace` as written and the corrected `replace` agree at First, Last and All |
| Lemmas.RemoveByReplace | libkirum/src/lemma.rs:221-224 | replacing a letter by nothing and dropping empties removes the first, last or every equal letter |
| Lemmas.RemoveCharParts | libkirum/src/lemma.rs:221-224 | `remove_char` removes the first, last or every equal letter, and leaves no two consecutive separators; at Last through the corrected `replace` arm |
| Lemmas.AllLettersDouble | libkirum/src/lemma.rs:284-304 | doubling a letter keeps a list of letters |
| Lemmas.DoubleAt | libkirum/src/lemma.rs:284-304 | `double` First inserts one copy at the first occurrence and Last one copy at the last; an absent letter leaves the letters unchanged |
| Lemmas.DoubleParts | libkirum/src/lemma.rs:284-304 | the doubled lemma's letters are the letters with the chosen occurrences doubled |
| Lemmas.Lemma.Double | libkirum/src/lemma.rs:284-304 | `double`: the lemma of the doubled letters; Lemmas.DoubleParts and Letters.DoubleLettersSpec state which occurrence gains a copy, and Letters.DoubleThenDedouble that `dedouble` takes it away |
| Lemmas.AllLettersDedouble | libkirum/src/lemma.rs:242-280 | dedoubling keeps a list of letters |
| Lemmas.DedoubleParts | libkirum/src/lemma.rs:278-279 | rebuilding the dedoubled letters reads back as those letters |
| Lemmas.DoubleThenDedoubleLemma | libkirum/src/lemma.rs:242-304 | doubling the first (last) occurrence of a letter and then dedoubling the first (last) pair gives back the lemma |
| Lemmas.ModifyWithArrayParts | libkirum/src/lemma.rs:324-349 | the value `modify_with_array` builds reads back as the selected letters, and the array of all places in order rebuilds the lemma |
| Lemmas.FromStringParts | libkirum/src/lemma.rs:111-116 | a string without separators becomes one letter per character and reads back without separators as itself |
| Lemmas.FromStringKeeps | libkirum/src/lemma.rs:111-116 | `From<String>` makes each character but the separator a letter |
| Lemmas.Lemma.FromString | libkirum/src/lemma.rs:111-116 | `From<String>`: one letter per character; its meaning is proved in Lemmas.FromStringKeeps and Lemmas.FromStringParts |
| Lemmas.StringWithoutSepParts | libkirum/src/lemma.rs:210-213 | the string without separators is the concatenation of the letters |
| LemmaExamples.ReplaceAllExample | libkirum/src/lemma.rs:425-435 | replacing every "i" of k,i,r,u,m by "e" gives k,e,r,u,m ("kerum") |
| LemmaExamples.ReplaceFirstExample | libkirum/src/lemma.rs:437-443 | replacing the first "u" of k,i,r,u,u by "h" gives k,i,r,h,u ("kirhu") |
| LemmaExamples.ReplaceLastExample | libkirum/src/lemma.rs:445-451 | replacing the last "u" of u,i,r,u by "h" gives u,i,r,h ("uirh") |
| LemmaExamples.ReplaceLastAsWrittenExample | libkirum/src/lemma.rs:445-451 | the same test on the as-written `Last` arm also gives u,i,r,h |
| LemmaExamples.DoubleAllExample | libkirum/src/lemma.rs:453-459 | doubling every "t" of "test" gives tt,e,s,tt ("ttestt") |
| LemmaExamples.DoubleFirstExample | libkirum/src/lemma.rs:461-467 | doubling the first "t" of "test" gives "ttest" |
| LemmaExamples.DoubleLastExample | libkirum/src/lemma.rs:469-475 | doubling the last "t" of "test" gives "testt" |
| LemmaExamples.DedoubleAllExample | libkirum/src/lemma.rs:477-483 | dedoubling every "t" pair of "ttestt" gives "test" |
| LemmaExamples.DedoubleFirstExample | libkirum/src/lemma.rs:485-491 | dedoubling the first "t" pair of "ttestt" gives "testt" |
| LemmaExamples.DedoubleLastExample | libkirum/src/lemma.rs:493-499 | dedoubling the last "t" pair of "ttestt" gives "ttest" |
| LemmaExamples.ModifyWithArrayExample | libkirum/src/lemma.rs:399-411 | k,i,r,u,m with [0, t, q, 1] gives exactly the value of k,t,q,i |
| LemmaExamples.ReplaceLastAsWrittenSplits | libkirum/src/lemma.rs:361-367 | as written, replacing the last "u" of the letters ch,u by "o" gives h,c,o: the letter "ch" is split and its characters reversed |
| LemmaExamples.ReplaceLastKeepsLetters | libkirum/src/lemma.rs:361-367 | in the corrected Last arm the same replacement gives ch,o |
| Letters.IndexOf | libkirum/src/word.rs:148 | the index returned holds the letter and no earlier index does; none is returned exactly when the letter is absent |
| Letters.LastIndexOf | libkirum/src/word.rs:154 | the index returned holds the letter and no later index does; none is returned exactly when the letter is absent |
| Letters.IndexOfReverse | libkirum/src/word.rs:255-258 | searching the reversed word from the front finds the mirror image of the last occurrence, and finds nothing exactly when there is no last occurrence |
| Letters.RemoveLetter | libkirum/src/word.rs:137-161 | a word without the letter comes back unchanged; `All` leaves no occurrence and keeps every other letter in order; `First`/`Last` drop exactly one letter when it occurs |
| Letters.FilterOut | libkirum/src/word.rs:143-145 | `retain` leaves no occurrence of the letter, is the identity on words without it, and keeps every other letter in order |
| Letters.RemoveFirstLast | src/word.rs:74-85 | `First` removes the occurrence with no earlier occurrence and `Last` the one with no later occurrence, leaving everything around it in place |
| Letters.ReplaceFirstLetter | libkirum/src/word.rs:169-172 | replacing the first occurrence keeps the word's length |
| Letters.ReplaceLetters | libkirum/src/word.rs:164-180 | every replacement kind keeps the word's length |
| Letters.ReplaceFirstLetterAt | libkirum/src/word.rs:169-172 | the mapping with the `found` flag changes exactly the first occurrence of the old letter, or nothing when it is absent |
| Letters.ReplaceLastLetterAt | libkirum/src/word.rs:173-178 | mapping the reversed word and reversing back changes exactly the last occurrence of the old letter, or nothing when it is absent |
| Letters.ReplaceLettersSpec | libkirum/src/word.rs:164-180 | `All` substitutes every occurrence letter by letter; `First` and `Last` overwrite only the first or last occurrence |
| Letters.ReplaceLettersRoundTrip | libkirum/src/word.rs:164-180 | when the new letter does not already occur, replacing back with the same kind restores the original word |
| Letters.DoubleVec | libkirum/src/word.rs:311-318 | inserting at the found position adds exactly one letter, and none when nothing was found |
| Letters.DoubleLettersSpec | libkirum/src/word.rs:245-261 | `First` inserts a copy before the first occurrence and `Last` after the last; both are the identity when the letter is absent; `All` turns every occurrence into the letter written twice and keeps the others |
| Letters.DedoubleAll | libkirum/src/word.rs:212-220 | dedoubling never lengthens the word and introduces no new letter |
| Letters.FirstDoubled | libkirum/src/word.rs:221-230 | the position found is the first place the letter directly repeats itself; none is found exactly when it never repeats |
| Letters.LastDoubledBack | libkirum/src/word.rs:231-240 | the position found is the last place the letter directly repeats itself when read backwards; none is found exactly when it never does |
| Letters.Dedouble | libkirum/src/word.rs:206-243 | the loop over the letters computes the dedoubling specified for each position kind |
| Letters.DedoubleAllLoop | libkirum/src/word.rs:212-220 | the loop with `cur` tracking the previous letter yields the run-collapsed word |
| Letters.DedoubleFirstLoop | libkirum/src/word.rs:221-230 | the loop with the `found` flag drops only the first repeated copy of the letter |
| Letters.DedoubleLastLoop | libkirum/src/word.rs:231-240 | the backwards loop inserting at the front drops only the last repeated copy of the letter |
| Letters.DedoubleAllLast | libkirum/src/lemma.rs:247-255 | dedoubling keeps the word's final letter |
| Letters.DedoubleAllNoDoubles | libkirum/src/lemma.rs:247-255 | after `All` dedoubling, the letter never directly repeats |
| Letters.DedoubleAllKeepsOthers | libkirum/src/lemma.rs:247-255 | dedoubling keeps every other letter, in order |
| Letters.DedoubleAllIdempotent | libkirum/src/lemma.rs:247-255 | dedoubling twice is the same as dedoubling once |
| Letters.DedoubleAllUnchanged | libkirum/src/lemma.rs:247-255 | a word in which the letter never repeats is left unchanged |
| Letters.DoubleThenDedouble | libkirum/src/lemma.rs:242-304 | for `First` and `Last`, dedoubling undoes doubling: the original word comes back |
| Letters.DoubleThenDedoubleFirst | libkirum/src/lemma.rs:256-265 | letters with a copy of `letter` inserted at its first occurrence (or unchanged when it is absent), dedoubled at `First`, are the original letters |
| Letters.DedoubleFirstOfInsert | libkirum/src/lemma.rs:256-265 | inserting a copy before the first occurrence and dedoubling at `First` gives the word back |
| Letters.DoubleThenDedoubleLast | libkirum/src/lemma.rs:266-275 | letters with a copy of `letter` inserted after its last occurrence (or unchanged when it is absent), dedoubled at `Last`, are the original letters |
| Letters.DedoubleLastOfInsert | libkirum/src/lemma.rs:266-275 | inserting a copy after the last occurrence and dedoubling at `Last` gives the word back |
| Letters.ArraySelect | libkirum/src/word.rs:282-308 | the rebuilt word has at most one letter per array entry |
| Letters.ArraySelectLength | libkirum/src/word.rs:292-298 | the rebuilt word has one letter per entry exactly when every `Place` index is in range; out-of-range places are skipped |
| Letters.Places | libkirum/src/word.rs:292-300 | the array `[Place(0), ..., Place(n-1)]` has one entry per index, in order |
| Letters.ArraySelectIdentity | libkirum/src/word.rs:292-300 | selecting places `0 .. n-1` copies the first `n` letters |
| Letters.ModifyWithArray | libkirum/src/word.rs:289-306 | the loop pushing a literal or the indexed letter for each entry computes the specified rebuilt word |
| Words.NameInjective | libkirum/src/word.rs:18-28 | distinct parts of speech print distinct names, so comparing names compares parts of speech |
| Words.Word.Chars | libkirum/src/word.rs:127-135 | a letter list is returned as is; a string is split into one letter per character |
| Words.Word.RemoveChar | libkirum/src/word.rs:137-161 | the result is a letter list; absent letters change nothing; `All` leaves no occurrence; `First`/`Last` drop exactly one letter when it occurs |
| Words.Word.Replace | libkirum/src/word.rs:164-180 | the result is a letter list of the same length, unchanged when the old letter is absent |
| Words.Word.AddPrefix | libkirum/src/word.rs:183-193 | the result keeps the word's representation and spells the prefix followed by the word |
| Words.Word.AddPostfix | libkirum/src/word.rs:194-204 | the result keeps the word's representation and spells the word followed by the postfix |
| Words.Word.Dedouble | libkirum/src/word.rs:206-243 | the result is the letter list dedoubled as specified for the position kind |
| Words.Word.Double | libkirum/src/word.rs:245-261 | `First`/`Last` add exactly one letter when it occurs and change nothing otherwise; `All` keeps the number of letters |
| Words.Word.ModifyWithArray | libkirum/src/word.rs:282-308 | the result is the word rebuilt from the array, with at most one letter per entry |
| Words.ReplaceLettersAbsent | libkirum/src/word.rs:164-180 | replacing a letter the word does not contain leaves the letters unchanged, for every kind |
| Words.JoinWordChars | libkirum/src/word.rs:114-135 | joining a word's letters spells the word |
| Words.ReplaceSpec | libkirum/src/word.rs:164-180 | `All` substitutes letter by letter; `First`/`Last` overwrite only the first/last occurrence |
| Words.RemoveCharSpec | src/word.rs:64-88 | `First` removes the first occurrence and `Last` the last, leaving everything around it; `All` keeps every other letter in order |
| Words.DoubleThenDedouble | libkirum/src/word.rs:206-261 | for `First` and `Last`, dedoubling a doubled word restores its letters |
| Words.DedoubleAllSpec | libkirum/src/word.rs:212-220 | after `All` dedoubling the letter never repeats directly, and dedoubling again changes nothing |
| Words.ModifyWithArrayIdentity | src/word.rs:133-159 | the array of every place in order rebuilds the word unchanged |
| Transforms.Apply | libkirum/src/transforms.rs:83-128 | one transform function changes only the lexis's word; a lexis without a word, or a `Loanword` step, is left exactly as it was; otherwise the word becomes the edited lemma, with `replace` and `remove_char` at Last taking the corrected arm |
| Transforms.TransformLexis | libkirum/src/transforms.rs:83-128 | the in-place update of the lexis's word agrees with the functional step, including its corrected `Last` arm of `replace` |
| Transforms.EditWord | libkirum/src/transforms.rs:88-124 | the edit each transform function makes to the word; Transforms.Apply states its effect on the lexis and Transforms.LoanwordsChangeNothing that `Loanword` changes nothing |
| Transforms.ApplyAllOnlyWord | libkirum/src/transforms.rs:34-37 | a chain of transform functions changes nothing but the word, keeps a word present, and leaves a wordless lexis untouched |
| Transforms.ApplyAllAppend | libkirum/src/transforms.rs:34-37 | applying two chains in a row is applying their concatenation |
| Transforms.ApplyAll | libkirum/src/transforms.rs:34-37 | the functions of a transform applied in order; Transforms.ApplyAllOnlyWord and Transforms.ApplyAllAppend state what the chain changes and how chains compose |
| Transforms.LoanwordsChangeNothing | libkirum/src/transforms.rs:106-108 | a chain made only of `Loanword` steps leaves the lexis unchanged |
| Transforms.TransformOption | libkirum/src/transforms.rs:27-42 | reports `true` exactly when there is no match condition or it matches; then every function is applied in order, otherwise the lexis is untouched |
| Transforms.CanTransform | libkirum/src/transforms.rs:28-32 | a transform applies when it has no match condition or the condition matches; Transforms.TransformOption returns exactly this |
| Transforms.TransformEtymon | libkirum/src/transforms.rs:22-24 | the lexis is transformed when the condition allows and left as it was otherwise; only its word ever changes |
| TransformsExamples.PlainReadBack | libkirum/src/lemma.rs:112-116 | a lemma made from a plain string reads back as that string |
| TransformsExamples.AffixReadBack | libkirum/src/lemma.rs:232-239 | adding a postfix or prefix reads back as the concatenation of the two plain words |
| TransformsExamples.AffixPlain | libkirum/src/transforms.rs:97-105 | the `Postfix` and `Prefix` functions append or prepend the plain value to a plain word |
| TransformsExamples.PostfixExample | libkirum/src/transforms.rs:184-191 | postfix "uh" on "kurum" reads "kurumuh" |
| TransformsExamples.PrefixExample | libkirum/src/transforms.rs:193-200 | prefix "tur" on "kurum" reads "turkurum" |
| TransformsExamples.KurumChars | libkirum/src/transforms.rs:167 | "kurum" splits into the five letters k, u, r, u, m |
| TransformsExamples.KurumMapped | libkirum/src/transforms.rs:165-166 | replacing every "u" with "a" in those letters gives k, a, r, a, m |
| TransformsExamples.JoinLiteral | libkirum/src/lemma.rs:111-116 | joining the letters of a string spells that string |
| TransformsExamples.LetterReplaceExample | libkirum/src/transforms.rs:163-172 | replacing every "u" with "a" turns "kurum" into "karam" |
| TransformsExamples.SelectKrm | libkirum/src/transforms.rs:176 | places 0 and 1 and the literal "u" select k, r, u from k, r, m |
| TransformsExamples.LetterArrayExample | libkirum/src/transforms.rs:174-182 | the letter array [0, 1, "u"] turns "krm" into "kru" |
| Matching.FromString | libkirum/src/matching.rs:16-20 | a bare string becomes a positive `equals` match on that string |
| Matching.MatchesStringSpec | libkirum/src/matching.rs:54-67 | `equals` a string holds exactly for that string and never for a vector; `oneof` holds exactly when the string is one of the options |
| Matching.MatchesString | libkirum/src/matching.rs:54-67 | `ValueMatch == String`; its meaning is proved in Matching.MatchesStringSpec |
| Matching.MatchesListSpec | libkirum/src/matching.rs:93-108 | against a tag list, `oneof` holds when some option is a tag, `equals` a vector holds when every listed item is a tag, and `equals` a string never holds |
| Matching.MatchesList | libkirum/src/matching.rs:93-108 | `ValueMatch == Vec<String>`; its meaning is proved in Matching.MatchesListSpec and Matching.EmptyListMatches |
| Matching.NotNegatesMatch | libkirum/src/matching.rs:22-35 | a `not` value holds exactly when the same `match` value does not |
| Matching.IsTrue | libkirum/src/matching.rs:22-35 | `is_true` of a `match` or `not` value; Matching.NotNegatesMatch proves `not` is the negation |
| Matching.ValueMatches | libkirum/src/matching.rs:130-139 | `value_matches`: an absent condition holds, a present one is `is_true`; used by Matching.Matches, whose meaning Matching.MatchesSpec states |
| Matching.EmptyListMatches | libkirum/src/matching.rs:93-108 | an empty `equals` vector matches every tag list; an empty `oneof` matches none |
| Matching.MatchesSpec | libkirum/src/matching.rs:141-151 | the id field plays no part; the empty match accepts every lexis; a differing `archaic` flag, language or tag condition rejects it; word and part-of-speech conditions are skipped when the lexis has neither |
| Matching.Matches | libkirum/src/matching.rs:141-151 | `LexisMatch == Lexis` and `matches`; its meaning is proved in Matching.MatchesSpec |
| Matching.EtymonMatchesSpec | libkirum/src/matching.rs:162-173 | `all` accepts the empty list and `one` rejects it; on a non-empty list `all` implies `one`; `all` distributes over concatenation as a conjunction and `one` as a disjunction |
| Matching.EtymonMatches | libkirum/src/matching.rs:162-173 | `EtymonMatch == Vec<Lexis>`; its meaning is proved in Matching.EtymonMatchesSpec |
| Matching.LexisMatchExample | libkirum/src/matching.rs:195-220 | the Old Babylonian lexis with tags tag1, tag2 matches language, archaic flag and `oneof [tag1, tag3]` |
| Matching.LexisTagsExample | libkirum/src/matching.rs:221-242 | tags tag1, tag2 match `equals [tag1, tag2]`, `not equals [tag3, tag4]` and `not oneof [tag3, tag4]` |
| LexCreate.FromChar | libkirum/src/lexcreate.rs:80-88 | a single character is a phoneme exactly when it is lowercase, otherwise a reference, and keeps its text |
| LexCreate.IsLowercase | libkirum/src/lexcreate.rs:82 | `char::is_lowercase`, taken on ASCII letters; LexCreate.FromChar and LexCreate.ParseTokens state how it sorts phonemes from references |
| LexCreate.FindLowercase | libkirum/src/lexcreate.rs:71 | the character found is the first lowercase one; none is found exactly when no character is lowercase |
| LexCreate.FromStr | libkirum/src/lexcreate.rs:69-78 | a token is a phoneme exactly when it holds some lowercase character, otherwise a reference, and keeps its text |
| LexCreate.TokensFromSpec | libkirum/src/lexcreate.rs:48 | every piece split off is non-empty and free of whitespace, and the pieces together spell the input without its whitespace |
| LexCreate.SplitWhitespaceSpec | libkirum/src/lexcreate.rs:48 | `split_whitespace` yields non-empty whitespace-free pieces that spell the input with its whitespace removed |
| LexCreate.SplitJoined | libkirum/src/lexcreate.rs:48 | splitting whitespace-free tokens joined by single spaces gives the tokens back |
| LexCreate.SplitWhitespace | libkirum/src/lexcreate.rs:48 | `split_whitespace`; its meaning is proved in LexCreate.SplitWhitespaceSpec and LexCreate.SplitJoined |
| LexCreate.IsWhitespace | libkirum/src/lexcreate.rs:48 | `char::is_whitespace`: the Unicode White_Space characters, on which LexCreate.SplitWhitespaceSpec splits |
| LexCreate.MapFromStr | libkirum/src/lexcreate.rs:48-50 | one create value per token, each classified by its text |
| LexCreate.MapFromChar | libkirum/src/lexcreate.rs:52-54 | one create value per character, each classified by that character |
| LexCreate.ParsePattern | libkirum/src/lexcreate.rs:44-60 | the loops pushing one value per token (more than one space) or per character (otherwise) build the specified pattern |
| LexCreate.ParseTokens | libkirum/src/lexcreate.rs:47-50 | with more than one space, the pattern has one value per whitespace-separated token, a phoneme exactly when the token holds a lowercase letter, and the tokens spell the input without whitespace |
| LexCreate.Parse | libkirum/src/lexcreate.rs:44-60 | `From<&str> for PhoneticReference` as written; LexCreate.ParsePattern computes it and LexCreate.ParseTokens states its tokens |
| LexCreate.ParseIntendedNoSpace | libkirum/src/lexcreate.rs:40-47 | the corrected parse never yields a value containing a space |
| LexCreate.ParseIntendedAgrees | libkirum/src/lexcreate.rs:44-60 | the corrected parse agrees with the source on every input except those with exactly one space |
| LexCreate.ParseIntended | libkirum/src/lexcreate.rs:44-60 | the same parse splitting on whitespace whenever there is a space; its meaning is proved in LexCreate.ParseIntendedNoSpace and LexCreate.ParseIntendedAgrees |
| LexCreate.Rng.constructor | libkirum/src/lexcreate.rs:121 | the random source starts at the first draw of the given stream |
| LexCreate.Rng.Choose | libkirum/src/lexcreate.rs:121 | `choose` returns the pattern picked by the next draw, and consumes a draw only when the list is non-empty |
| LexCreate.Chosen | libkirum/src/lexcreate.rs:121 | nothing is chosen exactly from an empty list; otherwise the choice is an element of the list |
| LexCreate.LexPhonology.WordFor | libkirum/src/lexcreate.rs:119-127 | an unknown lexis type or an empty pattern list yields no word and uses no draw; a word produced is never empty |
| LexCreate.LexPhonology.Expand | libkirum/src/lexcreate.rs:129-150 | a resolved pattern is never empty: an empty result is reported as no word |
| LexCreate.LexPhonology.ExpandGroup | libkirum/src/lexcreate.rs:152-161 | an unknown or empty group yields no word and uses no draw; a word produced is never empty |
| LexCreate.LexPhonology.CreateWord | libkirum/src/lexcreate.rs:119-127 | the method drawing from the random source computes the specified word and leaves the source at the next unused draw |
| LexCreate.LexPhonology.ResolvePhoneticReference | libkirum/src/lexcreate.rs:129-150 | the loop pushing phonemes and resolved groups computes the specified expansion, stopping with no word at the first unresolvable group |
| LexCreate.LexPhonology.RandomPhoneme | libkirum/src/lexcreate.rs:152-161 | picking a pattern of the group and resolving it computes the specified group expansion |
| LexCreate.ExpandValuesUnresolvable | libkirum/src/lexcreate.rs:134-139 | a pattern holding a reference to an unknown or empty group never yields a word, whatever precedes it |
| LexCreate.ExpandUnresolvable | libkirum/src/lexcreate.rs:129-150 | resolving a pattern that references an unresolvable group yields no word |
| LexCreate.ExpandValuesSound | libkirum/src/lexcreate.rs:131-142 | a word produced extends the accumulator, and its new letters are derived from the pattern: each phoneme contributes itself and each reference a word derived from one of its group's patterns |
| LexCreate.ExpandGroupSound | libkirum/src/lexcreate.rs:152-161 | a word produced for a group is non-empty and derived from one of the group's patterns |
| LexCreate.ExpandSound | libkirum/src/lexcreate.rs:129-150 | a word produced for a pattern is non-empty and derived from that pattern |
| LexCreate.WordForSound | libkirum/src/lexcreate.rs:119-127 | a word created for a lexis type is non-empty, the type exists, and the word is derived from one of its patterns |
| LexCreate.ExpandValuesTotal | libkirum/src/lexcreate.rs:131-142 | when every group referenced is resolvable within the nesting bound, a word is always produced, with at least one letter per value |
| LexCreate.ExpandGroupTotal | libkirum/src/lexcreate.rs:152-161 | a group all of whose patterns are resolvable always yields a non-empty word |
| LexCreate.ExpandTotal | libkirum/src/lexcreate.rs:129-150 | a non-empty resolvable pattern always yields a word with at least one letter per value |
| LexCreate.WordForTotal | libkirum/src/lexcreate.rs:119-127 | when every pattern of the lexis type is non-empty and resolvable, a non-empty word is always created |
| LexCreateExamples.NoSpaces | libkirum/src/lexcreate.rs:47 | a pattern without spaces has a space count of zero, so it is parsed per character |
| LexCreateExamples.TwoSpaces | libkirum/src/lexcreate.rs:47 | a pattern with two spaces has a space count above one, so it is split on whitespace |
| LexCreateExamples.ParseLetters | libkirum/src/lexcreate.rs:196-206 | "CCrC" parses to references C, C, phoneme r, reference C |
| LexCreateExamples.ParseRepeated | libkirum/src/lexcreate.rs:174-179 | "CCCC" parses to four references C |
| LexCreateExamples.OneSpace | libkirum/src/lexcreate.rs:47 | "C V" has exactly one space |
| LexCreateExamples.OneSpaceAsWritten | libkirum/src/lexcreate.rs:47-55 | as written, "C V" parses per character into C, a reference named by a space, and V; the corrected parse gives C, V |
| LexCreateExamples.SpacedTokens | libkirum/src/lexcreate.rs:183 | "C V i C r rw" splits into C, V, i, C, r, rw |
| LexCreateExamples.ParseSpaced | libkirum/src/lexcreate.rs:181-194 | "C V i C r rw" parses to references C, V, phoneme i, reference C, phonemes r, rw |
| LexCreateExamples.BasicWellFormed | libkirum/src/lexcreate.rs:210-244 | every phoneme of every group and word pattern of the generation example is a single letter |
| LexCreateExamples.BasicLetters | libkirum/src/lexcreate.rs:211-221 | groups C and V resolve at nesting depth one |
| LexCreateExamples.BasicGrounded | libkirum/src/lexcreate.rs:222-232 | group S resolves at nesting depth two |
| LexCreateExamples.BasicGen | libkirum/src/lexcreate.rs:208-250 | creating a "words" word always succeeds with a non-empty word, whatever the random draws |
| Sorting.StableSortSpec | libkirum/src/kirum.rs:229 | `sort_by_key` under a total preorder yields a sorted permutation of the input that keeps the input order of entries with equal keys |
| Sorting.InsertSorted | libkirum/src/kirum.rs:238 | inserting into a sorted list keeps it sorted |
| Sorting.InsertPerm | libkirum/src/kirum.rs:238 | insertion adds exactly the inserted entry |
| Sorting.InsertStable | libkirum/src/kirum.rs:238 | insertion places the new entry after every entry with the same key |
| Sorting.SeqLeTotal | libkirum/src/kirum.rs:229 | the lexicographic order on letter lists used as sort key relates every two lists |
| Sorting.SeqLeTransitive | libkirum/src/kirum.rs:229 | the lexicographic order on letter lists is transitive |
| Sorting.SeqLeAntisymmetric | libkirum/src/kirum.rs:229 | two letter lists ordered both ways are equal |

## Left out

- Kirum.LanguageTree.ComputeLexicon: writes each derived word into the slot of the edge being visited. The source's `update_edge` writes it into the newest edge between the same two nodes. The two agree on graphs without parallel edges: there the as-written loop reaches the same result and stops (`KirumParallel.AsWrittenSettles`). The as-written write and its non-termination are modelled separately in `KirumParallel` (see Findings).
- LegacyKirum.LanguageTree.ComputeLexicon: same correction as above, for the in-place engine of `src/kirum.rs`.
- LexCreate.LexPhonology.WordFor: takes a `fuel` bound on how deeply groups may nest. The source recurses without a bound and does not terminate on a cyclic group. The same bound applies to `Expand`, `ExpandGroup`, `CreateWord`, `ResolvePhoneticReference` and `RandomPhoneme`.
- LexCreate.Rng.Choose: `rand::thread_rng` is replaced by a stream of draws given up front. A draw `d` picks the alternative at `d % len`, so the model does not claim a uniform distribution.
- Kirum.TransformWord: the `Word`-based transform that `libkirum/src/kirum.rs` calls is not in these files. It is rebuilt from the `Word` edits of the same names.
- Lemmas.Lemma.Replace: at `Last` keeps multi-character letters whole, where libkirum/src/lemma.rs:361-367 re-splits the replaced text into characters. The two agree when every letter and the replacement are at most one character and the pattern is a whole letter (Lemmas.ReplaceLastAgrees, Lemmas.ReplaceAgrees). The discrepancy is the second Findings row; the as-written arm is Lemmas.Lemma.ReplaceAsWritten.
- Lemmas.ReplaceParts: states the corrected `Last` arm of Lemmas.Lemma.Replace; under the conditions of Lemmas.ReplaceAgrees the source agrees.
- Lemmas.ReplaceLetterParts: states the corrected `Last` arm, as above.
- Lemmas.Lemma.RemoveChar: removes through the corrected `Last` arm of `replace`; under the conditions of Lemmas.ReplaceAgrees, with an empty replacement, the source agrees.
- Lemmas.RemoveCharParts: states the corrected `Last` arm, as for Lemmas.Lemma.RemoveChar.
- Transforms.EditWord: `LetterReplace` and `LetterRemove` at `Last` use the corrected arm; under the conditions of Lemmas.ReplaceAgrees the source agrees.
- Transforms.Apply: edits through Transforms.EditWord, so its `Last` replacements and removals use the corrected arm.
- Transforms.TransformLexis: calls Lemmas.Lemma.Replace and Lemmas.Lemma.RemoveChar, so it uses the corrected `Last` arm too.
- LemmaExamples.ReplaceLastExample: stated on the corrected `Last` arm; LemmaExamples.ReplaceLastAsWrittenExample states the same test on the as-written arm, through Lemmas.ReplaceLastAgrees.
- Files.ReadFromFiles: the `LanguageTree` that `add_single_word` and `read_from_files` fill is modelled as the log of their `connect_etymology` and `add_lexis` calls (Files.TreeCall). `tree.contains` is read as "some earlier call in the log mentions the lexis"; the graph those calls build is modelled by Kirum.Connect.
- Files.AddSingleWord: appends to the same call log as Files.ReadFromFiles, and its `contains` test reads that log.
- The `remove_char` example of libkirum/src/lemma.rs:413-422 ("kirum" without "i") is not a literal lemma, because unfolding the definitions on that constant is too costly for the verifier. `Lemmas.RemoveCharParts` states the same property for all words.
- Regular-expression edits are left out: `match_replace` in libkirum/src/lemma.rs:309-321 and libkirum/src/word.rs:267-278, and the regex `replace` of src/word.rs:91-109. Transforms take the regex step as a function parameter; no regex semantics are modelled.
- Unicode grapheme segmentation is left out. It is used by `From<String> for Lemma` and by `dedouble_sep`. A Dafny `char` stands for one grapheme, and `is_lowercase` is taken on ASCII letters.
- File and directory I/O is left out. This covers `ingest`'s file read and JSON parse, the file reads of `read_tree_files` and `read_transform_files`, `handle_directory`, `read_subdir_create_list`, `read_and_compute`, `get_transforms`, `new_from_files`, and the file handling of `daughter`. The models start from the parsed values.
- kirum/src/new.rs, kirum/src/import.rs, kirum/src/main.rs and kirum/src/cli.rs are left out: project scaffolding, command-line parsing and printing.
- kirum/src/tmpl.rs and `apply_def_vars` (Handlebars templating) are left out: a foreign template engine.
- petgraph is modelled as node and edge tables. Edges are listed newest first at a node, as petgraph iterates them. `graphviz` output is left out.
- serde visitors, `Debug`/`Display` formatting, Rhai `Dynamic` conversions and the `tabled` rendering of statistics are left out: formatting and foreign interfaces.
- kirum/src/global.rs, libkirum/src/errors.rs, src/errors.rs and libkirum/src/lib.rs are not part of this model: they declare types and modules only.
- Log output (`error!`, `debug!`) is left out. A logged-and-skipped case is modelled as the skip.
- `HashMap` iteration order is unspecified in Rust. Where a result depends on it, the order is a parameter: reading tree files and rendering the graph.
- Walking a JSON object's members follows serde_json's own object order: sorted keys by default, or insertion order with its `preserve_order` feature. The walk takes the member order as a parameter, which covers both.
- Counters are unbounded integers. The source's `i32`/`usize` counts cannot overflow at realistic sizes. `Place` indices keep their `i32` range.
- `&mut self` mutators on value types are modelled as functions that return the new value. This covers `Lemma` edits and `TransformFunc::transform` on a `Lexis`. Aliasing plays no part, because each value is owned by one place.
- Quirks kept as written, without a finding:
  - a trailing newline in a line ingest yields an entry "ingest-" with an empty definition;
  - an entry whose etymology lists no etymons is never added to the tree;
  - a derivative id that repeats silently overwrites the earlier entry;
  - `check_path` rejects ".json" alone and ".JSON".

## Findings

| source | as written | input that shows it | evidently intended | confidence | as-written member | corrected member |
|---|---|---|---|---|---|---|
| libkirum/src/kirum.rs:160-174 | the derived word is stored with `update_edge(node, target, ..)`, which overwrites the newest edge between the two nodes | `connect_etynmology` called twice for the same worded etymon and wordless lexis: the older edge's slot stays empty, every pass counts a change, and `compute_lexicon` never returns | each outgoing edge receives its own derived word, and the loop settles | not executed | KirumParallel.ParallelNeverSettles | KirumParallel.ParallelSettles |
| libkirum/src/lemma.rs:361-367 | the `Last` arm reverses the letters, replaces in the joined string, and re-splits the result into single characters | letters ch, u with `replace("u", "o", Last)` give h, c, o | the last equal letter is replaced and the other letters are kept whole: ch, o | not executed | LemmaExamples.ReplaceLastAsWrittenSplits | LemmaExamples.ReplaceLastKeepsLetters |
| kirum/src/ingest/json.rs:76-133 | under a parent, `key: "!t"` inserts key with transform t, then `created_root` is still false, so key is inserted again under the same parent without a transform, replacing the first entry | `{"a": {"b": "!t"}}` stores "ingest-b" with an edge to "ingest-a" and no transform | the entry keeps its edge through transform t | not executed | IngestJson.BangTransformAsWritten | IngestJson.BangTransformIntended |
| kirum/src/ingest/json.rs:60-133 | `created_root` is set once per object and never reset, so after one member with an `!etymology` child every later member skips its own insertion | `{"a": {"b": {"!etymology": "t"}, "c": []}}`: "ingest-c" is never stored under "ingest-a" | the flag is per member: b keeps its transform edge and c is stored under a | not executed | IngestJson.SiblingDroppedAsWritten | IngestJson.SiblingKeptIntended |
| libkirum/src/lexcreate.rs:47-55 | the pattern is split on whitespace only when it holds more than one space | "C V" parses per character into C, a reference named " ", and V; generation then fails on the group " " | a spaced pattern with any spaces is split into tokens: C, V | not executed | LexCreateExamples.OneSpaceAsWritten | LexCreate.ParseIntendedNoSpace |
