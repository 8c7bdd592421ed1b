/** Output bucketing of a daughter language (`group_by`,
    kirum/src/generate.rs): the rendered entries are split into files by
    id, by archaic flag or by lexis type, or all go to one default file. */
module Generate {
  import opened Wrappers
  import opened Strings
  import opened Lexes
  import opened Entries

  /** `SeparateValues`: the field to bucket by. */
  datatype SeparateValues = Word | Archaic | LexisType

  /** A rendered entry with its etymology. */
  type Entry = (Lexis, Etymology)

  /** The file an entry goes to when bucketing by `field`. */
  function BucketOf(field: SeparateValues, e: Entry): string
  {
    match field
    case Word => e.0.id
    case Archaic => if e.0.archaic then "archaic" else "modern"
    case LexisType => e.0.lexisType
  }

  function InBucket(field: SeparateValues, k: string): Entry -> bool
  {
    (e: Entry) => BucketOf(field, e) == k
  }

  /** The buckets after the entries are visited in order: by id, an entry
      replaces its bucket; by flag or type, it is appended to its bucket. */
  function GroupedBy(field: SeparateValues, dict: seq<Entry>): map<string, seq<Entry>>
  {
    if dict == [] then map[]
    else
      var files := GroupedBy(field, dict[..|dict| - 1]);
      var entry := dict[|dict| - 1];
      var key := BucketOf(field, entry);
      if field == Word || key !in files then files[key := [entry]]
      else files[key := files[key] + [entry]]
  }

  function Grouped(field: Option<SeparateValues>, dict: seq<Entry>, default: string): map<string, seq<Entry>>
  {
    if field.None? then map[default := dict] else GroupedBy(field.value, dict)
  }

  /** `group_by`. */
  method GroupBy(field: Option<SeparateValues>, dict: seq<Entry>, default: string) returns (files: map<string, seq<Entry>>)
    ensures files == Grouped(field, dict, default)
  {
    files := map[];
    if field.Some? {
      var toGroup := field.value;
      match toGroup {
        case Word =>
          for i := 0 to |dict|
            invariant files == GroupedBy(toGroup, dict[..i])
          {
            var entry := dict[i];
            assert dict[..i + 1][..i] == dict[..i];
            files := files[entry.0.id := [entry]];
          }
        case Archaic =>
          for i := 0 to |dict|
            invariant files == GroupedBy(toGroup, dict[..i])
          {
            var entry := dict[i];
            assert dict[..i + 1][..i] == dict[..i];
            var key := if entry.0.archaic then "archaic" else "modern";
            if key in files {
              files := files[key := files[key] + [entry]];
            } else {
              files := files[key := [entry]];
            }
          }
        case LexisType =>
          for i := 0 to |dict|
            invariant files == GroupedBy(toGroup, dict[..i])
          {
            var entry := dict[i];
            assert dict[..i + 1][..i] == dict[..i];
            if entry.0.lexisType in files {
              files := files[entry.0.lexisType := files[entry.0.lexisType] + [entry]];
            } else {
              files := files[entry.0.lexisType := [entry]];
            }
          }
      }
      assert dict[..|dict|] == dict;
    } else {
      files := files[default := dict];
    }
  }

  /** Without a field everything goes, in order, to the default file. */
  lemma GroupedNone(dict: seq<Entry>, default: string)
    ensures Grouped(None, dict, default).Keys == {default}
    ensures Grouped(None, dict, default)[default] == dict
  {
  }

  /** By archaic flag or lexis type, a bucket exists exactly when some entry
      belongs to it, and it holds those entries and only those, in input
      order: nothing is lost or duplicated. */
  lemma {:induction false} GroupedFilter(field: SeparateValues, dict: seq<Entry>, k: string)
    requires field != Word
    ensures k in GroupedBy(field, dict) <==> Filter(dict, InBucket(field, k)) != []
    ensures k in GroupedBy(field, dict) ==> GroupedBy(field, dict)[k] == Filter(dict, InBucket(field, k))
  {
    if dict != [] {
      GroupedFilter(field, dict[..|dict| - 1], k);
    }
  }

  /** By id, a bucket exists exactly for the ids present, and holds only the
      last entry with that id: a later duplicate overwrites. */
  lemma {:induction false} GroupedWords(dict: seq<Entry>, k: string)
    ensures k in GroupedBy(Word, dict) <==> Filter(dict, InBucket(Word, k)) != []
    ensures k in GroupedBy(Word, dict) ==> GroupedBy(Word, dict)[k] == [Last(Filter(dict, InBucket(Word, k)))]
  {
    if dict != [] {
      GroupedWords(dict[..|dict| - 1], k);
    }
  }

  function Last(s: seq<Entry>): Entry
    requires s != []
  {
    s[|s| - 1]
  }

  /** Bucketing by flag uses only the files "archaic" and "modern", each
      holding the entries with the matching flag. */
  lemma ArchaicBuckets(dict: seq<Entry>, k: string)
    requires k in GroupedBy(Archaic, dict)
    ensures k == "archaic" || k == "modern"
    ensures forall e :: e in GroupedBy(Archaic, dict)[k] ==> e in dict && e.0.archaic == (k == "archaic")
  {
    GroupedFilter(Archaic, dict, k);
    var kept := Filter(dict, InBucket(Archaic, k));
    FilterMember(dict, InBucket(Archaic, k));
    assert kept[0] in kept;
  }

  /** Bucketing by type puts every entry in the file named by its type. */
  lemma TypeBuckets(dict: seq<Entry>, e: Entry)
    requires e in dict
    ensures e.0.lexisType in GroupedBy(LexisType, dict)
    ensures e in GroupedBy(LexisType, dict)[e.0.lexisType]
  {
    var k := e.0.lexisType;
    FilterKeeps(dict, InBucket(LexisType, k));
    GroupedFilter(LexisType, dict, k);
  }
}
