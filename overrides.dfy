/** The `key=value` override list of the command line
    (kirum/src/ingest/overrides.rs): each item sets one field of a raw entry
    that starts out as the default entry. */
module Overrides {
  import opened Wrappers
  import opened Strings
  import opened Lemmas
  import Words
  import opened Entries

  datatype OverrideError =
    | Malformed(item: string)      // no '=' in the item
    | UnknownKey(key: string)      // a key no field answers to
    | BadPos(value: string)        // `PartOfSpeech::from_str` failed
    | BadBool(value: string)       // `bool::from_str` failed

  /** `PartOfSpeech::from_str`: the inverse of the lowercase name. */
  function ParsePos(s: string): (r: Result<Words.PartOfSpeech, OverrideError>)
    ensures r.Ok? ==> r.value.Name() == s
    ensures r.Err? ==> r == Err(BadPos(s))
  {
    if s == "noun" then Ok(Words.Noun)
    else if s == "verb" then Ok(Words.Verb)
    else if s == "adjective" then Ok(Words.Adjective)
    else Err(BadPos(s))
  }

  /** Every part of speech parses back from its name. */
  lemma ParsePosName(p: Words.PartOfSpeech)
    ensures ParsePos(p.Name()) == Ok(p)
  {
  }

  /** `bool::from_str`: exactly "true" and "false" are accepted. */
  function ParseBool(s: string): (r: Result<bool, OverrideError>)
    ensures r.Ok? <==> s == "true" || s == "false"
    ensures r.Ok? ==> r.value == (s == "true")
    ensures r.Err? ==> r == Err(BadBool(s))
  {
    if s == "true" then Ok(true)
    else if s == "false" then Ok(false)
    else Err(BadBool(s))
  }

  /** The keys an item may set. */
  const OverrideKeys: set<string> := {"word", "type", "language", "pos", "archaic", "tag", "generate"}

  /** The key of an item: the text before its first '='. */
  function KeyOf(item: string): string
  {
    SplitOn(item, '=')[0]
  }

  /** The value of an item with a '=': the second piece of `split('=')`. */
  function ValueOf(item: string): string
    requires '=' in item
  {
    var ps := SplitOn(item, '=');
    if |ps| < 2 then [] else ps[1]
  }

  /** The field `key` names holds `value`, as the item `key=value` sets it. */
  predicate Holds(e: RawLexicalEntry, key: string, value: string)
  {
    && (key == "word" ==> e.word == Some(Lemma.FromString(value)))
    && (key == "type" ==> e.wordType == Some(value))
    && (key == "language" ==> e.language == Some(value))
    && (key == "pos" ==> e.partOfSpeech.Some? && e.partOfSpeech.value.Name() == value)
    && (key == "archaic" ==> e.archaic == (value == "true"))
    && (key == "tag" ==> e.tags == Some([value]))
    && (key == "generate" ==> e.generate == Some(value))
  }

  /** `a` and `b` agree on the field `key` names. */
  predicate SameField(a: RawLexicalEntry, b: RawLexicalEntry, key: string)
  {
    && (key == "word" ==> a.word == b.word)
    && (key == "type" ==> a.wordType == b.wordType)
    && (key == "language" ==> a.language == b.language)
    && (key == "pos" ==> a.partOfSpeech == b.partOfSpeech)
    && (key == "archaic" ==> a.archaic == b.archaic)
    && (key == "tag" ==> a.tags == b.tags)
    && (key == "generate" ==> a.generate == b.generate)
  }

  /** The fields no override can set. */
  predicate Fixed(a: RawLexicalEntry, b: RawLexicalEntry)
  {
    a.definition == b.definition && a.etymology == b.etymology && a.derivatives == b.derivatives
  }

  /** `a` and `b` agree on every field except the one `key` names. */
  predicate AgreeExcept(a: RawLexicalEntry, b: RawLexicalEntry, key: string)
  {
    && Fixed(a, b)
    && (key != "word" ==> a.word == b.word)
    && (key != "type" ==> a.wordType == b.wordType)
    && (key != "language" ==> a.language == b.language)
    && (key != "pos" ==> a.partOfSpeech == b.partOfSpeech)
    && (key != "archaic" ==> a.archaic == b.archaic)
    && (key != "tag" ==> a.tags == b.tags)
    && (key != "generate" ==> a.generate == b.generate)
  }

  /** One iteration of `parse`'s loop: split the item on '=', reject it
      without a second piece, then set the field its key names to its value,
      propagating a failed part-of-speech or boolean parse. */
  function Apply(working: RawLexicalEntry, item: string): (r: Result<RawLexicalEntry, OverrideError>)
    ensures '=' !in item ==> r == Err(Malformed(item))
    ensures '=' in item && KeyOf(item) !in OverrideKeys ==> r == Err(UnknownKey(KeyOf(item)))
    ensures '=' in item && KeyOf(item) == "pos" && ParsePos(ValueOf(item)).Err? ==> r == ParsePos(ValueOf(item)).PropagateFailure()
    ensures '=' in item && KeyOf(item) == "archaic" && ParseBool(ValueOf(item)).Err? ==> r == ParseBool(ValueOf(item)).PropagateFailure()
    ensures r.Ok? ==> '=' in item && KeyOf(item) in OverrideKeys
    ensures r.Ok? ==> Holds(r.value, KeyOf(item), ValueOf(item)) && AgreeExcept(working, r.value, KeyOf(item))
  {
    var pieces := SplitOn(item, '=');
    PiecesCount(item);
    if |pieces| < 2 then Err(Malformed(item))
    else
      var key := pieces[0];
      var value := pieces[1];
      if key == "word" then Ok(working.(word := Some(Lemma.FromString(value))))
      else if key == "type" then Ok(working.(wordType := Some(value)))
      else if key == "language" then Ok(working.(language := Some(value)))
      else if key == "pos" then
        match ParsePos(value)
        case Ok(p) => Ok(working.(partOfSpeech := Some(p)))
        case Err(e) => Err(e)
      else if key == "archaic" then
        match ParseBool(value)
        case Ok(b) => Ok(working.(archaic := b))
        case Err(e) => Err(e)
      else if key == "tag" then Ok(working.(tags := Some([value])))
      else if key == "generate" then Ok(working.(generate := Some(value)))
      else Err(UnknownKey(key))
  }

  /** `parse` from a given start: the items in order, stopping at the
      first error. */
  function ParseFrom(working: RawLexicalEntry, items: seq<string>): Result<RawLexicalEntry, OverrideError>
    decreases items
  {
    if items == [] then Ok(working)
    else
      match Apply(working, items[0])
      case Ok(next) => ParseFrom(next, items[1..])
      case Err(e) => Err(e)
  }

  /** `parse`: starting from the default entry, apply each item in turn and
      return the first error met, if any. */
  method Parse(list: seq<string>) returns (r: Result<RawLexicalEntry, OverrideError>)
    ensures r == ParseFrom(DefaultRaw, list)
  {
    var working := DefaultRaw;
    for i := 0 to |list|
      invariant ParseFrom(working, list[i..]) == ParseFrom(DefaultRaw, list)
    {
      var val := list[i];
      assert list[i..][0] == val && list[i..][1..] == list[i + 1..];
      var rawValues := SplitOn(val, '=');
      if |rawValues| < 2 {
        return Err(Malformed(val));
      }
      var strippedVal := rawValues[1];
      var key := rawValues[0];
      if key == "word" {
        working := working.(word := Some(Lemma.FromString(strippedVal)));
      } else if key == "type" {
        working := working.(wordType := Some(strippedVal));
      } else if key == "language" {
        working := working.(language := Some(strippedVal));
      } else if key == "pos" {
        var pos := ParsePos(strippedVal);
        if pos.Err? {
          return Err(pos.error);
        }
        working := working.(partOfSpeech := Some(pos.value));
      } else if key == "archaic" {
        var archaic := ParseBool(strippedVal);
        if archaic.Err? {
          return Err(archaic.error);
        }
        working := working.(archaic := archaic.value);
      } else if key == "tag" {
        working := working.(tags := Some([strippedVal]));
      } else if key == "generate" {
        working := working.(generate := Some(strippedVal));
      } else {
        return Err(UnknownKey(key));
      }
    }
    assert list[|list|..] == [];
    return Ok(working);
  }

  // ---------------------------------------------------------------------------
  // What the pieces of an item are
  // ---------------------------------------------------------------------------

  /** An item splits into at least two pieces exactly when it holds a '='. */
  lemma PiecesCount(item: string)
    ensures |SplitOn(item, '=')| >= 2 <==> '=' in item
  {
    SplitOnJoinWith(item, '=');
    if '=' !in item {
      SplitOnFree(item, '=');
    }
  }

  /** The key is the text before the first '=', and the value the text
      between the first and the second '=' (or the end of the item). */
  lemma {:induction false} KeyValue(item: string)
    requires '=' in item
    ensures '=' !in KeyOf(item) && '=' !in ValueOf(item)
    ensures |KeyOf(item)| + 1 + |ValueOf(item)| <= |item|
    ensures item[..|KeyOf(item)|] == KeyOf(item) && item[|KeyOf(item)|] == '='
    ensures item[|KeyOf(item)| + 1..|KeyOf(item)| + 1 + |ValueOf(item)|] == ValueOf(item)
    ensures |KeyOf(item)| + 1 + |ValueOf(item)| == |item| || item[|KeyOf(item)| + 1 + |ValueOf(item)|] == '='
  {
    var ps := SplitOn(item, '=');
    SplitOnJoinWith(item, '=');
    PiecesCount(item);
    assert ps[0] in ps && ps[1] in ps;
    var tail := JoinWith(ps[1..], '=');
    assert item == ps[0] + ['='] + tail;
    if |ps| == 2 {
      assert tail == ps[1];
    } else {
      assert tail == ps[1] + ['='] + JoinWith(ps[2..], '=') by {
        assert ps[1..][1..] == ps[2..];
      }
    }
    var n := |ps[0]|;
    assert item[..n] == ps[0];
    assert item[n + 1..] == tail;
  }

  // ---------------------------------------------------------------------------
  // What a whole list does
  // ---------------------------------------------------------------------------

  /** Some item of `items` has the key `key`. */
  predicate Mentions(items: seq<string>, key: string)
  {
    exists i :: 0 <= i < |items| && KeyOf(items[i]) == key
  }

  /** Parsing a concatenation parses the first part, then the second from
      where the first left off. */
  lemma {:induction false} ParseAppend(w: RawLexicalEntry, a: seq<string>, b: seq<string>)
    ensures ParseFrom(w, a + b) == match ParseFrom(w, a) case Ok(v) => ParseFrom(v, b) case Err(e) => Err(e)
    decreases a
  {
    if a == [] {
      assert a + b == b;
    } else {
      assert (a + b)[0] == a[0] && (a + b)[1..] == a[1..] + b;
      match Apply(w, a[0])
      case Ok(next) => ParseAppend(next, a[1..], b);
      case Err(_) =>
    }
  }

  /** The first bad item decides the error: a malformed item after a good
      prefix fails the whole list with that item. */
  lemma FirstMalformed(w: RawLexicalEntry, a: seq<string>, x: string, b: seq<string>)
    requires ParseFrom(w, a).Ok? && '=' !in x
    ensures ParseFrom(w, a + [x] + b) == Err(Malformed(x))
  {
    assert a + [x] + b == a + ([x] + b);
    ParseAppend(w, a, [x] + b);
    assert ([x] + b)[0] == x;
  }

  /** Likewise an item with an unknown key. */
  lemma FirstUnknown(w: RawLexicalEntry, a: seq<string>, x: string, b: seq<string>)
    requires ParseFrom(w, a).Ok? && '=' in x && KeyOf(x) !in OverrideKeys
    ensures ParseFrom(w, a + [x] + b) == Err(UnknownKey(KeyOf(x)))
  {
    assert a + [x] + b == a + ([x] + b);
    ParseAppend(w, a, [x] + b);
    assert ([x] + b)[0] == x;
  }

  /** A successful parse leaves the fields nobody can set alone, and a field
      no item mentions keeps its starting value. */
  lemma {:induction false} ParseKeeps(w: RawLexicalEntry, items: seq<string>, key: string)
    requires ParseFrom(w, items).Ok?
    ensures Fixed(w, ParseFrom(w, items).value)
    ensures !Mentions(items, key) ==> SameField(w, ParseFrom(w, items).value, key)
    decreases items
  {
    if items != [] {
      var next := Apply(w, items[0]).value;
      ParseKeeps(next, items[1..], key);
      if !Mentions(items, key) {
        assert KeyOf(items[0]) != key;
        assert !Mentions(items[1..], key) by {
          forall i | 0 <= i < |items[1..]|
            ensures KeyOf(items[1..][i]) != key
          {
            assert items[1..][i] == items[i + 1];
          }
        }
      }
    }
  }

  /** The last item with a given key decides that field: later items
      overwrite earlier ones. */
  lemma {:induction false} ParseHolds(w: RawLexicalEntry, items: seq<string>, i: nat)
    requires ParseFrom(w, items).Ok? && i < |items|
    requires forall j :: i < j < |items| ==> KeyOf(items[j]) != KeyOf(items[i])
    ensures '=' in items[i] && Holds(ParseFrom(w, items).value, KeyOf(items[i]), ValueOf(items[i]))
    decreases items
  {
    var next := Apply(w, items[0]).value;
    if i == 0 {
      var key := KeyOf(items[0]);
      assert !Mentions(items[1..], key) by {
        forall j | 0 <= j < |items[1..]|
          ensures KeyOf(items[1..][j]) != key
        {
          assert items[1..][j] == items[j + 1];
        }
      }
      ParseKeeps(next, items[1..], key);
    } else {
      assert items[1..][i - 1] == items[i];
      forall j | i - 1 < j < |items[1..]|
        ensures KeyOf(items[1..][j]) != KeyOf(items[1..][i - 1])
      {
        assert items[1..][j] == items[j + 1];
      }
      ParseHolds(next, items[1..], i - 1);
    }
  }

  /** A repeated `tag` does not accumulate: the last one is the whole list. */
  lemma LastTagWins(items: seq<string>, i: nat)
    requires ParseFrom(DefaultRaw, items).Ok? && i < |items| && KeyOf(items[i]) == "tag"
    requires forall j :: i < j < |items| ==> KeyOf(items[j]) != "tag"
    ensures '=' in items[i] && ParseFrom(DefaultRaw, items).value.tags == Some([ValueOf(items[i])])
  {
    ParseHolds(DefaultRaw, items, i);
  }

  // ---------------------------------------------------------------------------
  // The source's own example
  // ---------------------------------------------------------------------------

  lemma ItemPieces(item: string, key: string, value: string)
    requires item == key + ['='] + value && '=' !in key && '=' !in value
    ensures '=' in item && KeyOf(item) == key && ValueOf(item) == value
  {
    assert item[|key|] == '=';
    SplitOnAppend(key, '=', value);
    SplitOnFree(key, '=');
    SplitOnFree(value, '=');
  }

  /** `generate=test_gen` then `pos=noun` sets the pattern and the part of
      speech. */
  lemma OverrideExample(list: seq<string>, gen: string, pos: string)
    requires gen == "generate=test_gen" && pos == "pos=noun" && list == [gen, pos]
    ensures ParseFrom(DefaultRaw, list).Ok?
    ensures ParseFrom(DefaultRaw, list).value.generate == Some("test_gen")
    ensures ParseFrom(DefaultRaw, list).value.partOfSpeech == Some(Words.Noun)
  {
    ItemPieces(gen, "generate", "test_gen");
    ItemPieces(pos, "pos", "noun");
    var first := Apply(DefaultRaw, gen);
    assert first.Ok?;
    var second := Apply(first.value, pos);
    assert second.Ok?;
    assert ParseFrom(second.value, []) == Ok(second.value);
    assert list[1..] == [pos] && [pos][1..] == [];
    assert ParseFrom(first.value, [pos]) == Ok(second.value);
  }
}
