/** The phonetic word generator (libkirum/src/lexcreate.rs): a pattern such
    as `CVC` or `C V i C r rw` names, token by token, either a literal
    phoneme (a token holding a lower-case character) or a phoneme group (any
    other token); a word is made by replacing every group reference with one
    randomly chosen alternative of that group, recursively. */
module LexCreate {
  import opened Wrappers
  import opened Strings
  import opened Lemmas

  /** `char::is_lowercase`, on the ASCII letters. */
  predicate IsLowercase(c: char)
  {
    'a' <= c <= 'z'
  }

  /** `char::is_whitespace`: the Unicode White_Space characters. */
  predicate IsWhitespace(c: char)
  {
    ('\U{9}' <= c <= '\U{D}') || c == ' ' || c == '\U{85}' || c == '\U{A0}'
    || c == '\U{1680}' || ('\U{2000}' <= c <= '\U{200A}') || c == '\U{2028}'
    || c == '\U{2029}' || c == '\U{202F}' || c == '\U{205F}' || c == '\U{3000}'
  }

  predicate NotWhitespace(c: char)
  {
    !IsWhitespace(c)
  }

  predicate IsSpace(c: char)
  {
    c == ' '
  }

  /** One token of a pattern. */
  datatype CreateValue = Phoneme(text: string) | Reference(name: string)

  /** A pattern: the tokens in order. */
  datatype PhoneticReference = PhoneticReference(values: seq<CreateValue>)

  /** `From<char> for CreateValue`: a lower-case character is a phoneme,
      anything else names a group. */
  function FromChar(c: char): (r: CreateValue)
    ensures r.Phoneme? <==> IsLowercase(c)
    ensures r == Phoneme([c]) || r == Reference([c])
  {
    if IsLowercase(c) then Phoneme([c]) else Reference([c])
  }

  /** `s[i]` is the first lower-case character of `s`. */
  predicate FirstLowercaseAt(s: string, i: int)
  {
    0 <= i < |s| && IsLowercase(s[i]) && forall j :: 0 <= j < i ==> !IsLowercase(s[j])
  }

  /** `chars().find(char::is_lowercase)`: the first lower-case character. */
  function FindLowercase(s: string): (r: Option<char>)
    ensures r.Some? ==> exists i :: FirstLowercaseAt(s, i) && s[i] == r.value
    ensures r.None? ==> forall i :: 0 <= i < |s| ==> !IsLowercase(s[i])
  {
    if s == [] then None
    else if IsLowercase(s[0]) then Some(s[0])
    else
      var r := FindLowercase(s[1..]);
      assert r.Some? ==> exists i :: FirstLowercaseAt(s, i) && s[i] == r.value by {
        if r.Some? {
          var i :| FirstLowercaseAt(s[1..], i) && s[1..][i] == r.value;
          forall j | 0 <= j < i + 1 ensures !IsLowercase(s[j]) {
            if j > 0 { assert s[j] == s[1..][j - 1]; }
          }
          assert FirstLowercaseAt(s, i + 1);
        }
      }
      assert r.None? ==> forall i :: 0 < i < |s| ==> !IsLowercase(s[i]) by {
        if r.None? {
          forall i | 0 < i < |s| ensures !IsLowercase(s[i]) {
            assert s[i] == s[1..][i - 1];
          }
        }
      }
      r
  }

  /** `From<&str> for CreateValue`: a token holding any lower-case character
      is a phoneme, the others name a group. */
  function FromStr(s: string): (r: CreateValue)
    ensures r.Phoneme? <==> exists i :: 0 <= i < |s| && IsLowercase(s[i])
    ensures r == Phoneme(s) || r == Reference(s)
  {
    if FindLowercase(s).Some? then Phoneme(s) else Reference(s)
  }

  /** `str::split_whitespace`, with `cur` the token read so far: the maximal
      runs of non-whitespace characters. */
  function TokensFrom(s: string, cur: string): seq<string>
  {
    if s == [] then (if cur == [] then [] else [cur])
    else if IsWhitespace(s[0]) then (if cur == [] then [] else [cur]) + TokensFrom(s[1..], [])
    else TokensFrom(s[1..], cur + [s[0]])
  }

  function SplitWhitespace(s: string): seq<string>
  {
    TokensFrom(s, [])
  }

  predicate Token(t: string)
  {
    t != [] && forall i :: 0 <= i < |t| ==> !IsWhitespace(t[i])
  }

  /** Every token is non-empty and free of whitespace, and together the
      tokens hold exactly the non-whitespace characters, in order. */
  lemma {:induction false} TokensFromSpec(s: string, cur: string)
    requires forall i :: 0 <= i < |cur| ==> !IsWhitespace(cur[i])
    ensures forall t :: t in TokensFrom(s, cur) ==> Token(t)
    ensures Join(TokensFrom(s, cur)) == cur + Filter(s, NotWhitespace)
  {
    if s == [] {
      assert Join([cur]) == Join([]) + cur;
    } else {
      var rest := s[1..];
      assert s == [s[0]] + rest;
      FilterAppend([s[0]], rest, NotWhitespace);
      assert Filter([s[0]], NotWhitespace) == Filter([], NotWhitespace) + (if NotWhitespace(s[0]) then [s[0]] else []);
      if IsWhitespace(s[0]) {
        TokensFromSpec(rest, []);
        var first: seq<string> := if cur == [] then [] else [cur];
        JoinAppend(first, TokensFrom(rest, []));
        assert Join(first) == cur by {
          if cur != [] { assert Join([cur]) == Join([]) + cur; }
        }
      } else {
        TokensFromSpec(rest, cur + [s[0]]);
      }
    }
  }

  lemma SplitWhitespaceSpec(s: string)
    ensures forall t :: t in SplitWhitespace(s) ==> Token(t)
    ensures Join(SplitWhitespace(s)) == Filter(s, NotWhitespace)
  {
    TokensFromSpec(s, []);
  }

  lemma TokensStep(c: char, s: string, cur: string)
    ensures TokensFrom([c] + s, cur)
         == if IsWhitespace(c) then (if cur == [] then [] else [cur]) + TokensFrom(s, []) else TokensFrom(s, cur + [c])
  {
    assert ([c] + s)[1..] == s;
  }

  lemma {:induction false} TokensAt(x: string, y: string, cur: string)
    ensures TokensFrom(x + [' '] + y, cur) == TokensFrom(x, cur) + TokensFrom(y, [])
  {
    if x == [] {
      TokensStep(' ', y, cur);
    } else {
      assert x + [' '] + y == [x[0]] + (x[1..] + [' '] + y);
      TokensStep(x[0], x[1..] + [' '] + y, cur);
      assert x == [x[0]] + x[1..];
      TokensStep(x[0], x[1..], cur);
      if IsWhitespace(x[0]) {
        TokensAt(x[1..], y, []);
      } else {
        TokensAt(x[1..], y, cur + [x[0]]);
      }
    }
  }

  lemma {:induction false} OneToken(t: string, cur: string)
    requires forall i :: 0 <= i < |t| ==> !IsWhitespace(t[i])
    ensures TokensFrom(t, cur) == if cur + t == [] then [] else [cur + t]
  {
    if t != [] {
      assert t == [t[0]] + t[1..];
      TokensStep(t[0], t[1..], cur);
      OneToken(t[1..], cur + [t[0]]);
      assert cur + [t[0]] + t[1..] == cur + t;
    } else {
      assert cur + t == cur;
    }
  }

  lemma SingleToken(t: string)
    requires Token(t)
    ensures TokensFrom(t, []) == [t]
  {
    OneToken(t, []);
    assert [] + t == t;
  }

  /** Whitespace-free tokens written out with one space between neighbours
      split back into the same tokens. */
  lemma {:induction false} SplitJoined(ts: seq<string>)
    requires forall i :: 0 <= i < |ts| ==> Token(ts[i])
    ensures SplitWhitespace(JoinWith(ts, ' ')) == ts
  {
    if |ts| == 1 {
      SingleToken(ts[0]);
    } else if |ts| > 1 {
      SplitJoined(ts[1..]);
      SingleToken(ts[0]);
      TokensAt(ts[0], JoinWith(ts[1..], ' '), []);
      assert ts == [ts[0]] + ts[1..];
    }
  }

  function MapFromStr(ts: seq<string>): (r: seq<CreateValue>)
    ensures |r| == |ts| && forall i :: 0 <= i < |ts| ==> r[i] == FromStr(ts[i])
  {
    seq(|ts|, i requires 0 <= i < |ts| => FromStr(ts[i]))
  }

  function MapFromChar(s: string): (r: seq<CreateValue>)
    ensures |r| == |s| && forall i :: 0 <= i < |s| ==> r[i] == FromChar(s[i])
  {
    seq(|s|, i requires 0 <= i < |s| => FromChar(s[i]))
  }

  /** `From<&str> for PhoneticReference` as written: more than one space
      means whitespace-separated tokens, otherwise one token per character. */
  function Parse(value: string): PhoneticReference
  {
    if CountIf(value, IsSpace) > 1 then PhoneticReference(MapFromStr(SplitWhitespace(value)))
    else PhoneticReference(MapFromChar(value))
  }

  /** `From<&str> for PhoneticReference`, building the token list in a loop. */
  method ParsePattern(value: string) returns (r: PhoneticReference)
    ensures r == Parse(value)
  {
    var spaces := 0;
    for i := 0 to |value|
      invariant spaces == CountIf(value[..i], IsSpace)
    {
      assert value[..i + 1] == value[..i] + [value[i]];
      spaces := spaces + if value[i] == ' ' then 1 else 0;
    }
    assert value[..|value|] == value;
    var phonVec: seq<CreateValue> := [];
    if spaces > 1 {
      var tokens := SplitWhitespace(value);
      for i := 0 to |tokens|
        invariant phonVec == MapFromStr(tokens[..i])
      {
        phonVec := phonVec + [FromStr(tokens[i])];
      }
      assert tokens[..|tokens|] == tokens;
    } else {
      for i := 0 to |value|
        invariant phonVec == MapFromChar(value[..i])
      {
        phonVec := phonVec + [FromChar(value[i])];
      }
    }
    r := PhoneticReference(phonVec);
  }

  /** A pattern with several spaces has one token per whitespace-separated
      run, the runs together holding every other character in order. */
  lemma ParseTokens(value: string)
    requires CountIf(value, IsSpace) > 1
    ensures var vs := Parse(value).values;
      && (forall i :: 0 <= i < |vs| ==> (vs[i].Phoneme? <==> FindLowercase(SplitWhitespace(value)[i]).Some?))
      && |vs| == |SplitWhitespace(value)|
      && (forall i :: 0 <= i < |vs| ==> Token(SplitWhitespace(value)[i]))
      && Join(SplitWhitespace(value)) == Filter(value, NotWhitespace)
  {
    SplitWhitespaceSpec(value);
    var ts := SplitWhitespace(value);
    assert forall i :: 0 <= i < |ts| ==> ts[i] in ts;
  }

  /** The payload of a token: the phoneme text or the group name. */
  function Payload(v: CreateValue): string
  {
    match v
    case Phoneme(text) => text
    case Reference(name) => name
  }

  /** `From<&str> for PhoneticReference` with the evidently intended test
      for the spaced form: any space at all. */
  function ParseIntended(value: string): PhoneticReference
  {
    if CountIf(value, IsSpace) > 0 then PhoneticReference(MapFromStr(SplitWhitespace(value)))
    else PhoneticReference(MapFromChar(value))
  }

  /** No token of the intended parse holds a space. */
  lemma ParseIntendedNoSpace(value: string)
    ensures forall k :: 0 <= k < |ParseIntended(value).values| ==> ' ' !in Payload(ParseIntended(value).values[k])
  {
    var vs := ParseIntended(value).values;
    if CountIf(value, IsSpace) > 0 {
      SplitWhitespaceSpec(value);
      var ts := SplitWhitespace(value);
      forall k | 0 <= k < |vs| ensures ' ' !in Payload(vs[k]) {
        assert ts[k] in ts;
        assert Payload(vs[k]) == ts[k];
      }
    } else {
      FilterKeeps(value, IsSpace);
      forall k | 0 <= k < |vs| ensures ' ' !in Payload(vs[k]) {
        assert value[k] in value;
        assert Payload(vs[k]) == [value[k]];
      }
    }
  }

  /** The two parses differ only on patterns with exactly one space. */
  lemma ParseIntendedAgrees(value: string)
    requires CountIf(value, IsSpace) != 1
    ensures ParseIntended(value) == Parse(value)
  {
  }

  /** The random source: draw number `k` is `draws(k)`, and `next` counts the
      draws made so far. */
  class Rng {
    const draws: nat -> nat
    var next: nat

    constructor (draws: nat -> nat)
      ensures this.draws == draws && next == 0
    {
      this.draws := draws;
      next := 0;
    }

    /** `SliceRandom::choose`: nothing from an empty list, otherwise the
        element the next draw selects. */
    method Choose(list: seq<PhoneticReference>) returns (r: Option<PhoneticReference>)
      modifies this
      ensures r == Chosen(list, draws, old(next))
      ensures next == if list == [] then old(next) else old(next) + 1
    {
      if list == [] {
        r := None;
      } else {
        r := Some(list[draws(next) % |list|]);
        next := next + 1;
      }
    }
  }

  /** The element `choose` returns when the draws are `draws` and `next`
      of them have been used. */
  function Chosen(list: seq<PhoneticReference>, draws: nat -> nat, next: nat): (r: Option<PhoneticReference>)
    ensures r.None? <==> list == []
    ensures r.Some? ==> r.value in list
  {
    if list == [] then None else Some(list[draws(next) % |list|])
  }

  /** The outcome of an expansion and the number of draws used by then. */
  datatype Expansion = Expansion(word: Option<Lemma>, next: nat)

  /** A lemma that holds letters whenever its value is non-empty. */
  predicate Clean(l: Lemma)
  {
    l.value != [] ==> l.Parts() != []
  }

  predicate PhonemesLetters(values: seq<CreateValue>)
  {
    forall i :: 0 <= i < |values| && values[i].Phoneme? ==> IsLetter(values[i].text)
  }

  /** The phoneme groups and the word patterns of each lexis type. */
  datatype LexPhonology = LexPhonology(groups: map<string, seq<PhoneticReference>>,
                                       lexisTypes: map<string, seq<PhoneticReference>>)
  {
    /** The group `name` is missing or has no alternatives. */
    predicate Unresolvable(name: string)
    {
      name !in groups || groups[name] == []
    }

    /** Every phoneme of every group alternative and of every word pattern
        is a letter. */
    predicate WellFormed()
    {
      && (forall k, j :: k in groups && 0 <= j < |groups[k]| ==> PhonemesLetters(groups[k][j].values))
      && (forall k, j :: k in lexisTypes && 0 <= j < |lexisTypes[k]| ==> PhonemesLetters(lexisTypes[k][j].values))
    }

    /** `create_word`: one pattern of the lexis type, resolved. */
    function WordFor(lexisType: string, draws: nat -> nat, next: nat, fuel: nat): (r: Expansion)
      ensures lexisType !in lexisTypes || lexisTypes[lexisType] == [] ==> r == Expansion(None, next)
      ensures r.word.Some? ==> !r.word.value.IsEmpty()
    {
      if lexisType in lexisTypes && Chosen(lexisTypes[lexisType], draws, next).Some? then
        Expand(Chosen(lexisTypes[lexisType], draws, next).value, draws, next + 1, fuel)
      else Expansion(None, next)
    }

    /** `resolve_phonetic_reference`: the tokens pushed in order onto an
        empty lemma; nothing if a reference fails or the result is empty. */
    function Expand(pref: PhoneticReference, draws: nat -> nat, next: nat, fuel: nat): (r: Expansion)
      decreases fuel, 2
      ensures r.word.Some? ==> !r.word.value.IsEmpty()
    {
      var e := ExpandValues(pref.values, Lemma([]), draws, next, fuel);
      if e.word.Some? && e.word.value.IsEmpty() then Expansion(None, e.next) else e
    }

    /** The loop of `resolve_phonetic_reference` from accumulator `acc` on. */
    function ExpandValues(values: seq<CreateValue>, acc: Lemma, draws: nat -> nat, next: nat, fuel: nat): Expansion
      decreases fuel, 1, |values|
    {
      if values == [] then Expansion(Some(acc), next)
      else
        match values[0]
        case Phoneme(p) => ExpandValues(values[1..], acc.PushChar(p), draws, next, fuel)
        case Reference(name) =>
          var found := ExpandGroup(name, draws, next, fuel);
          if found.word.None? then Expansion(None, found.next)
          else ExpandValues(values[1..], acc.Push(found.word.value), draws, found.next, fuel)
    }

    /** `random_phoneme`: one alternative of the group, resolved; `fuel`
        bounds the depth of nested groups. */
    function ExpandGroup(key: string, draws: nat -> nat, next: nat, fuel: nat): (r: Expansion)
      decreases fuel, 0
      ensures Unresolvable(key) ==> r == Expansion(None, next)
      ensures r.word.Some? ==> !r.word.value.IsEmpty()
    {
      if key in groups && Chosen(groups[key], draws, next).Some? then
        if fuel == 0 then Expansion(None, next + 1)
        else Expand(Chosen(groups[key], draws, next).value, draws, next + 1, fuel - 1)
      else Expansion(None, next)
    }

    /** `create_word`, drawing from `rng`. */
    method CreateWord(lexisType: string, rng: Rng, fuel: nat) returns (r: Option<Lemma>)
      modifies rng
      ensures Expansion(r, rng.next) == WordFor(lexisType, rng.draws, old(rng.next), fuel)
    {
      if lexisType in lexisTypes {
        var selected := rng.Choose(lexisTypes[lexisType]);
        if selected.Some? {
          r := ResolvePhoneticReference(selected.value, rng, fuel);
          return;
        }
      }
      r := None;
    }

    /** `resolve_phonetic_reference`: phonemes pushed as letters, references
        expanded and pushed, into one accumulator. */
    method ResolvePhoneticReference(pref: PhoneticReference, rng: Rng, fuel: nat) returns (r: Option<Lemma>)
      modifies rng
      decreases fuel, 2
      ensures Expansion(r, rng.next) == Expand(pref, rng.draws, old(rng.next), fuel)
    {
      var values := pref.values;
      var acc := Lemma([]);
      for i := 0 to |values|
        invariant ExpandValues(values[i..], acc, rng.draws, rng.next, fuel)
               == ExpandValues(values, Lemma([]), rng.draws, old(rng.next), fuel)
      {
        assert values[i..][1..] == values[i + 1..];
        match values[i]
        case Phoneme(p) =>
          acc := acc.PushChar(p);
        case Reference(name) =>
          var found := RandomPhoneme(name, rng, fuel);
          if found.None? {
            return None;
          }
          acc := acc.Push(found.value);
      }
      assert values[|values|..] == [];
      if acc.IsEmpty() {
        r := None;
      } else {
        r := Some(acc);
      }
    }

    /** `random_phoneme`, drawing from `rng`. */
    method RandomPhoneme(key: string, rng: Rng, fuel: nat) returns (r: Option<Lemma>)
      modifies rng
      decreases fuel, 0
      ensures Expansion(r, rng.next) == ExpandGroup(key, rng.draws, old(rng.next), fuel)
    {
      if key in groups {
        var picked := rng.Choose(groups[key]);
        if picked.Some? {
          if fuel == 0 {
            return None;
          }
          r := ResolvePhoneticReference(picked.value, rng, fuel - 1);
          return;
        }
      }
      r := None;
    }
  }

  lemma EmptyParts()
    ensures Lemma([]).Parts() == []
  {
    assert SplitOn([], WORD_SEP) == [[]];
  }

  lemma LetterParts(p: string)
    requires IsLetter(p)
    ensures Lemma(p).Parts() == [p]
  {
    SplitOnFree(p, WORD_SEP);
    assert Filter([p], NonEmpty) == Filter([], NonEmpty) + [p];
  }

  /** Pushing a letter appends exactly that letter, also onto an empty lemma. */
  lemma PushCharLetter(acc: Lemma, p: string)
    requires IsLetter(p)
    ensures acc.PushChar(p).Parts() == acc.Parts() + [p]
  {
    if acc.IsEmpty() {
      EmptyParts();
      LetterParts(p);
      assert acc.PushChar(p) == Lemma(p);
    }
  }

  /** A reference that reaches a missing or empty group makes the whole
      resolution fail, whatever comes before it. */
  lemma {:induction false} ExpandValuesUnresolvable(ph: LexPhonology, values: seq<CreateValue>, acc: Lemma,
                                                     draws: nat -> nat, next: nat, fuel: nat, i: nat)
    requires i < |values| && values[i].Reference? && ph.Unresolvable(values[i].name)
    ensures ph.ExpandValues(values, acc, draws, next, fuel).word.None?
  {
    if i > 0 {
      match values[0]
      case Phoneme(p) =>
        ExpandValuesUnresolvable(ph, values[1..], acc.PushChar(p), draws, next, fuel, i - 1);
      case Reference(name) =>
        var found := ph.ExpandGroup(name, draws, next, fuel);
        if found.word.Some? {
          ExpandValuesUnresolvable(ph, values[1..], acc.Push(found.word.value), draws, found.next, fuel, i - 1);
        }
    }
  }

  lemma ExpandUnresolvable(ph: LexPhonology, pref: PhoneticReference, draws: nat -> nat, next: nat, fuel: nat)
    requires exists i :: 0 <= i < |pref.values| && pref.values[i].Reference? && ph.Unresolvable(pref.values[i].name)
    ensures ph.Expand(pref, draws, next, fuel).word.None?
  {
    var i :| 0 <= i < |pref.values| && pref.values[i].Reference? && ph.Unresolvable(pref.values[i].name);
    ExpandValuesUnresolvable(ph, pref.values, Lemma([]), draws, next, fuel, i);
  }

  /** `parts` is a word the tokens `values` can produce: each phoneme stands
      for itself, each reference for a word of one alternative of its group,
      nested at most `fuel` groups deep. */
  ghost predicate Derives(ph: LexPhonology, values: seq<CreateValue>, parts: seq<string>, fuel: nat)
    decreases fuel, 1, |values|, 1
  {
    if values == [] then parts == []
    else
      match values[0]
      case Phoneme(p) => parts != [] && parts[0] == p && Derives(ph, values[1..], parts[1..], fuel)
      case Reference(name) => exists k :: 0 <= k <= |parts| && SplitDerives(ph, name, values[1..], parts, k, fuel)
  }

  ghost predicate SplitDerives(ph: LexPhonology, name: string, rest: seq<CreateValue>, parts: seq<string>, k: nat, fuel: nat)
    requires k <= |parts|
    decreases fuel, 1, |rest| + 1, 0
  {
    DerivesGroup(ph, name, parts[..k], fuel) && Derives(ph, rest, parts[k..], fuel)
  }

  /** `parts` is a word some alternative of group `name` can produce. */
  ghost predicate DerivesGroup(ph: LexPhonology, name: string, parts: seq<string>, fuel: nat)
    decreases fuel, 0
  {
    fuel > 0 && name in ph.groups
    && exists j :: 0 <= j < |ph.groups[name]| && Derives(ph, ph.groups[name][j].values, parts, fuel - 1)
  }

  /** Resolution extends the accumulator by a word the remaining tokens
      derive. */
  lemma {:induction false} ExpandValuesSound(ph: LexPhonology, values: seq<CreateValue>, acc: Lemma,
                                              draws: nat -> nat, next: nat, fuel: nat)
    requires ph.WellFormed() && PhonemesLetters(values) && Clean(acc)
    decreases fuel, 1, |values|
    ensures var r := ph.ExpandValues(values, acc, draws, next, fuel);
      r.word.Some? ==>
        && Clean(r.word.value)
        && |acc.Parts()| <= |r.word.value.Parts()|
        && r.word.value.Parts()[..|acc.Parts()|] == acc.Parts()
        && Derives(ph, values, r.word.value.Parts()[|acc.Parts()|..], fuel)
  {
    var r := ph.ExpandValues(values, acc, draws, next, fuel);
    var n := |acc.Parts()|;
    if values != [] && r.word.Some? {
      var ps := r.word.value.Parts();
      LettersTail(values);
      match values[0]
      case Phoneme(p) =>
        var acc2 := acc.PushChar(p);
        assert r == ph.ExpandValues(values[1..], acc2, draws, next, fuel);
        PushCharLetter(acc, p);
        ExpandValuesSound(ph, values[1..], acc2, draws, next, fuel);
        PhonemeStep(ph, values, acc.Parts(), acc2.Parts(), ps, fuel);
      case Reference(name) =>
        var found := ph.ExpandGroup(name, draws, next, fuel);
        var w := found.word.value;
        var acc2 := acc.Push(w);
        assert r == ph.ExpandValues(values[1..], acc2, draws, found.next, fuel);
        ExpandGroupSound(ph, name, draws, next, fuel);
        assert Clean(acc2);
        ExpandValuesSound(ph, values[1..], acc2, draws, found.next, fuel);
        ReferenceStep(ph, values, acc.Parts(), w.Parts(), acc2.Parts(), ps, fuel);
    }
  }

  lemma PhonemeStep(ph: LexPhonology, values: seq<CreateValue>, accParts: seq<string>, acc2Parts: seq<string>,
                    ps: seq<string>, fuel: nat)
    requires values != [] && values[0].Phoneme? && acc2Parts == accParts + [values[0].text]
    requires |acc2Parts| <= |ps| && ps[..|acc2Parts|] == acc2Parts && Derives(ph, values[1..], ps[|acc2Parts|..], fuel)
    ensures |accParts| <= |ps| && ps[..|accParts|] == accParts && Derives(ph, values, ps[|accParts|..], fuel)
  {
    SnocSlices(ps, accParts, values[0].text);
    DerivesPhoneme(ph, values, ps[|accParts|..], fuel);
  }

  lemma ReferenceStep(ph: LexPhonology, values: seq<CreateValue>, accParts: seq<string>, wp: seq<string>,
                      acc2Parts: seq<string>, ps: seq<string>, fuel: nat)
    requires values != [] && values[0].Reference? && acc2Parts == accParts + wp
    requires DerivesGroup(ph, values[0].name, wp, fuel)
    requires |acc2Parts| <= |ps| && ps[..|acc2Parts|] == acc2Parts && Derives(ph, values[1..], ps[|acc2Parts|..], fuel)
    ensures |accParts| <= |ps| && ps[..|accParts|] == accParts && Derives(ph, values, ps[|accParts|..], fuel)
  {
    AppendSlices(ps, accParts, wp);
    DerivesReference(ph, values, ps[|accParts|..], |wp|, fuel);
  }

  lemma DerivesPhoneme(ph: LexPhonology, values: seq<CreateValue>, parts: seq<string>, fuel: nat)
    requires values != [] && values[0].Phoneme? && parts != [] && parts[0] == values[0].text
    requires Derives(ph, values[1..], parts[1..], fuel)
    ensures Derives(ph, values, parts, fuel)
  {
  }

  lemma DerivesReference(ph: LexPhonology, values: seq<CreateValue>, parts: seq<string>, k: nat, fuel: nat)
    requires values != [] && values[0].Reference? && k <= |parts|
    requires DerivesGroup(ph, values[0].name, parts[..k], fuel) && Derives(ph, values[1..], parts[k..], fuel)
    ensures Derives(ph, values, parts, fuel)
  {
    assert SplitDerives(ph, values[0].name, values[1..], parts, k, fuel);
  }

  lemma LettersTail(values: seq<CreateValue>)
    requires values != [] && PhonemesLetters(values)
    ensures PhonemesLetters(values[1..])
    ensures values[0].Phoneme? ==> IsLetter(values[0].text)
  {
    forall i | 0 <= i < |values[1..]| && values[1..][i].Phoneme?
      ensures IsLetter(values[1..][i].text)
    {
      assert values[1..][i] == values[i + 1];
    }
  }

  lemma SnocSlices(ps: seq<string>, a: seq<string>, p: string)
    requires |a| + 1 <= |ps| && ps[..|a| + 1] == a + [p]
    ensures ps[..|a|] == a && ps[|a|..] != [] && ps[|a|..][0] == p && ps[|a|..][1..] == ps[|a| + 1..]
  {
    assert ps[..|a|] == ps[..|a| + 1][..|a|];
  }

  lemma AppendSlices(ps: seq<string>, a: seq<string>, b: seq<string>)
    requires |a| + |b| <= |ps| && ps[..|a| + |b|] == a + b
    ensures ps[..|a|] == a && ps[|a|..][..|b|] == b && ps[|a|..][|b|..] == ps[|a| + |b|..]
  {
    assert ps[..|a|] == ps[..|a| + |b|][..|a|];
    assert ps[|a|..][..|b|] == ps[..|a| + |b|][|a|..];
  }

  /** A word drawn from a group is non-empty and derives from one of its
      alternatives. */
  lemma {:induction false} ExpandGroupSound(ph: LexPhonology, key: string, draws: nat -> nat, next: nat, fuel: nat)
    requires ph.WellFormed()
    decreases fuel, 0
    ensures var r := ph.ExpandGroup(key, draws, next, fuel);
      r.word.Some? ==> r.word.value.Parts() != [] && DerivesGroup(ph, key, r.word.value.Parts(), fuel)
  {
    if key in ph.groups && Chosen(ph.groups[key], draws, next).Some? && fuel > 0 {
      var picked := Chosen(ph.groups[key], draws, next).value;
      var j :| 0 <= j < |ph.groups[key]| && ph.groups[key][j] == picked;
      ExpandSound(ph, picked, draws, next + 1, fuel - 1);
    }
  }

  /** `resolve_phonetic_reference` yields a non-empty word the pattern
      derives, whatever the draws. */
  lemma {:induction false} ExpandSound(ph: LexPhonology, pref: PhoneticReference, draws: nat -> nat, next: nat, fuel: nat)
    requires ph.WellFormed() && PhonemesLetters(pref.values)
    decreases fuel, 2
    ensures var r := ph.Expand(pref, draws, next, fuel);
      r.word.Some? ==> r.word.value.Parts() != [] && Derives(ph, pref.values, r.word.value.Parts(), fuel)
  {
    EmptyParts();
    ExpandValuesSound(ph, pref.values, Lemma([]), draws, next, fuel);
    var e := ph.ExpandValues(pref.values, Lemma([]), draws, next, fuel);
    if e.word.Some? {
      assert e.word.value.Parts()[0..] == e.word.value.Parts();
    }
  }

  /** `create_word` yields a word with at least one letter that one pattern
      of the lexis type derives. */
  lemma WordForSound(ph: LexPhonology, lexisType: string, draws: nat -> nat, next: nat, fuel: nat)
    requires ph.WellFormed()
    ensures var r := ph.WordFor(lexisType, draws, next, fuel);
      r.word.Some? ==>
        && r.word.value.Len() > 0
        && lexisType in ph.lexisTypes
        && exists j :: 0 <= j < |ph.lexisTypes[lexisType]| && Derives(ph, ph.lexisTypes[lexisType][j].values, r.word.value.Parts(), fuel)
  {
    if lexisType in ph.lexisTypes && Chosen(ph.lexisTypes[lexisType], draws, next).Some? {
      var picked := Chosen(ph.lexisTypes[lexisType], draws, next).value;
      var j :| 0 <= j < |ph.lexisTypes[lexisType]| && ph.lexisTypes[lexisType][j] == picked;
      ExpandSound(ph, picked, draws, next + 1, fuel);
    }
  }

  /** Every reference in `values` names a group whose alternatives are all
      non-empty and grounded themselves, at most `fuel` groups deep. */
  predicate Grounded(ph: LexPhonology, values: seq<CreateValue>, fuel: nat)
    decreases fuel, 1
  {
    forall i :: 0 <= i < |values| && values[i].Reference? ==> GroundedGroup(ph, values[i].name, fuel)
  }

  predicate GroundedGroup(ph: LexPhonology, name: string, fuel: nat)
    decreases fuel, 0
  {
    fuel > 0 && name in ph.groups && ph.groups[name] != []
    && forall j :: 0 <= j < |ph.groups[name]| ==>
         ph.groups[name][j].values != [] && Grounded(ph, ph.groups[name][j].values, fuel - 1)
  }

  lemma GroundedTail(ph: LexPhonology, values: seq<CreateValue>, fuel: nat)
    requires values != [] && Grounded(ph, values, fuel)
    ensures Grounded(ph, values[1..], fuel)
    ensures values[0].Reference? ==> GroundedGroup(ph, values[0].name, fuel)
  {
    forall i | 0 <= i < |values[1..]| && values[1..][i].Reference?
      ensures GroundedGroup(ph, values[1..][i].name, fuel)
    {
      assert values[1..][i] == values[i + 1];
    }
  }

  /** Over grounded tokens resolution never fails, and every token adds at
      least one letter. */
  lemma {:induction false} ExpandValuesTotal(ph: LexPhonology, values: seq<CreateValue>, acc: Lemma,
                                              draws: nat -> nat, next: nat, fuel: nat)
    requires ph.WellFormed() && PhonemesLetters(values) && Grounded(ph, values, fuel)
    decreases fuel, 1, |values|
    ensures var r := ph.ExpandValues(values, acc, draws, next, fuel);
      r.word.Some? && |r.word.value.Parts()| >= |acc.Parts()| + |values|
  {
    if values != [] {
      var r := ph.ExpandValues(values, acc, draws, next, fuel);
      LettersTail(values);
      GroundedTail(ph, values, fuel);
      match values[0]
      case Phoneme(p) =>
        var acc2 := acc.PushChar(p);
        assert r == ph.ExpandValues(values[1..], acc2, draws, next, fuel);
        PushCharLetter(acc, p);
        ExpandValuesTotal(ph, values[1..], acc2, draws, next, fuel);
      case Reference(name) =>
        ExpandGroupTotal(ph, name, draws, next, fuel);
        var found := ph.ExpandGroup(name, draws, next, fuel);
        var acc2 := acc.Push(found.word.value);
        assert r == ph.ExpandValues(values[1..], acc2, draws, found.next, fuel);
        ExpandValuesTotal(ph, values[1..], acc2, draws, found.next, fuel);
    }
  }

  lemma {:induction false} ExpandGroupTotal(ph: LexPhonology, key: string, draws: nat -> nat, next: nat, fuel: nat)
    requires ph.WellFormed() && GroundedGroup(ph, key, fuel)
    decreases fuel, 0
    ensures var r := ph.ExpandGroup(key, draws, next, fuel);
      r.word.Some? && r.word.value.Parts() != []
  {
    var picked := Chosen(ph.groups[key], draws, next).value;
    var j :| 0 <= j < |ph.groups[key]| && ph.groups[key][j] == picked;
    ExpandTotal(ph, picked, draws, next + 1, fuel - 1);
  }

  /** A non-empty grounded pattern always resolves, to at least one letter
      per token. */
  lemma {:induction false} ExpandTotal(ph: LexPhonology, pref: PhoneticReference, draws: nat -> nat, next: nat, fuel: nat)
    requires ph.WellFormed() && PhonemesLetters(pref.values) && pref.values != [] && Grounded(ph, pref.values, fuel)
    decreases fuel, 2
    ensures var r := ph.Expand(pref, draws, next, fuel);
      r.word.Some? && |r.word.value.Parts()| >= |pref.values|
  {
    EmptyParts();
    ExpandValuesTotal(ph, pref.values, Lemma([]), draws, next, fuel);
  }

  /** `create_word` succeeds, with at least one letter, for a lexis type
      whose patterns are all non-empty and grounded. */
  lemma WordForTotal(ph: LexPhonology, lexisType: string, draws: nat -> nat, next: nat, fuel: nat)
    requires ph.WellFormed() && lexisType in ph.lexisTypes && ph.lexisTypes[lexisType] != []
    requires forall j :: 0 <= j < |ph.lexisTypes[lexisType]| ==>
               ph.lexisTypes[lexisType][j].values != [] && Grounded(ph, ph.lexisTypes[lexisType][j].values, fuel)
    ensures var r := ph.WordFor(lexisType, draws, next, fuel);
      r.word.Some? && r.word.value.Len() > 0
  {
    var picked := Chosen(ph.lexisTypes[lexisType], draws, next).value;
    var j :| 0 <= j < |ph.lexisTypes[lexisType]| && ph.lexisTypes[lexisType][j] == picked;
    ExpandTotal(ph, picked, draws, next + 1, fuel);
  }
}

module LexCreateExamples {
  import opened Wrappers
  import opened Strings
  import opened LexCreate

  lemma NoSpaces(v: string)
    requires forall i :: 0 <= i < |v| ==> v[i] != ' '
    ensures CountIf(v, IsSpace) == 0
  {
    FilterMember(v, IsSpace);
    if Filter(v, IsSpace) != [] {
      assert Filter(v, IsSpace)[0] in Filter(v, IsSpace);
    }
  }

  lemma TwoSpaces(v: string, i: nat, j: nat)
    requires i < j < |v| && v[i] == ' ' && v[j] == ' '
    ensures CountIf(v, IsSpace) > 1
  {
    assert v == v[..j] + v[j..];
    FilterAppend(v[..j], v[j..], IsSpace);
    FilterKeeps(v[..j], IsSpace);
    FilterKeeps(v[j..], IsSpace);
    assert v[..j][i] == ' ' && v[..j][i] in v[..j];
    assert v[j..][0] == ' ' && v[j..][0] in v[j..];
    assert ' ' in Filter(v[..j], IsSpace) && ' ' in Filter(v[j..], IsSpace);
  }

  lemma ParseLetters(v: string)
    requires v == "CCrC"
    ensures Parse(v).values == [Reference("C"), Reference("C"), Phoneme("r"), Reference("C")]
  {
    NoSpaces(v);
  }

  lemma ParseRepeated(v: string)
    requires v == "CCCC"
    ensures Parse(v).values == [Reference("C"), Reference("C"), Reference("C"), Reference("C")]
  {
    NoSpaces(v);
  }

  lemma OneSpace(v: string)
    requires v == "C V"
    ensures CountIf(v, IsSpace) == 1
  {
    var a := v[..1];
    var b := v[..2];
    assert a == ['C'] && b == ['C', ' '] && b[..1] == a && a[..0] == [];
    assert Filter(a, IsSpace) == [];
    assert Filter(b, IsSpace) == [' '];
  }

  /** With exactly one space the pattern is read character by character, so
      the space itself becomes a reference to a group named " ". */
  lemma OneSpaceAsWritten(v: string)
    requires v == "C V"
    ensures Parse(v).values == [Reference("C"), Reference(" "), Reference("V")]
    ensures ParseIntended(v).values == [Reference("C"), Reference("V")]
  {
    OneSpace(v);
    var ts := ["C", "V"];
    assert v == JoinWith(ts, ' ');
    assert Token("C") && Token("V");
    SplitJoined(ts);
  }

  lemma SpacedTokens(v: string)
    requires v == "C V i C r rw"
    ensures SplitWhitespace(v) == ["C", "V", "i", "C", "r", "rw"]
  {
    var ts := ["C", "V", "i", "C", "r", "rw"];
    assert v == JoinWith(ts, ' ');
    assert forall i :: 0 <= i < |ts| ==> Token(ts[i]) by {
      assert Token("C") && Token("V") && Token("i") && Token("r") && Token("rw");
    }
    SplitJoined(ts);
  }

  lemma ParseSpaced(v: string)
    requires v == "C V i C r rw"
    ensures Parse(v).values == [Reference("C"), Reference("V"), Phoneme("i"), Reference("C"), Phoneme("r"), Phoneme("rw")]
  {
    TwoSpaces(v, 1, 3);
    SpacedTokens(v);
    assert FromStr("rw") == Phoneme("rw") by { assert FindLowercase("rw") == Some('r'); }
  }

  /** The phonology of the source's generator test: consonants, vowels and
      two-letter syllables, and words of one or two syllables. */
  function BasicPhonology(): LexPhonology
  {
    LexPhonology(
      map["C" := [PhoneticReference([Phoneme("t")]), PhoneticReference([Phoneme("r")])],
          "V" := [PhoneticReference([Phoneme("u")]), PhoneticReference([Phoneme("i")])],
          "S" := [PhoneticReference([Reference("C"), Reference("V")]),
                  PhoneticReference([Reference("V"), Reference("C")])]],
      map["words" := [PhoneticReference([Reference("S")]),
                      PhoneticReference([Reference("S"), Reference("S")])]])
  }

  lemma BasicWellFormed(ph: LexPhonology)
    requires ph == BasicPhonology()
    ensures ph.WellFormed()
  {
    forall k, j | k in ph.groups && 0 <= j < |ph.groups[k]|
      ensures PhonemesLetters(ph.groups[k][j].values)
    {
      assert k == "C" || k == "V" || k == "S";
    }
    forall k, j | k in ph.lexisTypes && 0 <= j < |ph.lexisTypes[k]|
      ensures PhonemesLetters(ph.lexisTypes[k][j].values)
    {
      assert k == "words";
    }
  }

  lemma BasicLetters(ph: LexPhonology)
    requires ph == BasicPhonology()
    ensures GroundedGroup(ph, "C", 1) && GroundedGroup(ph, "V", 1)
  {
  }

  lemma BasicGrounded(ph: LexPhonology)
    requires ph == BasicPhonology()
    ensures GroundedGroup(ph, "S", 2)
  {
    BasicLetters(ph);
  }

  /** Whatever the draws, a "words" word is made and has letters. */
  lemma BasicGen(ph: LexPhonology, draws: nat -> nat)
    requires ph == BasicPhonology()
    ensures var r := ph.WordFor("words", draws, 0, 2);
      r.word.Some? && r.word.value.Len() > 0
  {
    BasicWellFormed(ph);
    BasicGrounded(ph);
    WordForTotal(ph, "words", draws, 0, 2);
  }
}
