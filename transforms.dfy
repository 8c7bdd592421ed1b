/** The transforms of libkirum/src/transforms.rs: edit functions applied to
    the word of a `Lexis`, in order, when the transform's match condition
    holds.  The Rust functions take `&mut Lexis`; here they take the lexis
    and return its new value. */
module Transforms {
  import opened Wrappers
  import opened Strings
  import opened Letters
  import opened Lemmas
  import opened Lexes
  import opened Matching

  /** `LetterValues`: the letter to replace and its replacement. */
  datatype LetterValues = LetterValues(old_: string, new_: string)

  /** `TransformFunc`: one edit of a word. */
  datatype TransformFunc =
    | LetterReplace(values: LetterValues, replace: LetterPlaceType)
    | LetterArray(letters: seq<LetterArrayValues>)
    | Postfix(value: Lemma)
    | Prefix(value: Lemma)
    | Loanword
    | LetterRemove(letter: string, position: LetterPlaceType)
    | Double(letter: string, position: LetterPlaceType)
    | DeDouble(letter: string, position: LetterPlaceType)
    | MatchReplace(oldValue: Lemma, newValue: Lemma)

  /** A regular-expression replacement of the first match: `regex(pattern,
      text, replacement)` is None when the pattern does not compile, else
      the replaced text.  The regular-expression engine is a parameter. */
  type RegexReplace = (string, string, string) -> Option<string>

  /** The new word one function gives (the arms of `TransformFunc::transform`
      with the `Lemma` methods they call). */
  function EditWord(f: TransformFunc, w: Lemma, regex: RegexReplace): Lemma
  {
    match f
    case LetterReplace(l, kind) => w.Replace(l.old_, l.new_, kind)
    case LetterArray(arr) => Lemma(Terminated(ArraySelect(w.Parts(), arr)))
    case Postfix(v) => w.AddPostfix(v)
    case Prefix(v) => w.AddPrefix(v)
    case Loanword => w
    case LetterRemove(c, pos) => Lemma(CollapseSeps([], w.Replace(c, [], pos).value))
    case Double(l, pos) => w.Double(l, pos)
    case DeDouble(l, pos) => Lemma.FromParts(DedoubleSpec(w.Parts(), l, pos))
    case MatchReplace(o, n) =>
      match regex(o.value, w.value, n.value)
      case None => w
      case Some(u) => Lemma(CollapseSeps([], u))
  }

  /** `TransformFunc::transform` on a lexis: only the word changes, and only
      when there is one. */
  function Apply(f: TransformFunc, lex: Lexis, regex: RegexReplace): (r: Lexis)
    ensures r == lex.(word := r.word)
    ensures r.word.Some? == lex.word.Some?
    ensures lex.word.None? || f.Loanword? ==> r == lex
    ensures lex.word.Some? ==> r.word.value == EditWord(f, lex.word.value, regex)
  {
    if lex.word.None? then lex
    else lex.(word := Some(EditWord(f, lex.word.value, regex)))
  }

  /** `TransformFunc::transform`: the lexis without a word is returned as it
      is; otherwise the arm for `f` edits its word. */
  method TransformLexis(f: TransformFunc, lex: Lexis, regex: RegexReplace) returns (r: Lexis)
    ensures r == Apply(f, lex, regex)
  {
    if lex.word.None? {
      return lex;
    }
    var current := lex.word.value;
    match f {
      case LetterReplace(l, kind) =>
        current := current.Replace(l.old_, l.new_, kind);
      case LetterArray(arr) =>
        current := current.ModifyWithArray(arr);
      case Postfix(v) =>
        current := current.AddPostfix(v);
      case Prefix(v) =>
        current := current.AddPrefix(v);
      case Loanword =>
      case LetterRemove(c, pos) =>
        current := current.RemoveChar(c, pos);
      case Double(l, pos) =>
        current := current.Double(l, pos);
      case DeDouble(l, pos) =>
        current := current.Dedouble(l, pos);
      case MatchReplace(o, n) =>
        var replaced := regex(o.value, current.value, n.value);
        if replaced.Some? {
          current := Lemma(replaced.value);
          current := current.DedoubleSep();
        }
    }
    r := lex.(word := Some(current));
  }

  /** The functions applied left to right. */
  function ApplyAll(fs: seq<TransformFunc>, lex: Lexis, regex: RegexReplace): (r: Lexis)
  {
    if fs == [] then lex
    else Apply(fs[|fs| - 1], ApplyAll(fs[..|fs| - 1], lex, regex), regex)
  }

  /** A transform list touches only the word, keeps it present or absent, and
      does nothing to a lexis without a word. */
  lemma {:induction false} ApplyAllOnlyWord(fs: seq<TransformFunc>, lex: Lexis, regex: RegexReplace)
    ensures ApplyAll(fs, lex, regex) == lex.(word := ApplyAll(fs, lex, regex).word)
    ensures ApplyAll(fs, lex, regex).word.Some? == lex.word.Some?
    ensures lex.word.None? ==> ApplyAll(fs, lex, regex) == lex
  {
    if fs != [] {
      ApplyAllOnlyWord(fs[..|fs| - 1], lex, regex);
    }
  }

  /** Applying `a ++ b` is applying `a`, then `b`: the functions run in list
      order. */
  lemma {:induction false} ApplyAllAppend(a: seq<TransformFunc>, b: seq<TransformFunc>, lex: Lexis, regex: RegexReplace)
    ensures ApplyAll(a + b, lex, regex) == ApplyAll(b, ApplyAll(a, lex, regex), regex)
  {
    if b != [] {
      ApplyAllAppend(a, b[..|b| - 1], lex, regex);
      assert (a + b)[..|a + b| - 1] == a + b[..|b| - 1];
    } else {
      assert a + b == a;
    }
  }

  /** A list of `Loanword`s leaves the lexis as it is. */
  lemma {:induction false} LoanwordsChangeNothing(fs: seq<TransformFunc>, lex: Lexis, regex: RegexReplace)
    requires forall i :: 0 <= i < |fs| ==> fs[i].Loanword?
    ensures ApplyAll(fs, lex, regex) == lex
  {
    if fs != [] {
      LoanwordsChangeNothing(fs[..|fs| - 1], lex, regex);
    }
  }

  /** `Transform`: a named list of functions, guarded by a match condition. */
  datatype Transform = Transform(name: string, lexMatch: Option<LexisMatch>, transforms: seq<TransformFunc>)

  /** Whether the transform applies to `lex`: there is no condition, or the
      condition matches. */
  predicate CanTransform(t: Transform, lex: Lexis)
  {
    t.lexMatch.None? || Matches(t.lexMatch.value, lex)
  }

  /** `Transform::transform_option`: when the condition holds, every function
      in order and true; otherwise the lexis unchanged and false. */
  method TransformOption(t: Transform, etymon: Lexis, regex: RegexReplace) returns (updated: Lexis, applied: bool)
    ensures applied == CanTransform(t, etymon)
    ensures applied ==> updated == ApplyAll(t.transforms, etymon, regex)
    ensures !applied ==> updated == etymon
  {
    var canTransform := if t.lexMatch.Some? then Matches(t.lexMatch.value, etymon) else true;
    updated := etymon;
    if canTransform {
      for i := 0 to |t.transforms|
        invariant updated == ApplyAll(t.transforms[..i], etymon, regex)
      {
        assert t.transforms[..i + 1][..i] == t.transforms[..i];
        updated := TransformLexis(t.transforms[i], updated, regex);
      }
      assert t.transforms[..|t.transforms|] == t.transforms;
      applied := true;
    } else {
      applied := false;
    }
  }

  /** `Transform::transform`: `transform_option` with its flag dropped. */
  method TransformEtymon(t: Transform, etymon: Lexis, regex: RegexReplace) returns (updated: Lexis)
    ensures updated == (if CanTransform(t, etymon) then ApplyAll(t.transforms, etymon, regex) else etymon)
    ensures updated == etymon.(word := updated.word)
  {
    var applied;
    updated, applied := TransformOption(t, etymon, regex);
    ApplyAllOnlyWord(t.transforms, etymon, regex);
  }
}
