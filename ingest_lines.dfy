/** Line ingest (kirum/src/ingest/lines.rs): every line of a text becomes
    an entry whose definition is the line, all other fields coming from the
    overrides.  The file read is left out; the text is the input. */
module IngestLines {
  import opened Strings
  import opened Entries

  /** The key prefix of ingested entries. */
  const Prefix := "ingest-"

  /** The entry a line becomes. */
  function LineEntry(overrides: RawLexicalEntry, line: string): RawLexicalEntry
  {
    overrides.(definition := line)
  }

  /** The graph after inserting the lines in order; a repeated line
      overwrites its earlier entry. */
  function Inserted(overrides: RawLexicalEntry, lines: seq<string>): WordGraph
  {
    if lines == [] then map[]
    else
      var line := lines[|lines| - 1];
      Inserted(overrides, lines[..|lines| - 1])[Prefix + line := LineEntry(overrides, line)]
  }

  /** `ingest` after the file read: split on '\n' and insert each piece under
      "ingest-" followed by the piece. */
  method Ingest(raw: string, overrides: RawLexicalEntry) returns (working: WordGraph)
    ensures working == Inserted(overrides, SplitOn(raw, '\n'))
  {
    var lines := SplitOn(raw, '\n');
    working := map[];
    for i := 0 to |lines|
      invariant working == Inserted(overrides, lines[..i])
    {
      var line := lines[i];
      var id := Prefix + line;
      var entry := overrides.(definition := line);
      assert lines[..i + 1][..i] == lines[..i];
      working := working[id := entry];
    }
    assert lines[..|lines|] == lines;
  }

  /** The prefixed keys tell their lines apart. */
  lemma PrefixInjective(a: string, b: string)
    ensures Prefix + a == Prefix + b <==> a == b
  {
    if Prefix + a == Prefix + b {
      assert a == (Prefix + a)[|Prefix|..];
      assert b == (Prefix + b)[|Prefix|..];
    }
  }

  /** Every line has its entry, whose definition is the line and whose other
      fields are the overrides; every key is a prefixed line. */
  lemma {:induction false} InsertedSpec(overrides: RawLexicalEntry, lines: seq<string>)
    ensures forall line :: line in lines ==> Prefix + line in Inserted(overrides, lines)
    ensures forall line :: line in lines ==> Inserted(overrides, lines)[Prefix + line] == LineEntry(overrides, line)
    ensures forall k :: k in Inserted(overrides, lines) ==> |Prefix| <= |k| && k[..|Prefix|] == Prefix && k[|Prefix|..] in lines
  {
    if lines != [] {
      var init := lines[..|lines| - 1];
      var last := lines[|lines| - 1];
      InsertedSpec(overrides, init);
      assert lines == init + [last];
      forall line | line in lines
        ensures Inserted(overrides, lines)[Prefix + line] == LineEntry(overrides, line)
      {
        PrefixInjective(line, last);
      }
      forall k | k in Inserted(overrides, lines)
        ensures |Prefix| <= |k| && k[..|Prefix|] == Prefix && k[|Prefix|..] in lines
      {
        if k == Prefix + last {
          assert k[|Prefix|..] == last;
        }
      }
    }
  }

  /** The distinct lines. */
  function Distinct(lines: seq<string>): set<string>
  {
    set line | line in lines
  }

  lemma DistinctSnoc(init: seq<string>, last: string)
    ensures Distinct(init + [last]) == Distinct(init) + {last}
    ensures |Distinct(init + [last])| == if last in init then |Distinct(init)| else |Distinct(init)| + 1
  {
    assert Distinct(init + [last]) == Distinct(init) + {last};
    if last in init {
      assert Distinct(init) + {last} == Distinct(init);
    } else {
      assert last !in Distinct(init);
    }
  }

  /** Duplicate lines collapse: there is one entry per distinct line. */
  lemma {:induction false} InsertedCount(overrides: RawLexicalEntry, lines: seq<string>)
    ensures |Inserted(overrides, lines)| == |Distinct(lines)|
  {
    if lines != [] {
      var init := lines[..|lines| - 1];
      var last := lines[|lines| - 1];
      InsertedCount(overrides, init);
      assert lines == init + [last];
      DistinctSnoc(init, last);
      var before := Inserted(overrides, init);
      var key := Prefix + last;
      assert key in before <==> last in init by {
        InsertedSpec(overrides, init);
      }
      UpdateSize(before, key, LineEntry(overrides, last));
    }
  }

  lemma UpdateSize(m: WordGraph, k: string, v: RawLexicalEntry)
    ensures |m[k := v]| == if k in m then |m| else |m| + 1
  {
    if k in m {
      assert m[k := v].Keys == m.Keys;
    } else {
      assert m[k := v].Keys == m.Keys + {k};
    }
  }

  /** A text that ends with a newline also yields the entry "ingest-" with
      an empty definition, for the empty piece after the last newline. */
  lemma TrailingNewline(raw: string, overrides: RawLexicalEntry)
    requires raw != [] && raw[|raw| - 1] == '\n'
    ensures Prefix in Inserted(overrides, SplitOn(raw, '\n'))
    ensures Inserted(overrides, SplitOn(raw, '\n'))[Prefix] == LineEntry(overrides, [])
  {
    var body := raw[..|raw| - 1];
    assert raw == body + ['\n'] + [];
    SplitOnAppend(body, '\n', []);
    var lines := SplitOn(raw, '\n');
    assert [] in lines by {
      assert lines[|lines| - 1] == [];
    }
    InsertedSpec(overrides, lines);
    assert Prefix + [] == Prefix;
  }
}
