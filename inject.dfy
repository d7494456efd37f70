/**
 * `main` of api/scripts/i18n_translate.py: translating the `en` block into
 * nine languages and inserting one new block per language right after the
 * `pl` block of the translation file, skipping languages already present.
 */
module Injector {
  import opened Wrappers
  import opened Strings
  import opened Translator
  import opened SectionLocator

  /** The languages `main` generates, in order. */
  const Languages: seq<string> := ["de", "fr", "it", "es", "pt", "cs", "sk", "ro", "nl"]

  /** The text whose presence in the file means that a language block already exists. */
  function LangMarker(lang: string): string
  {
    "  " + lang + ": {"
  }

  /** The block inserted for `lang`: opening line, translated lines, closing `},` line. */
  function NewSection(lang: string, translated: string): string
  {
    "  " + lang + ": {\n" + translated + "  },\n"
  }

  /** `generate_translation(en_text, lang)`. */
  function Translation(en: string, tables: map<string, Table>, lang: string): string
    requires ValidTables(tables)
  {
    Join(TranslateLines(Split(en, "\n"), tables, lang), "\n")
  }

  /** The translated `en` block for each of `langs`, in order. */
  function Translations(en: string, tables: map<string, Table>, langs: seq<string>): (r: seq<string>)
    requires ValidTables(tables)
    ensures |r| == |langs|
  {
    if |langs| == 0 then []
    else Translations(en, tables, langs[..|langs| - 1]) + [Translation(en, tables, langs[|langs| - 1])]
  }

  /**
   * The blocks inserted for `langs`, in order: one per language whose marker
   * is not in `content`, holding that language's text from `texts`.
   */
  function NewSections(content: string, texts: seq<string>, langs: seq<string>): seq<string>
    requires |texts| == |langs|
  {
    if |langs| == 0 then []
    else
      var n := |langs| - 1;
      NewSections(content, texts[..n], langs[..n])
      + (if Contains(content, LangMarker(langs[n])) then [] else [NewSection(langs[n], texts[n])])
  }

  /**
   * The line before which the blocks go: one past the first line after the
   * first `pl: {` line at which the brace depth counted from it is back to 0.
   */
  function InsertionLine(content: string): (r: Option<nat>)
    ensures r.Some? ==> 2 <= r.value <= |Split(content, "\n")|
    ensures FirstMarker(Stripped(Split(content, "\n")), PlMarker, 0).None? ==> r.None?
    ensures r.Some? ==> var p := FirstMarker(Stripped(Split(content, "\n")), PlMarker, 0).value;
                        p + 2 <= r.value && DepthThrough(Split(content, "\n"), p, r.value - 1) == 0
                        && forall i :: p < i < r.value - 1 ==> DepthThrough(Split(content, "\n"), p, i) != 0
  {
    var lines := Split(content, "\n");
    match FirstMarker(Stripped(lines), PlMarker, 0)
    case None => None
    case Some(p) => PlEnd(lines, p)
  }

  /** `lines` with `sections` inserted before line `e`, joined back with `\n`. */
  function Spliced(lines: seq<string>, e: nat, sections: seq<string>): string
    requires e <= |lines|
  {
    Join(lines[..e] + sections + lines[e..], "\n")
  }

  /**
   * The new file content `main` writes, or None when it stops without writing:
   * no (or an empty) `en` block, no `pl: {` line, or a `pl` block that never closes.
   */
  function Inject(content: string, tables: map<string, Table>, langs: seq<string>): (r: Option<string>)
    requires ValidTables(tables)
    ensures r.None? <==> EnSection(ReadLines(content)).None? || EnSection(ReadLines(content)).value == ""
                         || InsertionLine(content).None?
  {
    match EnSection(ReadLines(content))
    case None => None
    case Some(en) => if en == "" then None else InjectTexts(content, Translations(en, tables, langs), langs)
  }

  /** The insertion step of `main`, given each language's translated text. */
  function InjectTexts(content: string, texts: seq<string>, langs: seq<string>): Option<string>
    requires |texts| == |langs|
  {
    match InsertionLine(content)
    case None => None
    case Some(e) => Some(Spliced(Split(content, "\n"), e, NewSections(content, texts, langs)))
  }

  // ------------------------------------------------------------------ the loop of main

  /** `main` over the file's content; the tables are those of the source. */
  method InjectLanguages(content: string, tables: map<string, Table>) returns (r: Option<string>)
    requires ValidTables(tables)
    ensures r == Inject(content, tables, Languages)
  {
    var en := ParseEnSection(content);
    if en.None? || en.value == "" {
      return None;
    }
    var lines := Split(content, "\n");
    var plStart := FindPlStart(lines);
    if plStart.None? {
      return None;
    }
    var plEnd := FindPlEnd(lines, plStart.value);
    if plEnd.None? {
      return None;
    }
    var texts := TranslateAll(en.value, tables, Languages);
    var out := InsertSections(content, lines, plEnd.value, texts, Languages);
    r := Some(Join(out, "\n"));
  }

  /** `generate_translation(en_text, lang)` for each language, in order. */
  method TranslateAll(en: string, tables: map<string, Table>, langs: seq<string>) returns (texts: seq<string>)
    requires ValidTables(tables)
    ensures texts == Translations(en, tables, langs)
  {
    texts := [];
    var i := 0;
    while i < |langs|
      invariant 0 <= i <= |langs|
      invariant texts == Translations(en, tables, langs[..i])
    {
      var translated := GenerateTranslation(en, tables, langs[i]);
      TranslationsStep(en, tables, langs, i);
      texts := texts + [translated];
      i := i + 1;
    }
    assert langs[..i] == langs;
  }

  /**
   * The loop of `main` over the languages: each language whose marker is not
   * in `content` gets its block inserted at the cursor, which then moves past it.
   */
  method InsertSections(content: string, lines: seq<string>, e: nat, texts: seq<string>, langs: seq<string>)
    returns (out: seq<string>)
    requires e <= |lines| && |texts| == |langs|
    ensures out == lines[..e] + NewSections(content, texts, langs) + lines[e..]
  {
    out := lines;
    var cursor := e;
    var i := 0;
    while i < |langs|
      invariant 0 <= i <= |langs|
      invariant cursor == e + |NewSections(content, texts[..i], langs[..i])|
      invariant out == lines[..e] + NewSections(content, texts[..i], langs[..i]) + lines[e..]
    {
      var lang := langs[i];
      ghost var done := NewSections(content, texts[..i], langs[..i]);
      NewSectionsStep(content, texts, langs, i);
      if Contains(content, LangMarker(lang)) {
        i := i + 1;
        continue;
      }
      assert out[..cursor] == lines[..e] + done && out[cursor..] == lines[e..];
      out := out[..cursor] + [NewSection(lang, texts[i])] + out[cursor..];
      cursor := cursor + 1;
      i := i + 1;
    }
    assert langs[..i] == langs && texts[..i] == texts;
  }

  /** One more language for `Translations`. */
  lemma {:induction false} TranslationsStep(en: string, tables: map<string, Table>, langs: seq<string>, i: nat)
    requires ValidTables(tables) && i < |langs|
    ensures Translations(en, tables, langs[..i + 1])
            == Translations(en, tables, langs[..i]) + [Join(TranslateLines(Split(en, "\n"), tables, langs[i]), "\n")]
  {
    assert langs[..i + 1][..i] == langs[..i];
  }

  /** One more language for `NewSections`. */
  lemma {:induction false} NewSectionsStep(content: string, texts: seq<string>, langs: seq<string>, i: nat)
    requires i < |langs| == |texts|
    ensures NewSections(content, texts[..i + 1], langs[..i + 1])
            == NewSections(content, texts[..i], langs[..i])
               + (if Contains(content, LangMarker(langs[i])) then [] else [NewSection(langs[i], texts[i])])
  {
    assert langs[..i + 1][..i] == langs[..i];
    assert texts[..i + 1][..i] == texts[..i];
  }

  // ------------------------------------------------------------------ properties

  /** The blocks are exactly those of the languages whose marker is missing. */
  lemma {:induction false} NewSectionsMissing(content: string, texts: seq<string>, langs: seq<string>)
    requires |texts| == |langs|
    ensures (forall k :: 0 <= k < |langs| ==> Contains(content, LangMarker(langs[k])))
            ==> NewSections(content, texts, langs) == []
    ensures forall k :: 0 <= k < |langs| && !Contains(content, LangMarker(langs[k])) ==>
                          NewSection(langs[k], texts[k]) in NewSections(content, texts, langs)
  {
    if |langs| > 0 {
      var n := |langs| - 1;
      NewSectionsMissing(content, texts[..n], langs[..n]);
      forall k | 0 <= k < n ensures langs[..n][k] == langs[k] && texts[..n][k] == texts[k] { }
    }
  }

  /** The text inserted for `sections`: their lines plus the one line break that separates them from the kept text. */
  predicate Insertion(ins: string, sections: seq<string>)
  {
    if |sections| == 0 then ins == ""
    else ins == Join(sections, "\n") + "\n" || ins == "\n" + Join(sections, "\n")
  }

  /**
   * `r` is `c` with `ins` put in at offset `k`, which is the start of a line
   * of `c` (or its end), and `ins` is the text of `sections`.
   */
  predicate InsertedAt(c: string, r: string, k: nat, ins: string, sections: seq<string>)
  {
    k <= |c| && (k == |c| || (0 < k && c[k - 1] == '\n'))
    && Insertion(ins, sections) && r == c[..k] + ins + c[k..]
  }

  /** Where the spliced blocks land in the joined text: after the first `e` lines and their line break, or at the end. */
  function SpliceOffset(lines: seq<string>, e: nat, sections: seq<string>): nat
    requires e <= |lines|
  {
    if |sections| > 0 && e < |lines| then |Join(lines[..e], "\n")| + 1 else |Join(lines, "\n")|
  }

  /** The text the spliced blocks add, with the line break that separates them from the kept lines. */
  function SpliceText(lines: seq<string>, e: nat, sections: seq<string>): string
    requires e <= |lines|
  {
    if |sections| == 0 then ""
    else if e < |lines| then Join(sections, "\n") + "\n"
    else "\n" + Join(sections, "\n")
  }

  /** Lines with blocks spliced in are the joined lines with one insertion at a line start (or at the end). */
  lemma {:induction false} SplicedInserts(lines: seq<string>, e: nat, sections: seq<string>)
    requires 1 <= e <= |lines|
    ensures InsertedAt(Join(lines, "\n"), Spliced(lines, e, sections), SpliceOffset(lines, e, sections),
                       SpliceText(lines, e, sections), sections)
  {
    if |sections| == 0 {
      SplicedNothing(lines, e, sections);
    } else if e < |lines| {
      SplicedInside(lines, e, sections);
    } else {
      SplicedAtEnd(lines, sections);
    }
  }

  lemma {:induction false} SplicedNothing(lines: seq<string>, e: nat, sections: seq<string>)
    requires e <= |lines| && sections == []
    ensures Spliced(lines, e, sections) == Join(lines, "\n")
    ensures InsertedAt(Join(lines, "\n"), Spliced(lines, e, sections), SpliceOffset(lines, e, sections),
                       SpliceText(lines, e, sections), sections)
  {
    var c := Join(lines, "\n");
    Rejoin(lines, e, sections);
    AppendAtEnd(c, "");
    assert c + "" == c;
    assert SpliceOffset(lines, e, sections) == |c| && SpliceText(lines, e, sections) == "";
  }

  lemma {:induction false} Rejoin(lines: seq<string>, e: nat, sections: seq<string>)
    requires e <= |lines| && sections == []
    ensures lines[..e] + sections + lines[e..] == lines
  {
  }

  lemma {:induction false} SplicedInside(lines: seq<string>, e: nat, sections: seq<string>)
    requires 1 <= e < |lines| && |sections| > 0
    ensures InsertedAt(Join(lines, "\n"), Spliced(lines, e, sections), SpliceOffset(lines, e, sections),
                       SpliceText(lines, e, sections), sections)
  {
    var a, b, j := Join(lines[..e], "\n"), Join(lines[e..], "\n"), Join(sections, "\n");
    var c, r := Join(lines, "\n"), Spliced(lines, e, sections);
    SplicedInsideJoin(lines, e, sections);
    Regroup(a, j, b);
    CutAfterNewline(a, b);
    assert InsertedAt(c, r, |a| + 1, j + "\n", sections);
    assert SpliceOffset(lines, e, sections) == |a| + 1 && SpliceText(lines, e, sections) == j + "\n";
  }

  lemma {:induction false} SplicedInsideJoin(lines: seq<string>, e: nat, sections: seq<string>)
    requires 1 <= e < |lines| && |sections| > 0
    ensures Join(lines, "\n") == Join(lines[..e], "\n") + "\n" + Join(lines[e..], "\n")
    ensures Spliced(lines, e, sections)
            == Join(lines[..e], "\n") + "\n" + Join(sections, "\n") + "\n" + Join(lines[e..], "\n")
  {
    assert lines[..e] + lines[e..] == lines;
    JoinAppend(lines[..e], lines[e..], "\n");
    JoinAppend(lines[..e], sections, "\n");
    JoinAppend(lines[..e] + sections, lines[e..], "\n");
  }

  lemma {:induction false} SplicedAtEnd(lines: seq<string>, sections: seq<string>)
    requires 1 <= |lines| && |sections| > 0
    ensures InsertedAt(Join(lines, "\n"), Spliced(lines, |lines|, sections), SpliceOffset(lines, |lines|, sections),
                       SpliceText(lines, |lines|, sections), sections)
  {
    var c, j := Join(lines, "\n"), Join(sections, "\n");
    SplicedAtEndJoin(lines, sections);
    AppendAtEnd(c, "\n" + j);
    assert Insertion("\n" + j, sections);
    assert SpliceOffset(lines, |lines|, sections) == |c| && SpliceText(lines, |lines|, sections) == "\n" + j;
  }

  lemma {:induction false} SplicedAtEndJoin(lines: seq<string>, sections: seq<string>)
    requires 1 <= |lines| && |sections| > 0
    ensures Spliced(lines, |lines|, sections) == Join(lines, "\n") + ("\n" + Join(sections, "\n"))
  {
    assert lines[..|lines|] + sections + lines[|lines|..] == lines + sections;
    JoinAppend(lines, sections, "\n");
    ConcatAssoc(Join(lines, "\n"), "\n", Join(sections, "\n"));
  }

  lemma {:induction false} AppendAtEnd(c: string, ins: string)
    ensures c + ins == c[..|c|] + ins + c[|c|..]
  {
    assert c[..|c|] == c && c[|c|..] == "";
  }

  lemma {:induction false} Regroup(a: string, j: string, b: string)
    ensures a + "\n" + j + "\n" + b == (a + "\n") + (j + "\n") + b
  {
  }

  lemma {:induction false} CutAfterNewline(a: string, b: string)
    ensures (a + "\n" + b)[..|a| + 1] == a + "\n" && (a + "\n" + b)[|a| + 1..] == b
    ensures (a + "\n" + b)[|a|] == '\n'
  {
  }

  /** When every language already has its block, `main` rewrites the file unchanged. */
  lemma {:induction false} InjectTextsUnchanged(content: string, texts: seq<string>, langs: seq<string>)
    requires |texts| == |langs|
    requires forall k :: 0 <= k < |langs| ==> Contains(content, LangMarker(langs[k]))
    ensures InjectTexts(content, texts, langs).Some? ==> InjectTexts(content, texts, langs).value == content
  {
    if InjectTexts(content, texts, langs).Some? {
      NewSectionsMissing(content, texts, langs);
      SplicedNothing(Split(content, "\n"), InsertionLine(content).value, []);
      JoinSplit(content, "\n");
    }
  }

  /** When every language already has its block, `main` rewrites the file unchanged. */
  lemma {:induction false} InjectUnchanged(content: string, tables: map<string, Table>, langs: seq<string>)
    requires ValidTables(tables)
    requires forall k :: 0 <= k < |langs| ==> Contains(content, LangMarker(langs[k]))
    ensures Inject(content, tables, langs).Some? ==> Inject(content, tables, langs).value == content
  {
    if Inject(content, tables, langs).Some? {
      var en := EnSection(ReadLines(content)).value;
      InjectTextsUnchanged(content, Translations(en, tables, langs), langs);
    }
  }

  /**
   * `main` only inserts: the new content is the old one with one piece of
   * text put in at the start of a line (or at the very end), made of the
   * blocks of exactly the missing languages; the line is the one
   * `InsertionLine` finds after the `pl` block.
   */
  lemma {:induction false} InjectSplices(content: string, tables: map<string, Table>, langs: seq<string>)
    requires ValidTables(tables)
    requires Inject(content, tables, langs).Some?
    ensures var en := EnSection(ReadLines(content)).value;
            exists k: nat, ins: string ::
              InsertedAt(content, Inject(content, tables, langs).value, k, ins,
                         NewSections(content, Translations(en, tables, langs), langs))
    ensures var en := EnSection(ReadLines(content)).value;
            var lines, sections := Split(content, "\n"), NewSections(content, Translations(en, tables, langs), langs);
            InsertionLine(content).Some?
            && InsertedAt(content, Inject(content, tables, langs).value,
                          SpliceOffset(lines, InsertionLine(content).value, sections),
                          SpliceText(lines, InsertionLine(content).value, sections), sections)
  {
    var en := EnSection(ReadLines(content)).value;
    var texts := Translations(en, tables, langs);
    JoinSplit(content, "\n");
    var lines, e, sections := Split(content, "\n"), InsertionLine(content).value, NewSections(content, texts, langs);
    SplicedInserts(lines, e, sections);
    assert InsertedAt(content, Inject(content, tables, langs).value, SpliceOffset(lines, e, sections),
                      SpliceText(lines, e, sections), sections);
  }

  /** A newline-free text found in `c` survives an insertion made at a line start. */
  lemma {:induction false} KeptOccurrence(c: string, k: nat, ins: string, m: string)
    requires k <= |c| && (k == |c| || (0 < k && c[k - 1] == '\n'))
    requires '\n' !in m && Contains(c, m)
    ensures Contains(c[..k] + ins + c[k..], m)
  {
    var q := IndexOf(c, m).value;
    var r := c[..k] + ins + c[k..];
    if q + |m| <= k {
      assert r[q..q + |m|] == c[q..q + |m|];
      OccursContains(r, m, q);
    } else {
      assert k <= q;
      var q2 := |ins| + q;
      assert r[q2..q2 + |m|] == c[q..q + |m|];
      OccursContains(r, m, q2);
    }
  }

  /** What occurs in the inserted text occurs in the result. */
  lemma {:induction false} InsertedOccurrence(c: string, k: nat, ins: string, m: string)
    requires k <= |c| && Contains(ins, m)
    ensures Contains(c[..k] + ins + c[k..], m)
  {
    PartsContained(c[..k] + ins, c[k..]);
    PartsContained(c[..k], ins);
    ContainsTrans(c[..k] + ins, ins, m);
    ContainsTrans(c[..k] + ins + c[k..], c[..k] + ins, m);
  }

  /** Each inserted block occurs in the inserted text. */
  lemma {:induction false} SectionInInsertion(ins: string, sections: seq<string>, i: nat)
    requires Insertion(ins, sections) && i < |sections|
    ensures Contains(ins, sections[i])
  {
    var j := Join(sections, "\n");
    PieceInJoin(sections, "\n", i);
    PartsContained(j, "\n");
    PartsContained("\n", j);
    ContainsTrans(ins, j, sections[i]);
  }

  lemma {:induction false} MarkerStartsSection(lang: string, translated: string)
    ensures Contains(NewSection(lang, translated), LangMarker(lang))
  {
    assert NewSection(lang, translated) == LangMarker(lang) + ("\n" + translated + "  },\n");
    PrefixContained(LangMarker(lang), "\n" + translated + "  },\n");
  }

  /** After the insertion step, every language of `langs` has its block in the file. */
  lemma {:induction false} InjectTextsMarksAll(content: string, texts: seq<string>, langs: seq<string>)
    requires |texts| == |langs|
    requires forall k :: 0 <= k < |langs| ==> '\n' !in langs[k]
    requires InjectTexts(content, texts, langs).Some?
    ensures forall k :: 0 <= k < |langs| ==> Contains(InjectTexts(content, texts, langs).value, LangMarker(langs[k]))
  {
    var sections := NewSections(content, texts, langs);
    var r := InjectTexts(content, texts, langs).value;
    JoinSplit(content, "\n");
    var lines, e := Split(content, "\n"), InsertionLine(content).value;
    SplicedInserts(lines, e, sections);
    var k, ins := SpliceOffset(lines, e, sections), SpliceText(lines, e, sections);
    NewSectionsMissing(content, texts, langs);
    forall j | 0 <= j < |langs| ensures Contains(r, LangMarker(langs[j])) {
      LangMarked(content, k, ins, sections, langs[j], texts[j]);
    }
  }

  /** A language whose block was already there, or was inserted, has its marker in the result. */
  lemma {:induction false} LangMarked(c: string, k: nat, ins: string, sections: seq<string>, lang: string, text: string)
    requires k <= |c| && (k == |c| || (0 < k && c[k - 1] == '\n'))
    requires Insertion(ins, sections) && '\n' !in lang
    requires Contains(c, LangMarker(lang)) || NewSection(lang, text) in sections
    ensures Contains(c[..k] + ins + c[k..], LangMarker(lang))
  {
    var m := LangMarker(lang);
    if Contains(c, m) {
      MarkerOneLine(lang);
      KeptOccurrence(c, k, ins, m);
    } else {
      var sec := NewSection(lang, text);
      var i :| 0 <= i < |sections| && sections[i] == sec;
      SectionInInsertion(ins, sections, i);
      MarkerStartsSection(lang, text);
      ContainsTrans(ins, sec, m);
      InsertedOccurrence(c, k, ins, m);
    }
  }

  lemma {:induction false} MarkerOneLine(lang: string)
    requires '\n' !in lang
    ensures '\n' !in LangMarker(lang)
  {
  }

  /** After `main` has run, every language of `langs` has its block in the file. */
  lemma {:induction false} InjectMarksAll(content: string, tables: map<string, Table>, langs: seq<string>)
    requires ValidTables(tables)
    requires forall k :: 0 <= k < |langs| ==> '\n' !in langs[k]
    requires Inject(content, tables, langs).Some?
    ensures forall k :: 0 <= k < |langs| ==> Contains(Inject(content, tables, langs).value, LangMarker(langs[k]))
  {
    var en := EnSection(ReadLines(content)).value;
    InjectTextsMarksAll(content, Translations(en, tables, langs), langs);
  }

  /** Running `main` a second time changes nothing: it writes the same content back, or stops. */
  lemma {:induction false} InjectIdempotent(content: string, tables: map<string, Table>, langs: seq<string>)
    requires ValidTables(tables)
    requires forall k :: 0 <= k < |langs| ==> '\n' !in langs[k]
    requires Inject(content, tables, langs).Some?
    ensures var r := Inject(content, tables, langs).value;
            Inject(r, tables, langs) == None || Inject(r, tables, langs) == Some(r)
  {
    var r := Inject(content, tables, langs).value;
    InjectMarksAll(content, tables, langs);
    InjectUnchanged(r, tables, langs);
  }

  /** The nine language codes are single-line, so the idempotence above applies to them. */
  lemma {:induction false} LanguagesOneLine()
    ensures forall k :: 0 <= k < |Languages| ==> '\n' !in Languages[k]
  {
  }
}
