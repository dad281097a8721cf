/**
 * The catalogue of speech types: each type's slug and genus, the lookups by
 * name and by slug over the catalogue, the two sub-lists of statements and
 * non-statements, and the fixed table of six types.
 */
module SpeechTypes {
  import opened Wrappers
  import Seqs

  /** A character of the class `[a-z]`. */
  predicate IsLower(c: char) {
    'a' <= c <= 'z'
  }

  /** A character of the slug alphabet: `[a-z]` or `-`. */
  predicate IsSlugChar(c: char) {
    IsLower(c) || c == '-'
  }

  /** What a slug looks like: only `[a-z]` and `-`, and never two `-` in a row. */
  predicate IsSlug(s: string) {
    && (forall i :: 0 <= i < |s| ==> IsSlugChar(s[i]))
    && (forall i :: 0 <= i < |s| - 1 ==> !(s[i] == '-' && s[i + 1] == '-'))
  }

  /** ASCII lowering of one character. */
  function DowncaseChar(c: char): (d: char)
    ensures 'A' <= c <= 'Z' ==> IsLower(d) && d as int == c as int + 32
    ensures !('A' <= c <= 'Z') ==> d == c
  {
    if 'A' <= c <= 'Z' then (c as int + 32) as char else c
  }

  /** `String#downcase`, restricted to ASCII. */
  function Downcase(s: string): (r: string)
    ensures |r| == |s|
    ensures forall i :: 0 <= i < |s| ==> r[i] == DowncaseChar(s[i])
    decreases |s|
  {
    if s == [] then [] else [DowncaseChar(s[0])] + Downcase(s[1..|s|])
  }

  /** The rest of `s` after its leading run of characters outside `[a-z]`. */
  function SkipNonLower(s: string): (r: string)
    ensures |r| <= |s|
    decreases |s|
  {
    if s == [] || IsLower(s[0]) then s else SkipNonLower(s[1..|s|])
  }

  /**
   * `gsub(/[^a-z]+/, "-")`: every maximal run of characters outside `[a-z]`
   * becomes a single `-`, and the `[a-z]` characters are copied.
   */
  function CollapseNonLower(s: string): string
    decreases |s|
  {
    if s == [] then []
    else if IsLower(s[0]) then [s[0]] + CollapseNonLower(s[1..|s|])
    else "-" + CollapseNonLower(SkipNonLower(s[1..|s|]))
  }

  /** `SpeechType#slug`: the name, downcased, with every run of other characters turned into one `-`. */
  function Slug(name: string): string {
    CollapseNonLower(Downcase(name))
  }

  // ----- properties of the slug -----

  /** Skipping stops at the first `[a-z]` character, or at the end. */
  lemma {:induction false} SkipStopsAtLetter(s: string)
    ensures var r := SkipNonLower(s); r == [] || IsLower(r[0])
    decreases |s|
  {
    if s != [] && !IsLower(s[0]) {
      SkipStopsAtLetter(s[1..|s|]);
    }
  }

  /**
   * Collapsing yields a slug, empty exactly when its input is, and starting
   * with the input's first character if that is a letter, with `-` otherwise.
   */
  lemma {:induction false} CollapseIsSlug(s: string)
    ensures IsSlug(CollapseNonLower(s))
    ensures s == [] <==> CollapseNonLower(s) == []
    ensures s != [] ==> CollapseNonLower(s)[0] == if IsLower(s[0]) then s[0] else '-'
    decreases |s|
  {
    if s != [] {
      if IsLower(s[0]) {
        CollapseIsSlug(s[1..|s|]);
      } else {
        var t := SkipNonLower(s[1..|s|]);
        CollapseIsSlug(t);
        SkipStopsAtLetter(s[1..|s|]);
      }
    }
  }

  /** Every slug is made of `[a-z]` and `-` only, and never has two `-` in a row. */
  lemma SlugIsSlug(name: string)
    ensures IsSlug(Slug(name))
  {
    CollapseIsSlug(Downcase(name));
  }

  /** The `[a-z]` characters survive in order, and no other `[a-z]` character appears. */
  lemma {:induction false} CollapseKeepsLetters(s: string)
    ensures Seqs.Select(CollapseNonLower(s), IsLower) == Seqs.Select(s, IsLower)
    decreases |s|
  {
    if s != [] {
      if IsLower(s[0]) {
        CollapseKeepsLetters(s[1..|s|]);
        assert s[1..|s|] == s[1..];
        assert ([s[0]] + CollapseNonLower(s[1..|s|]))[1..] == CollapseNonLower(s[1..|s|]);
      } else {
        var t := SkipNonLower(s[1..|s|]);
        CollapseKeepsLetters(t);
        assert s[1..|s|] == s[1..];
        assert ("-" + CollapseNonLower(t))[1..] == CollapseNonLower(t);
        SkipDropsNoLetters(s[1..|s|]);
      }
    }
  }

  /** Skipping a run of characters outside `[a-z]` loses no letter. */
  lemma {:induction false} SkipDropsNoLetters(s: string)
    ensures Seqs.Select(SkipNonLower(s), IsLower) == Seqs.Select(s, IsLower)
    decreases |s|
  {
    if s != [] && !IsLower(s[0]) {
      SkipDropsNoLetters(s[1..|s|]);
      assert s[1..|s|] == s[1..];
    }
  }

  /** The letters of a slug are exactly the letters of the downcased name, in order. */
  lemma SlugKeepsLetters(name: string)
    ensures Seqs.Select(Slug(name), IsLower) == Seqs.Select(Downcase(name), IsLower)
  {
    CollapseKeepsLetters(Downcase(name));
  }

  /** Collapsing leaves a string unchanged exactly when it already is a slug. */
  lemma {:induction false} CollapseFixedPoint(s: string)
    ensures CollapseNonLower(s) == s <==> IsSlug(s)
    decreases |s|
  {
    CollapseIsSlug(s);
    if s != [] && IsSlug(s) {
      var t := s[1..|s|];
      assert IsSlug(t);
      assert s == [s[0]] + t;
      CollapseFixedPoint(t);
      if !IsLower(s[0]) {
        assert t == [] || IsLower(t[0]) by {
          if t != [] {
            assert s[1] == t[0];
          }
        }
        assert SkipNonLower(t) == t;
      }
    }
  }

  /** Downcasing leaves a string with no upper-case ASCII letter unchanged. */
  lemma DowncaseFixedPoint(s: string)
    requires forall i :: 0 <= i < |s| ==> !('A' <= s[i] <= 'Z')
    ensures Downcase(s) == s
  {
  }

  /** Taking the slug of a slug changes nothing. */
  lemma SlugIdempotent(name: string)
    ensures Slug(Slug(name)) == Slug(name)
  {
    var s := Slug(name);
    SlugIsSlug(name);
    DowncaseFixedPoint(s);
    CollapseFixedPoint(s);
  }

  // ----- evaluating slugs of concrete names -----
  //
  // The slug of a concrete name is computed word by word with `CollapseWord`.
  // The `...Words` and `...SlugWords` lemmas further down only help the solver:
  // each states one string literal as the concatenation of its words, one
  // equality per lemma, because the solver settles such equalities reliably
  // one at a time but not several in one proof.

  lemma {:induction false} CollapseLowerPrefix(w: string, t: string)
    requires forall i :: 0 <= i < |w| ==> IsLower(w[i])
    ensures CollapseNonLower(w + t) == w + CollapseNonLower(t)
    decreases |w|
  {
    if w == [] {
      assert w + t == t;
    } else {
      assert (w + t)[1..|w + t|] == w[1..|w|] + t;
      CollapseLowerPrefix(w[1..|w|], t);
      assert w == [w[0]] + w[1..|w|];
    }
  }

  lemma {:induction false} SkipRun(sep: string, t: string)
    requires forall i :: 0 <= i < |sep| ==> !IsLower(sep[i])
    requires t == [] || IsLower(t[0])
    ensures SkipNonLower(sep + t) == t
    decreases |sep|
  {
    if sep == [] {
      assert sep + t == t;
    } else {
      assert (sep + t)[1..|sep + t|] == sep[1..|sep|] + t;
      SkipRun(sep[1..|sep|], t);
    }
  }

  /** A run of separators followed by a letter or by nothing collapses to one `-`. */
  lemma CollapseRun(sep: string, rest: string)
    requires sep != [] && forall i :: 0 <= i < |sep| ==> !IsLower(sep[i])
    requires rest == [] || IsLower(rest[0])
    ensures CollapseNonLower(sep + rest) == "-" + CollapseNonLower(rest)
  {
    var tail := sep + rest;
    assert tail[0] == sep[0];
    assert tail[1..|tail|] == sep[1..|sep|] + rest;
    SkipRun(sep[1..|sep|], rest);
  }

  /** A word, a run of separators and the rest collapse to the word, one `-` and the collapsed rest. */
  lemma CollapseWord(w: string, sep: string, rest: string)
    requires forall i :: 0 <= i < |w| ==> IsLower(w[i])
    requires sep != [] && forall i :: 0 <= i < |sep| ==> !IsLower(sep[i])
    requires rest == [] || IsLower(rest[0])
    ensures CollapseNonLower(w + sep + rest) == w + "-" + CollapseNonLower(rest)
  {
    assert w + sep + rest == w + (sep + rest);
    CollapseLowerPrefix(w, sep + rest);
    CollapseRun(sep, rest);
  }

  lemma CollapseLastWord(w: string)
    requires forall i :: 0 <= i < |w| ==> IsLower(w[i])
    ensures CollapseNonLower(w) == w
  {
    CollapseLowerPrefix(w, "");
    assert w + "" == w;
  }

  lemma DowncaseLiteral(s: string, r: string)
    requires |r| == |s| && forall i :: 0 <= i < |s| ==> r[i] == DowncaseChar(s[i])
    ensures Downcase(s) == r
  {
  }

  // ----- the speech type record and the catalogue -----

  /** One speech type; `genus` and `explanation` may be unset. */
  datatype SpeechType = SpeechType(
    id: int, name: string, genus: Option<string>, explanation: Option<string>, key: string)
  {
    /** `SpeechType#slug`. */
    function GetSlug(): string {
      Slug(name)
    }

    /** `SpeechType#genus`: the stored genus when it is set, otherwise the name. */
    function Genus(): (g: string)
      ensures genus.Some? ==> g == genus.value
      ensures genus.None? ==> g == name
    {
      match genus
      case Some(v) => v
      case None => name
    }
  }

  const Transcript := SpeechType(1, "Transcript", Some("Speech"),
    Some("This is a transcript of the speech, exactly as it was delivered."), "transcript")
  const DraftText := SpeechType(2, "Draft text", Some("Speech"),
    Some("This is the text of the speech as drafted, which may differ slightly from the delivered version."), "draft_text")
  const SpeakingNotes := SpeechType(3, "Speaking notes", Some("Speech"),
    Some("These are the speaker's notes, not a transcript of the speech as it was delivered."), "speaking_notes")
  const WrittenStatement := SpeechType(4, "Written statement to parliament", None, None, "written_statement")
  const OralStatement := SpeechType(5, "Oral statement to parliament", None, None, "oral_statement")
  const ImportedAwaitingType := SpeechType(1000, "Imported - Awaiting Type", None, None, "imported")

  /** Every speech type, in the order the catalogue creates them. */
  function All(): seq<SpeechType> {
    [Transcript, DraftText, SpeakingNotes, WrittenStatement, OralStatement, ImportedAwaitingType]
  }

  /** `SpeechType.non_statements`. */
  function NonStatements(): seq<SpeechType> {
    [Transcript, DraftText, SpeakingNotes]
  }

  /** `SpeechType.statements`. */
  function Statements(): seq<SpeechType> {
    [WrittenStatement, OralStatement]
  }

  /** `SpeechType.find_by_name`: the first type in the catalogue with that name, if any. */
  function FindByName(name: string): (r: Option<SpeechType>)
    ensures r.None? <==> forall t :: t in All() ==> t.name != name
    ensures r.Some? ==> exists i :: 0 <= i < |All()| && All()[i] == r.value && r.value.name == name &&
                                   forall j :: 0 <= j < i ==> All()[j].name != name
  {
    Seqs.Find(All(), (t: SpeechType) => t.name == name)
  }

  /** `SpeechType.find_by_slug`: the first type in the catalogue with that slug, if any. */
  function FindBySlug(slug: string): (r: Option<SpeechType>)
    ensures r.None? <==> forall t :: t in All() ==> t.GetSlug() != slug
    ensures r.Some? ==> exists i :: 0 <= i < |All()| && All()[i] == r.value && r.value.GetSlug() == slug &&
                                   forall j :: 0 <= j < i ==> All()[j].GetSlug() != slug
  {
    Seqs.Find(All(), (t: SpeechType) => t.GetSlug() == slug)
  }

  // ----- properties of the table -----

  lemma TranscriptSlug()
    ensures Transcript.GetSlug() == "transcript"
  {
    DowncaseLiteral("Transcript", "transcript");
    CollapseLastWord("transcript");
  }

  lemma DraftTextSlug()
    ensures DraftText.GetSlug() == "draft-text"
  {
    DowncaseLiteral("Draft text", "draft text");
    CollapseLastWord("text");
    DraftTextWords();
    DraftTextSlugWords();
    CollapseWord("draft", " ", "text");
  }

  lemma DraftTextWords()
    ensures "draft text" == "draft" + " " + "text"
  {
  }

  lemma DraftTextSlugWords()
    ensures "draft-text" == "draft" + "-" + "text"
  {
  }

  lemma SpeakingNotesSlug()
    ensures SpeakingNotes.GetSlug() == "speaking-notes"
  {
    DowncaseLiteral("Speaking notes", "speaking notes");
    CollapseLastWord("notes");
    SpeakingNotesWords();
    SpeakingNotesSlugWords();
    CollapseWord("speaking", " ", "notes");
  }

  lemma SpeakingNotesWords()
    ensures "speaking notes" == "speaking" + " " + "notes"
  {
  }

  lemma SpeakingNotesSlugWords()
    ensures "speaking-notes" == "speaking" + "-" + "notes"
  {
  }

  lemma ToParliament()
    ensures CollapseNonLower("to parliament") == "to-parliament"
  {
    CollapseLastWord("parliament");
    ToParliamentWords();
    ToParliamentSlugWords();
    CollapseWord("to", " ", "parliament");
  }

  lemma ToParliamentWords()
    ensures "to parliament" == "to" + " " + "parliament"
  {
  }

  lemma ToParliamentSlugWords()
    ensures "to-parliament" == "to" + "-" + "parliament"
  {
  }

  /** "statement to parliament", the words shared by the two statement names. */
  lemma StatementToParliament()
    ensures CollapseNonLower("statement to parliament") == "statement-to-parliament"
  {
    ToParliament();
    StatementToParliamentWords();
    StatementToParliamentSlugWords();
    CollapseWord("statement", " ", "to parliament");
  }

  lemma StatementToParliamentWords()
    ensures "statement to parliament" == "statement" + " " + "to parliament"
  {
  }

  lemma StatementToParliamentSlugWords()
    ensures "statement-to-parliament" == "statement" + "-" + "to-parliament"
  {
  }

  lemma WrittenStatementDowncase()
    ensures Downcase("Written statement to parliament") == "written statement to parliament"
  {
    DowncaseLiteral("Written statement to parliament", "written statement to parliament");
  }

  lemma WrittenStatementSlug()
    ensures WrittenStatement.GetSlug() == "written-statement-to-parliament"
  {
    WrittenStatementDowncase();
    WrittenStatementCollapse();
  }

  lemma WrittenStatementCollapse()
    ensures CollapseNonLower("written statement to parliament") == "written-statement-to-parliament"
  {
    StatementToParliament();
    WrittenStatementWords();
    WrittenStatementSlugWords();
    CollapseWord("written", " ", "statement to parliament");
  }

  lemma WrittenStatementWords()
    ensures "written statement to parliament" == "written" + " " + "statement to parliament"
  {
  }

  lemma WrittenStatementSlugWords()
    ensures "written-statement-to-parliament" == "written" + "-" + "statement-to-parliament"
  {
  }

  lemma OralStatementDowncase()
    ensures Downcase("Oral statement to parliament") == "oral statement to parliament"
  {
    DowncaseLiteral("Oral statement to parliament", "oral statement to parliament");
  }

  lemma OralStatementSlug()
    ensures OralStatement.GetSlug() == "oral-statement-to-parliament"
  {
    OralStatementDowncase();
    OralStatementCollapse();
  }

  lemma OralStatementCollapse()
    ensures CollapseNonLower("oral statement to parliament") == "oral-statement-to-parliament"
  {
    StatementToParliament();
    OralStatementWords();
    OralStatementSlugWords();
    CollapseWord("oral", " ", "statement to parliament");
  }

  lemma OralStatementWords()
    ensures "oral statement to parliament" == "oral" + " " + "statement to parliament"
  {
  }

  lemma OralStatementSlugWords()
    ensures "oral-statement-to-parliament" == "oral" + "-" + "statement-to-parliament"
  {
  }

  /** The run " - " between the first two words becomes a single `-`. */
  lemma ImportedAwaitingTypeDowncase()
    ensures Downcase("Imported - Awaiting Type") == "imported - awaiting type"
  {
    DowncaseLiteral("Imported - Awaiting Type", "imported - awaiting type");
  }

  lemma ImportedAwaitingTypeSlug()
    ensures ImportedAwaitingType.GetSlug() == "imported-awaiting-type"
  {
    ImportedAwaitingTypeDowncase();
    ImportedAwaitingTypeCollapse();
  }

  lemma AwaitingType()
    ensures CollapseNonLower("awaiting type") == "awaiting-type"
  {
    CollapseLastWord("type");
    AwaitingTypeWords();
    AwaitingTypeSlugWords();
    CollapseWord("awaiting", " ", "type");
  }

  lemma AwaitingTypeWords()
    ensures "awaiting type" == "awaiting" + " " + "type"
  {
  }

  lemma AwaitingTypeSlugWords()
    ensures "awaiting-type" == "awaiting" + "-" + "type"
  {
  }

  lemma ImportedAwaitingTypeCollapse()
    ensures CollapseNonLower("imported - awaiting type") == "imported-awaiting-type"
  {
    AwaitingType();
    ImportedAwaitingTypeWords();
    ImportedAwaitingTypeSlugWords();
    CollapseWord("imported", " - ", "awaiting type");
  }

  lemma ImportedAwaitingTypeWords()
    ensures "imported - awaiting type" == "imported" + " - " + "awaiting type"
  {
  }

  lemma ImportedAwaitingTypeSlugWords()
    ensures "imported-awaiting-type" == "imported" + "-" + "awaiting-type"
  {
  }

  /** The slugs of the six speech types. */
  lemma TableSlugs()
    ensures Transcript.GetSlug() == "transcript"
    ensures DraftText.GetSlug() == "draft-text"
    ensures SpeakingNotes.GetSlug() == "speaking-notes"
    ensures WrittenStatement.GetSlug() == "written-statement-to-parliament"
    ensures OralStatement.GetSlug() == "oral-statement-to-parliament"
    ensures ImportedAwaitingType.GetSlug() == "imported-awaiting-type"
  {
    TranscriptSlug();
    DraftTextSlug();
    SpeakingNotesSlug();
    WrittenStatementSlug();
    OralStatementSlug();
    ImportedAwaitingTypeSlug();
  }

  /** The genus falls back to the name for the statements, and is "Speech" for the others. */
  lemma TableGenus()
    ensures WrittenStatement.Genus() == "Written statement to parliament"
    ensures OralStatement.Genus() == "Oral statement to parliament"
    ensures ImportedAwaitingType.Genus() == "Imported - Awaiting Type"
    ensures forall t :: t in NonStatements() ==> t.Genus() == "Speech"
  {
  }

  /** A slug starts with the lowered first letter of the name. */
  lemma SlugInitial(name: string)
    requires name != [] && 'A' <= name[0] <= 'Z'
    ensures Slug(name) != [] && Slug(name)[0] == DowncaseChar(name[0])
  {
    CollapseIsSlug(Downcase(name));
  }

  /** The first letters of the six slugs. */
  lemma TableInitials()
    ensures Transcript.GetSlug() != [] && Transcript.GetSlug()[0] == 't'
    ensures DraftText.GetSlug() != [] && DraftText.GetSlug()[0] == 'd'
    ensures SpeakingNotes.GetSlug() != [] && SpeakingNotes.GetSlug()[0] == 's'
    ensures WrittenStatement.GetSlug() != [] && WrittenStatement.GetSlug()[0] == 'w'
    ensures OralStatement.GetSlug() != [] && OralStatement.GetSlug()[0] == 'o'
    ensures ImportedAwaitingType.GetSlug() != [] && ImportedAwaitingType.GetSlug()[0] == 'i'
  {
    SlugInitial(Transcript.name);
    SlugInitial(DraftText.name);
    SlugInitial(SpeakingNotes.name);
    SlugInitial(WrittenStatement.name);
    SlugInitial(OralStatement.name);
    SlugInitial(ImportedAwaitingType.name);
  }

  /** Every slug in the catalogue starts with the lowered first letter of its name. */
  lemma SlugInitials()
    ensures forall i :: 0 <= i < |All()| ==>
      All()[i].GetSlug() != [] && All()[i].GetSlug()[0] == DowncaseChar(All()[i].name[0])
  {
    TableInitials();
  }

  /** The six names start with six different letters. */
  lemma NameInitialsDistinct()
    ensures forall i, j :: 0 <= i < j < |All()| ==> All()[i].name[0] != All()[j].name[0]
  {
  }

  /** No two types share an id. */
  lemma IdsDistinct()
    ensures forall i, j :: 0 <= i < j < |All()| ==> All()[i].id != All()[j].id
  {
  }

  /** No two types share a slug: their first letters already differ. */
  lemma SlugsDistinct()
    ensures forall i, j :: 0 <= i < j < |All()| ==> All()[i].GetSlug() != All()[j].GetSlug()
  {
    SlugInitials();
    NameInitialsDistinct();
    forall i, j | 0 <= i < j < |All()|
      ensures All()[i].GetSlug() != All()[j].GetSlug()
    {
      assert DowncaseChar(All()[i].name[0]) != DowncaseChar(All()[j].name[0]);
    }
  }

  /** Each type is found again from its own slug. */
  lemma FindsEveryTypeBySlug(i: nat)
    requires i < |All()|
    ensures FindBySlug(All()[i].GetSlug()) == Some(All()[i])
  {
    var t := All()[i];
    var r := FindBySlug(t.GetSlug());
    assert r.Some?;
    var k :| 0 <= k < |All()| && All()[k] == r.value && r.value.GetSlug() == t.GetSlug() &&
             forall j :: 0 <= j < k ==> All()[j].GetSlug() != t.GetSlug();
    SlugsDistinct();
    assert k == i;
  }

  /** Each type is found again from its own name. */
  lemma FindsEveryTypeByName(i: nat)
    requires i < |All()|
    ensures FindByName(All()[i].name) == Some(All()[i])
  {
    var t := All()[i];
    var r := FindByName(t.name);
    assert r.Some?;
    var k :| 0 <= k < |All()| && All()[k] == r.value && r.value.name == t.name &&
             forall j :: 0 <= j < k ==> All()[j].name != t.name;
    NameInitialsDistinct();
    assert k == i;
  }

  /** Statements and non-statements are disjoint and, with ImportedAwaitingType, make up the catalogue. */
  lemma StatementsPartition()
    ensures forall t :: t in Statements() ==> t !in NonStatements()
    ensures forall t :: t in All() <==> t in Statements() || t in NonStatements() || t == ImportedAwaitingType
    ensures ImportedAwaitingType !in Statements() && ImportedAwaitingType !in NonStatements()
  {
  }
}
