/** Citations as the liturgical calendar stores them (scripts/import-complete-calendar.js),
    resolved by `parseReference`. Each worked example is assembled from small facts about
    its text, so that no single proof has to evaluate the whole parser on a literal. */
module ReferenceExamples {
  import opened Text
  import opened References

  /** A rendered match that starts with a non-space character is parsed from that
      match alone. */
  lemma {:induction false} ParsedFrom(table: map<string, string>, p: RefParts)
    requires WellFormed(p) && p.bookAbbr != [] && IsNonSpace(p.bookAbbr[0])
    ensures ParseReferenceIn(table, Render(p)) == Resolve(table, p)
  {
    RenderedIsFirstSegment(p);
    MatchReferenceComplete(p);
  }

  /** The lookup of a trimmed book token whose whitespace-free form is `key`. */
  lemma {:induction false} ResolvedBy(table: map<string, string>, p: RefParts, key: string)
    requires WellFormed(p) && Trim(p.bookAbbr) == p.bookAbbr && RemoveSpaces(p.bookAbbr) == key
    ensures Resolve(table, p)
         == if key in table
            then Some(Reference(table[key], DecimalValue(p.chapter), DecimalOf(p.startVerse), DecimalOf(p.endVerse)))
            else None
  {
  }

  /** The five runs of the table have no key in common, so a key is found in the union
      with the value its own run gives it. */
  lemma {:induction false} InGospels(k: string)
    requires k in Gospels
    ensures k in BookAbbreviations && BookAbbreviations[k] == Gospels[k]
  {
  }

  lemma {:induction false} InEpistles(k: string)
    requires k in Epistles && k !in Gospels
    ensures k in BookAbbreviations && BookAbbreviations[k] == Epistles[k]
  {
  }

  lemma {:induction false} InProphets(k: string)
    requires k in Prophets && k !in Epistles && k !in Gospels
    ensures k in BookAbbreviations && BookAbbreviations[k] == Prophets[k]
  {
  }

  lemma {:induction false} InNoRun(k: string)
    requires k !in Gospels && k !in Law && k !in History && k !in Prophets && k !in Epistles
    ensures k !in BookAbbreviations
  {
  }

  lemma {:induction false} GospelEntries()
    ensures "Matt" in Gospels && Gospels["Matt"] == "Matthew"
    ensures "Luke" in Gospels && Gospels["Luke"] == "Luke"
    ensures "Mt" in Gospels && Gospels["Mt"] == "Matthew"
    ensures "John" in Gospels && Gospels["John"] == "John"
    ensures "2Tim" !in Gospels && "Isa" !in Gospels && "Acts" !in Gospels
  {
  }

  lemma {:induction false} EpistleEntries()
    ensures "2Tim" in Epistles && Epistles["2Tim"] == "2 Timothy"
    ensures "Isa" !in Epistles && "Acts" !in Epistles
  {
  }

  lemma {:induction false} ProphetEntries()
    ensures "Isa" in Prophets && Prophets["Isa"] == "Isaiah"
    ensures "Acts" !in Prophets
  {
  }

  lemma {:induction false} ActsNotInLaw()
    ensures "Acts" !in Law
  {
  }

  lemma {:induction false} ActsNotInHistory()
    ensures "Acts" !in History
  {
  }

  // "Matt 3" (line 20): a chapter with no verses.

  lemma {:induction false} MattWellFormed()
    ensures WellFormed(RefParts("Matt", " ", "3", None, None))
  {
    PatternIsBookToken("Matt", 0, 0);
  }

  lemma {:induction false} MattRendered()
    ensures Render(RefParts("Matt", " ", "3", None, None)) == "Matt 3"
  {
  }

  lemma {:induction false} MattResolved(table: map<string, string>)
    requires "Matt" in table
    ensures WellFormed(RefParts("Matt", " ", "3", None, None)) && Resolve(table, RefParts("Matt", " ", "3", None, None)) == Some(Reference(table["Matt"], 3, None, None))
  {
    MattWellFormed();
    TrimNoSurroundingSpace("Matt");
    RemoveSpacesOfNoSpace("Matt");
    ResolvedBy(table, RefParts("Matt", " ", "3", None, None), "Matt");
  }

  lemma {:induction false} MattEntry()
    ensures "Matt" in BookAbbreviations && BookAbbreviations["Matt"] == "Matthew"
  {
    GospelEntries();
    InGospels("Matt");
  }

  /** Under any table that maps "Matt" to "Matthew", as the source's table does
      (`MattEntry`). */
  lemma {:induction false} ChapterOnlyExample(table: map<string, string>)
    requires "Matt" in table && table["Matt"] == "Matthew"
    ensures ParseReferenceIn(table, "Matt 3") == Some(Reference("Matthew", 3, None, None))
  {
    MattWellFormed();
    MattRendered();
    MattResolved(table);
    ParsedFrom(table, RefParts("Matt", " ", "3", None, None));
  }

  // "Mt 3" and "John 1:1-28": the samples lib/supabase.ts:155 names.

  lemma {:induction false} MtWellFormed()
    ensures WellFormed(RefParts("Mt", " ", "3", None, None))
  {
    PatternIsBookToken("Mt", 0, 0);
  }

  lemma {:induction false} MtRendered()
    ensures Render(RefParts("Mt", " ", "3", None, None)) == "Mt 3"
  {
  }

  lemma {:induction false} MtResolved(table: map<string, string>)
    requires "Mt" in table
    ensures WellFormed(RefParts("Mt", " ", "3", None, None)) && Resolve(table, RefParts("Mt", " ", "3", None, None)) == Some(Reference(table["Mt"], 3, None, None))
  {
    MtWellFormed();
    TrimNoSurroundingSpace("Mt");
    RemoveSpacesOfNoSpace("Mt");
    ResolvedBy(table, RefParts("Mt", " ", "3", None, None), "Mt");
  }

  lemma {:induction false} MtEntry()
    ensures "Mt" in BookAbbreviations && BookAbbreviations["Mt"] == "Matthew"
  {
    GospelEntries();
    InGospels("Mt");
  }

  lemma {:induction false} ShortAbbreviationExample(table: map<string, string>)
    requires "Mt" in table && table["Mt"] == "Matthew"
    ensures ParseReferenceIn(table, "Mt 3") == Some(Reference("Matthew", 3, None, None))
  {
    MtWellFormed();
    MtRendered();
    MtResolved(table);
    ParsedFrom(table, RefParts("Mt", " ", "3", None, None));
  }

  lemma {:induction false} JohnWellFormed()
    ensures WellFormed(RefParts("John", " ", "1", Some("1"), Some("28")))
  {
    PatternIsBookToken("John", 0, 0);
  }

  lemma {:induction false} JohnRendered()
    ensures Render(RefParts("John", " ", "1", Some("1"), Some("28"))) == "John 1:1-28"
  {
  }

  lemma {:induction false} JohnResolved(table: map<string, string>)
    requires "John" in table
    ensures WellFormed(RefParts("John", " ", "1", Some("1"), Some("28"))) && Resolve(table, RefParts("John", " ", "1", Some("1"), Some("28"))) == Some(Reference(table["John"], 1, Some(1), Some(28)))
  {
    JohnWellFormed();
    TrimNoSurroundingSpace("John");
    RemoveSpacesOfNoSpace("John");
    assert DecimalValue("28") == 28 by {
      assert "28"[..1] == "2";
    }
    ResolvedBy(table, RefParts("John", " ", "1", Some("1"), Some("28")), "John");
  }

  lemma {:induction false} JohnEntry()
    ensures "John" in BookAbbreviations && BookAbbreviations["John"] == "John"
  {
    GospelEntries();
    InGospels("John");
  }

  lemma {:induction false} FirstVersesExample(table: map<string, string>)
    requires "John" in table && table["John"] == "John"
    ensures ParseReferenceIn(table, "John 1:1-28") == Some(Reference("John", 1, Some(1), Some(28)))
  {
    JohnWellFormed();
    JohnRendered();
    JohnResolved(table);
    ParsedFrom(table, RefParts("John", " ", "1", Some("1"), Some("28")));
  }

  // "Luke 4:14-30" (line 21): a verse range.

  lemma {:induction false} LukeWellFormed()
    ensures WellFormed(RefParts("Luke", " ", "4", Some("14"), Some("30")))
  {
    PatternIsBookToken("Luke", 0, 0);
  }

  lemma {:induction false} LukeRendered()
    ensures Render(RefParts("Luke", " ", "4", Some("14"), Some("30"))) == "Luke 4:14-30"
  {
  }

  lemma {:induction false} LukeResolved(table: map<string, string>)
    requires "Luke" in table
    ensures WellFormed(RefParts("Luke", " ", "4", Some("14"), Some("30"))) && Resolve(table, RefParts("Luke", " ", "4", Some("14"), Some("30"))) == Some(Reference(table["Luke"], 4, Some(14), Some(30)))
  {
    LukeWellFormed();
    TrimNoSurroundingSpace("Luke");
    RemoveSpacesOfNoSpace("Luke");
    assert DecimalValue("14") == 14 by {
      assert "14"[..1] == "1";
    }
    assert DecimalValue("30") == 30 by {
      assert "30"[..1] == "3";
    }
    ResolvedBy(table, RefParts("Luke", " ", "4", Some("14"), Some("30")), "Luke");
  }

  lemma {:induction false} LukeEntry()
    ensures "Luke" in BookAbbreviations && BookAbbreviations["Luke"] == "Luke"
  {
    GospelEntries();
    InGospels("Luke");
  }

  lemma {:induction false} VerseRangeExample(table: map<string, string>)
    requires "Luke" in table && table["Luke"] == "Luke"
    ensures ParseReferenceIn(table, "Luke 4:14-30") == Some(Reference("Luke", 4, Some(14), Some(30)))
  {
    LukeWellFormed();
    LukeRendered();
    LukeResolved(table);
    ParsedFrom(table, RefParts("Luke", " ", "4", Some("14"), Some("30")));
  }

  // "2 Tim 3:1-15" (line 21): a numbered book written with a space.

  lemma {:induction false} TimWellFormed()
    ensures WellFormed(RefParts("2 Tim", " ", "3", Some("1"), Some("15")))
  {
    var t := "2 Tim";
    assert t[..1] == "2" && t[1..2] == " " && t[2..] == "Tim";
    PatternIsBookToken(t, 1, 2);
  }

  lemma {:induction false} TimRendered()
    ensures Render(RefParts("2 Tim", " ", "3", Some("1"), Some("15"))) == "2 Tim 3:1-15"
  {
  }

  /** The space inside "2 Tim" is dropped before the lookup. */
  lemma {:induction false} TimTrimmed()
    ensures Trim("2 Tim") == "2 Tim"
  {
    TrimNoSurroundingSpace("2 Tim");
  }

  /** The space inside "2 Tim" is dropped before the lookup. */
  lemma {:induction false} TimKey()
    ensures RemoveSpaces("2 Tim") == "2Tim"
  {
  }

  lemma {:induction false} TimResolved(table: map<string, string>)
    requires "2Tim" in table
    ensures WellFormed(RefParts("2 Tim", " ", "3", Some("1"), Some("15"))) && Resolve(table, RefParts("2 Tim", " ", "3", Some("1"), Some("15"))) == Some(Reference(table["2Tim"], 3, Some(1), Some(15)))
  {
    TimWellFormed();
    TimTrimmed();
    TimKey();
    assert DecimalValue("15") == 15 by {
      assert "15"[..1] == "1";
    }
    ResolvedBy(table, RefParts("2 Tim", " ", "3", Some("1"), Some("15")), "2Tim");
  }

  lemma {:induction false} TimEntry()
    ensures "2Tim" in BookAbbreviations && BookAbbreviations["2Tim"] == "2 Timothy"
  {
    GospelEntries();
    EpistleEntries();
    InEpistles("2Tim");
  }

  lemma {:induction false} NumberedBookExample(table: map<string, string>)
    requires "2Tim" in table && table["2Tim"] == "2 Timothy"
    ensures ParseReferenceIn(table, "2 Tim 3:1-15") == Some(Reference("2 Timothy", 3, Some(1), Some(15)))
  {
    TimWellFormed();
    TimRendered();
    TimResolved(table);
    ParsedFrom(table, RefParts("2 Tim", " ", "3", Some("1"), Some("15")));
  }

  // "Isa 4:2-5; 11:1-5; 12:4-end" (line 20): only the first segment is read.

  lemma {:induction false} IsaWellFormed()
    ensures WellFormed(RefParts("Isa", " ", "4", Some("2"), Some("5")))
  {
    PatternIsBookToken("Isa", 0, 0);
  }

  lemma {:induction false} IsaRendered()
    ensures Render(RefParts("Isa", " ", "4", Some("2"), Some("5"))) == "Isa 4:2-5"
  {
  }

  lemma {:induction false} IsaResolved(table: map<string, string>)
    requires "Isa" in table
    ensures WellFormed(RefParts("Isa", " ", "4", Some("2"), Some("5"))) && Resolve(table, RefParts("Isa", " ", "4", Some("2"), Some("5"))) == Some(Reference(table["Isa"], 4, Some(2), Some(5)))
  {
    IsaWellFormed();
    TrimNoSurroundingSpace("Isa");
    RemoveSpacesOfNoSpace("Isa");
    ResolvedBy(table, RefParts("Isa", " ", "4", Some("2"), Some("5")), "Isa");
  }

  lemma {:induction false} IsaEntry()
    ensures "Isa" in BookAbbreviations && BookAbbreviations["Isa"] == "Isaiah"
  {
    GospelEntries();
    EpistleEntries();
    ProphetEntries();
    InProphets("Isa");
  }

  lemma {:induction false} FirstSegmentOnly(table: map<string, string>)
    requires "Isa" in table
    ensures ParseReferenceIn(table, "Isa 4:2-5") == Some(Reference(table["Isa"], 4, Some(2), Some(5)))
  {
    IsaWellFormed();
    IsaRendered();
    IsaResolved(table);
    ParsedFrom(table, RefParts("Isa", " ", "4", Some("2"), Some("5")));
  }

  lemma {:induction false} IsaOneSegment()
    ensures ';' !in "Isa 4:2-5"
  {
  }

  /** Whatever follows the first ';' is ignored, as in "Isa 4:2-5; 11:1-5; 12:4-end". */
  lemma {:induction false} FirstSegmentExample(table: map<string, string>, rest: string)
    requires "Isa" in table && table["Isa"] == "Isaiah"
    ensures ParseReferenceIn(table, "Isa 4:2-5" + ";" + rest) == Some(Reference("Isaiah", 4, Some(2), Some(5)))
  {
    IsaOneSegment();
    FirstSegmentOnly(table);
    OnlyFirstSegmentCounts(table, "Isa 4:2-5", rest);
  }

  // "Acts 1:1-14" (line 49): well formed, but "Acts" is not in the table.

  lemma {:induction false} ActsWellFormed()
    ensures WellFormed(RefParts("Acts", " ", "1", Some("1"), Some("14")))
  {
    PatternIsBookToken("Acts", 0, 0);
  }

  lemma {:induction false} ActsRendered()
    ensures Render(RefParts("Acts", " ", "1", Some("1"), Some("14"))) == "Acts 1:1-14"
  {
  }

  lemma {:induction false} ActsMissing()
    ensures "Acts" !in BookAbbreviations
  {
    GospelEntries();
    EpistleEntries();
    ProphetEntries();
    ActsNotInLaw();
    ActsNotInHistory();
    InNoRun("Acts");
  }

  lemma {:induction false} ActsResolved(table: map<string, string>)
    requires "Acts" !in table
    ensures WellFormed(RefParts("Acts", " ", "1", Some("1"), Some("14"))) && Resolve(table, RefParts("Acts", " ", "1", Some("1"), Some("14"))) == None
  {
    ActsWellFormed();
    TrimNoSurroundingSpace("Acts");
    RemoveSpacesOfNoSpace("Acts");
    ResolvedBy(table, RefParts("Acts", " ", "1", Some("1"), Some("14")), "Acts");
  }

  /** Under any table without "Acts", as the source's table is (`ActsMissing`). */
  lemma {:induction false} UnknownBookExample(table: map<string, string>)
    requires "Acts" !in table
    ensures ParseReferenceIn(table, "Acts 1:1-14") == None
  {
    ActsWellFormed();
    ActsRendered();
    ActsResolved(table);
    ParsedFrom(table, RefParts("Acts", " ", "1", Some("1"), Some("14")));
  }

  // "Titus 2:11-3:7" (line 20): a range across chapters does not fit the pattern.

  lemma {:induction false} CrossChapterVerses()
    ensures MatchVerses("11-3:7") == None
  {
    assert "11-3:7" == "11" + "-3:7";
    LeadRunOf("11", "-3:7", Digit);
    assert "11-3:7"[3..] == "3:7";
    assert !IsDigit("3:7"[1]);
  }

  lemma {:induction false} CrossChapterNumbers()
    ensures MatchNumbers("2:11-3:7") == None
  {
    assert "2:11-3:7" == "2" + ":11-3:7";
    LeadRunOf("2", ":11-3:7", Digit);
    assert "2:11-3:7"[2..] == "11-3:7";
    CrossChapterVerses();
  }

  lemma {:induction false} CrossChapterMatch()
    ensures MatchReference("Titus 2:11-3:7") == None
  {
    var s := "Titus 2:11-3:7";
    assert s == "Titus " + "2:11-3:7";
    TrailRunOf("Titus ", "2:11-3:7", NonSpace);
    assert s[..|s| - 8] == "Titus" + " ";
    TrailRunOf("Titus", " ", Space);
    assert s[|s| - 8..] == "2:11-3:7";
    CrossChapterNumbers();
  }

  lemma {:induction false} TitusTrimmed()
    ensures Trim("Titus 2:11-3:7") == "Titus 2:11-3:7"
  {
    TrimNoSurroundingSpace("Titus 2:11-3:7");
  }

  lemma {:induction false} TitusOneSegment()
    ensures Split("Titus 2:11-3:7", ';') == ["Titus 2:11-3:7"]
  {
    SplitNoSep("Titus 2:11-3:7", ';');
  }

  /** Whatever the table holds. */
  lemma {:induction false} CrossChapterRangeRejected(table: map<string, string>)
    ensures ParseReferenceIn(table, "Titus 2:11-3:7") == None
  {
    TitusTrimmed();
    TitusOneSegment();
    CrossChapterMatch();
  }

  // "Num 24:2-9, 15-end" (line 20): after the last space only "15-end" is left for the
  // numbers, and it does not fit them.

  lemma {:induction false} VerseListNumbers()
    ensures MatchNumbers("15-end") == None
  {
    assert "15-end" == "15" + "-end";
    LeadRunOf("15", "-end", Digit);
  }

  lemma {:induction false} VerseListMatch()
    ensures MatchReference("Num 24:2-9, 15-end") == None
  {
    var s := "Num 24:2-9, 15-end";
    assert s == "Num 24:2-9, " + "15-end";
    TrailRunOf("Num 24:2-9, ", "15-end", NonSpace);
    assert s[|s| - 6..] == "15-end";
    VerseListNumbers();
  }

  lemma {:induction false} VerseListTrimmed()
    ensures Trim("Num 24:2-9, 15-end") == "Num 24:2-9, 15-end"
  {
    TrimNoSurroundingSpace("Num 24:2-9, 15-end");
  }

  lemma {:induction false} VerseListOneSegment()
    ensures Split("Num 24:2-9, 15-end", ';') == ["Num 24:2-9, 15-end"]
  {
    SplitNoSep("Num 24:2-9, 15-end", ';');
  }

  lemma {:induction false} VerseListRejected(table: map<string, string>)
    ensures ParseReferenceIn(table, "Num 24:2-9, 15-end") == None
  {
    VerseListTrimmed();
    VerseListOneSegment();
    VerseListMatch();
  }

  // The same citations under `bookAbbreviations` itself.

  lemma {:induction false} MattParsed()
    ensures ParseReference("Matt 3") == Some(Reference("Matthew", 3, None, None))
  {
    MattEntry();
    ChapterOnlyExample(BookAbbreviations);
  }

  lemma {:induction false} LukeParsed()
    ensures ParseReference("Luke 4:14-30") == Some(Reference("Luke", 4, Some(14), Some(30)))
  {
    LukeEntry();
    VerseRangeExample(BookAbbreviations);
  }

  lemma {:induction false} TimParsed()
    ensures ParseReference("2 Tim 3:1-15") == Some(Reference("2 Timothy", 3, Some(1), Some(15)))
  {
    TimEntry();
    NumberedBookExample(BookAbbreviations);
  }

  lemma {:induction false} IsaParsed()
    ensures ParseReference("Isa 4:2-5" + ";" + " 11:1-5; 12:4-end") == Some(Reference("Isaiah", 4, Some(2), Some(5)))
  {
    IsaEntry();
    FirstSegmentExample(BookAbbreviations, " 11:1-5; 12:4-end");
  }

  lemma {:induction false} ActsParsed()
    ensures ParseReference("Acts 1:1-14") == None
  {
    ActsMissing();
    UnknownBookExample(BookAbbreviations);
  }

  lemma {:induction false} TitusParsed()
    ensures ParseReference("Titus 2:11-3:7") == None
  {
    CrossChapterRangeRejected(BookAbbreviations);
  }

  lemma {:induction false} MtParsed()
    ensures ParseReference("Mt 3") == Some(Reference("Matthew", 3, None, None))
  {
    MtEntry();
    ShortAbbreviationExample(BookAbbreviations);
  }

  lemma {:induction false} JohnParsed()
    ensures ParseReference("John 1:1-28") == Some(Reference("John", 1, Some(1), Some(28)))
  {
    JohnEntry();
    FirstVersesExample(BookAbbreviations);
  }

  lemma {:induction false} NumParsed()
    ensures ParseReference("Num 24:2-9, 15-end") == None
  {
    VerseListRejected(BookAbbreviations);
  }
}
