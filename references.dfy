/** `parseReference` and its book table (lib/supabase.ts): a loose citation such as
    "Mt 3", "2 Tim 3:1-15" or "Luke 4:14-30" becomes a book, a chapter and an optional
    verse range, or nothing. Only the text before the first `;` is read; it must fit
    `^(\d?\s*\w+)\s+(\d+)(?::(\d+)(?:-(\d+))?)?$`, and the book token, with its
    whitespace removed, must be a key of the table. */
module References {
  import opened Text

  /** `bookAbbreviations`, lines 75-147. The source lists the entries in five runs (gospels,
      law, history, prophets, epistles); no key occurs in two runs, so the union of the five
      maps, in any order, is the source's object literal. */
  const BookAbbreviations: map<string, string> := Law + History + Prophets + Epistles + Gospels

  const Gospels: map<string, string> := map[
    "Mt" := "Matthew", "Matt" := "Matthew",
    "Mk" := "Mark", "Mark" := "Mark",
    "Lk" := "Luke", "Luke" := "Luke",
    "Jn" := "John", "John" := "John"
  ]

  const Law: map<string, string> := map[
    "Gen" := "Genesis", "Genesis" := "Genesis",
    "Ex" := "Exodus", "Exo" := "Exodus", "Exodus" := "Exodus",
    "Lev" := "Leviticus", "Leviticus" := "Leviticus",
    "Num" := "Numbers", "Numbers" := "Numbers",
    "Deu" := "Deuteronomy", "Deut" := "Deuteronomy", "Deuteronomy" := "Deuteronomy"
  ]

  const History: map<string, string> := map[
    "Jos" := "Joshua", "Josh" := "Joshua", "Joshua" := "Joshua",
    "Jdg" := "Judges", "Judg" := "Judges", "Judges" := "Judges",
    "1Sam" := "1 Samuel", "2Sam" := "2 Samuel",
    "1Kgs" := "1 Kings", "2Kgs" := "2 Kings"
  ]

  const Prophets: map<string, string> := map[
    "Isa" := "Isaiah", "Isaiah" := "Isaiah",
    "Jer" := "Jeremiah", "Jeremiah" := "Jeremiah",
    "Ezek" := "Ezekiel", "Ezekiel" := "Ezekiel",
    "Dan" := "Daniel", "Daniel" := "Daniel",
    "Joel" := "Joel",
    "Amo" := "Amos", "Amos" := "Amos",
    "Jon" := "Jonah", "Jonah" := "Jonah",
    "Mic" := "Micah", "Micah" := "Micah",
    "Hab" := "Habakkuk", "Habakkuk" := "Habakkuk",
    "Zech" := "Zechariah", "Zechariah" := "Zechariah"
  ]

  const Epistles: map<string, string> := map[
    "Rom" := "Romans", "Romans" := "Romans",
    "1Cor" := "1 Corinthians", "2Cor" := "2 Corinthians",
    "Gal" := "Galatians", "Galatians" := "Galatians",
    "Eph" := "Ephesians", "Ephesians" := "Ephesians",
    "Phil" := "Philippians", "Philippians" := "Philippians",
    "Col" := "Colossians", "Colossians" := "Colossians",
    "1Thes" := "1 Thessalonians", "1Thess" := "1 Thessalonians",
    "2Thes" := "2 Thessalonians", "2Thess" := "2 Thessalonians",
    "1Tim" := "1 Timothy", "2Tim" := "2 Timothy",
    "Tit" := "Titus", "Titus" := "Titus",
    "Heb" := "Hebrews", "Hebrews" := "Hebrews"
  ]

  /** The object `parseReference` returns; an absent verse is `undefined` there. */
  datatype Reference = Reference(book: string, chapter: nat, startVerse: Option<nat>, endVerse: Option<nat>)

  /** The four capture groups of a match, plus the whitespace run `\s+` that the pattern
      skips between the book token and the chapter. */
  datatype RefParts = RefParts(bookAbbr: string, gap: string, chapter: string,
                               startVerse: Option<string>, endVerse: Option<string>)

  predicate IsDigitRun(s: string) { s != [] && AllDigits(s) }

  /** The book token `\d?\s*\w+`, decided without backtracking: either no leading digit
      is taken (any leading whitespace then belongs to `\s*`), or the first character is
      the digit and the whitespace after it belongs to `\s*`. */
  predicate IsBookToken(t: string) {
    var n := LeadRun(t, Space);
    (n < |t| && AllWord(t[n..]))
    || (|t| > 0 && IsDigit(t[0]) && 1 + LeadRun(t[1..], Space) < |t| && AllWord(t[1 + LeadRun(t[1..], Space)..]))
  }

  /** `\d?\s*\w+` read as the regular language it denotes. */
  ghost predicate BookPattern(t: string) {
    exists i, j :: 0 <= i <= 1 && i <= j < |t| && AllDigits(t[..i]) && AllSpace(t[i..j]) && AllWord(t[j..])
  }

  lemma {:induction false} BookTokenHasPattern(t: string)
    requires IsBookToken(t)
    ensures BookPattern(t)
  {
    var n := LeadRun(t, Space);
    if n < |t| && AllWord(t[n..]) {
      assert AllDigits(t[..0]) && AllSpace(t[0..n]);
    } else {
      var m := 1 + LeadRun(t[1..], Space);
      assert AllDigits(t[..1]);
      assert AllSpace(t[1..m]) by {
        forall k | 0 <= k < m - 1 ensures IsSpace(t[1..m][k]) {
          assert t[1..m][k] == t[1..][k];
        }
      }
    }
  }

  lemma {:induction false} PatternIsBookToken(t: string, i: nat, j: nat)
    requires i <= 1 && i <= j < |t| && AllDigits(t[..i]) && AllSpace(t[i..j]) && AllWord(t[j..])
    ensures IsBookToken(t)
  {
    var w := t[j..];
    assert IsWordChar(w[0]);
    if i == 0 {
      assert t == t[..j] + w;
      LeadRunOf(t[..j], w, Space);
    } else {
      assert IsDigit(t[..1][0]);
      assert t[1..] == t[1..j] + w;
      LeadRunOf(t[1..j], w, Space);
    }
  }

  lemma {:induction false} BookTokenIsPattern(t: string)
    ensures IsBookToken(t) <==> BookPattern(t)
  {
    if IsBookToken(t) {
      BookTokenHasPattern(t);
    }
    if BookPattern(t) {
      var i: nat, j: nat :| i <= 1 && i <= j < |t| && AllDigits(t[..i]) && AllSpace(t[i..j]) && AllWord(t[j..]);
      PatternIsBookToken(t, i, j);
    }
  }

  /** A book token is made of whitespace and word characters only. */
  lemma {:induction false} BookTokenChars(t: string)
    requires IsBookToken(t)
    ensures forall k :: 0 <= k < |t| ==> IsSpace(t[k]) || IsWordChar(t[k])
  {
    var n := LeadRun(t, Space);
    if n < |t| && AllWord(t[n..]) {
      forall k | n <= k < |t| ensures IsWordChar(t[k]) {
        assert t[k] == t[n..][k - n];
      }
    } else {
      var m := 1 + LeadRun(t[1..], Space);
      forall k | 1 <= k < |t| ensures IsSpace(t[k]) || IsWordChar(t[k]) {
        if k < m {
          assert t[k] == t[1..][k - 1];
        } else {
          assert t[k] == t[m..][k - m];
        }
      }
    }
  }

  lemma {:induction false} BookTokenEndsInWord(t: string)
    requires IsBookToken(t)
    ensures t != [] && IsWordChar(t[|t| - 1])
  {
    var n := LeadRun(t, Space);
    if n < |t| && AllWord(t[n..]) {
      assert t[|t| - 1] == t[n..][|t| - 1 - n];
    } else {
      var m := 1 + LeadRun(t[1..], Space);
      assert t[|t| - 1] == t[m..][|t| - 1 - m];
    }
  }

  predicate WellFormed(p: RefParts) {
    && IsBookToken(p.bookAbbr)
    && p.gap != [] && AllSpace(p.gap)
    && IsDigitRun(p.chapter)
    && (p.startVerse.Some? ==> IsDigitRun(p.startVerse.value))
    && (p.endVerse.Some? ==> p.startVerse.Some? && IsDigitRun(p.endVerse.value))
  }

  /** `(\d+)(?:-(\d+))?` written out from its groups. */
  function VersesText(startVerse: string, endVerse: Option<string>): string {
    startVerse + (if endVerse.Some? then ['-'] + endVerse.value else [])
  }

  /** `(\d+)(?::(\d+)(?:-(\d+))?)?` written out from its groups. */
  function NumbersText(chapter: string, startVerse: Option<string>, endVerse: Option<string>): string {
    chapter + (if startVerse.Some? then [':'] + VersesText(startVerse.value, endVerse) else [])
  }

  /** The text a match is made of. */
  function Render(p: RefParts): string {
    p.bookAbbr + p.gap + NumbersText(p.chapter, p.startVerse, p.endVerse)
  }

  /** Recognises `(\d+)(?:-(\d+))?$`; the result renders back to `t`. */
  function MatchVerses(t: string): (r: Option<(string, Option<string>)>)
    ensures r.Some? ==> VersesText(r.value.0, r.value.1) == t
    ensures r.Some? ==> IsDigitRun(r.value.0) && (r.value.1.Some? ==> IsDigitRun(r.value.1.value))
  {
    var n := LeadRun(t, Digit);
    if n == 0 then None
    else if n == |t| then Some((t, None))
    else if t[n] != '-' then None
    else
      var last := t[n + 1..];
      assert t == t[..n] + ['-'] + last;
      if last != [] && AllDigits(last) then Some((t[..n], Some(last))) else None
  }

  /** Recognises `(\d+)(?::(\d+)(?:-(\d+))?)?$`; the result renders back to `t`. */
  function MatchNumbers(t: string): (r: Option<(string, Option<string>, Option<string>)>)
    ensures r.Some? ==> NumbersText(r.value.0, r.value.1, r.value.2) == t
    ensures r.Some? ==> IsDigitRun(r.value.0)
                        && (r.value.1.Some? ==> IsDigitRun(r.value.1.value))
                        && (r.value.2.Some? ==> r.value.1.Some? && IsDigitRun(r.value.2.value))
  {
    var n := LeadRun(t, Digit);
    if n == 0 then None
    else if n == |t| then Some((t, None, None))
    else if t[n] != ':' then None
    else
      assert t == t[..n] + [':'] + t[n + 1..];
      match MatchVerses(t[n + 1..])
      case None => None
      case Some((sv, ev)) => Some((t[..n], Some(sv), ev))
  }

  lemma {:induction false} MatchVersesComplete(sv: string, ev: Option<string>)
    requires IsDigitRun(sv)
    requires ev.Some? ==> IsDigitRun(ev.value)
    ensures MatchVerses(VersesText(sv, ev)) == Some((sv, ev))
  {
    var t := VersesText(sv, ev);
    if ev.None? {
      assert t == sv + [];
      LeadRunOf(sv, [], Digit);
    } else {
      LeadRunOf(sv, ['-'] + ev.value, Digit);
      assert t[|sv| + 1..] == ev.value;
      assert t[..|sv|] == sv;
    }
  }

  lemma {:induction false} MatchNumbersComplete(c: string, sv: Option<string>, ev: Option<string>)
    requires IsDigitRun(c)
    requires sv.Some? ==> IsDigitRun(sv.value)
    requires ev.Some? ==> sv.Some? && IsDigitRun(ev.value)
    ensures MatchNumbers(NumbersText(c, sv, ev)) == Some((c, sv, ev))
  {
    var t := NumbersText(c, sv, ev);
    if sv.None? {
      assert t == c + [];
      LeadRunOf(c, [], Digit);
    } else {
      var rest := VersesText(sv.value, ev);
      LeadRunOf(c, [':'] + rest, Digit);
      assert t[|c| + 1..] == rest;
      assert t[..|c|] == c;
      MatchVersesComplete(sv.value, ev);
    }
  }

  /** Recognises the whole pattern. The match, when there is one, is unique: the book
      token ends in a word character and the numbers contain no whitespace, so `\s+` is
      the last whitespace run of the text. */
  function MatchReference(s: string): Option<RefParts> {
    var head := s[..|s| - TrailRun(s, NonSpace)];
    var gapLen := TrailRun(head, Space);
    var book := head[..|head| - gapLen];
    var gap := head[|head| - gapLen..];
    if gapLen == 0 || !IsBookToken(book) then None
    else
      match MatchNumbers(s[|head|..])
      case None => None
      case Some((chapter, startVerse, endVerse)) => Some(RefParts(book, gap, chapter, startVerse, endVerse))
  }

  /** Every match is well formed and renders back to the text it was found in. */
  lemma {:induction false} MatchReferenceSound(s: string)
    ensures MatchReference(s).Some? ==> WellFormed(MatchReference(s).value) && Render(MatchReference(s).value) == s
  {
    if MatchReference(s).Some? {
      var p := MatchReference(s).value;
      var head := s[..|s| - TrailRun(s, NonSpace)];
      var tail := s[|head|..];
      var gapLen := TrailRun(head, Space);
      assert s == head + tail;
      assert head == p.bookAbbr + p.gap;
      assert AllSpace(p.gap) by {
        forall k | 0 <= k < |p.gap| ensures IsSpace(p.gap[k]) {
          assert p.gap[k] == head[|head| - gapLen + k];
        }
      }
      assert NumbersText(p.chapter, p.startVerse, p.endVerse) == tail;
    }
  }

  lemma {:induction false} NumbersHaveNoSpace(c: string, sv: Option<string>, ev: Option<string>)
    requires IsDigitRun(c)
    requires sv.Some? ==> IsDigitRun(sv.value)
    requires ev.Some? ==> IsDigitRun(ev.value)
    ensures forall k :: 0 <= k < |NumbersText(c, sv, ev)| ==> IsNonSpace(NumbersText(c, sv, ev)[k])
  {
    var nums := NumbersText(c, sv, ev);
    forall k | 0 <= k < |nums| ensures IsNonSpace(nums[k]) {
      if k < |c| {
        assert nums[k] == c[k];
      }
    }
  }

  /** Every well-formed match is recognised from its own text. */
  lemma {:induction false} MatchReferenceComplete(p: RefParts)
    requires WellFormed(p)
    ensures MatchReference(Render(p)) == Some(p)
  {
    var nums := NumbersText(p.chapter, p.startVerse, p.endVerse);
    var s := Render(p);
    NumbersHaveNoSpace(p.chapter, p.startVerse, p.endVerse);
    BookTokenEndsInWord(p.bookAbbr);
    var bg := p.bookAbbr + p.gap;
    assert bg[|bg| - 1] == p.gap[|p.gap| - 1];
    TrailRunOf(bg, nums, NonSpace);
    assert s[..|s| - |nums|] == bg;
    TrailRunOf(p.bookAbbr, p.gap, Space);
    assert bg[..|bg| - |p.gap|] == p.bookAbbr;
    assert bg[|bg| - |p.gap|..] == p.gap;
    assert s[|s| - |nums|..] == nums;
    MatchNumbersComplete(p.chapter, p.startVerse, p.endVerse);
  }

  function DecimalOf(s: Option<string>): Option<nat>
    requires s.Some? ==> AllDigits(s.value)
  {
    if s.Some? then Some(DecimalValue(s.value)) else None
  }

  /** Lines 162-176: look the whitespace-free book token up in `table` and convert the
      digit runs. */
  function Resolve(table: map<string, string>, p: RefParts): Option<Reference>
    requires WellFormed(p)
  {
    var key := RemoveSpaces(Trim(p.bookAbbr));
    if key !in table then None
    else Some(Reference(table[key], DecimalValue(p.chapter), DecimalOf(p.startVerse), DecimalOf(p.endVerse)))
  }

  /** `reference.split(';')[0].trim()` */
  function FirstSegment(reference: string): string {
    Trim(Split(reference, ';')[0])
  }

  /** `parseReference` over a given abbreviation table. */
  function ParseReferenceIn(table: map<string, string>, reference: string): (r: Option<Reference>)
    ensures Trim(reference) == [] ==> r == None
    ensures r.Some? ==> r.value.book in table.Values
    ensures r.Some? && r.value.endVerse.Some? ==> r.value.startVerse.Some?
  {
    if Trim(reference) == [] then None
    else
      match MatchReference(FirstSegment(reference))
      case None => None
      case Some(p) =>
        MatchReferenceSound(FirstSegment(reference));
        Resolve(table, p)
  }

  /** `parseReference` itself, over `bookAbbreviations`. */
  function ParseReference(reference: string): (r: Option<Reference>)
    ensures Trim(reference) == [] ==> r == None
    ensures r.Some? ==> r.value.book in BookAbbreviations.Values
  {
    ParseReferenceIn(BookAbbreviations, reference)
  }

  lemma {:induction false} RemoveSpacesIgnoresTrim(t: string)
    ensures RemoveSpaces(Trim(t)) == RemoveSpaces(t)
  {
    var a := LeadRun(t, Space);
    var u := t[a..];
    var b := TrailRun(u, Space);
    TrimRuns(t);
    assert Trim(t) == u[..|u| - b];
    SplitAtLeadRun(t, a);
    DropTrailingSpace(u, b);
  }

  lemma {:induction false} SplitAtLeadRun(t: string, a: nat)
    requires a == LeadRun(t, Space)
    ensures RemoveSpaces(t[a..]) == RemoveSpaces(t)
  {
    var lead := t[..a];
    assert t == lead + t[a..];
    RemoveSpacesAppend(lead, t[a..]);
    RemoveSpacesOfAllSpace(lead);
  }

  lemma {:induction false} DropTrailingSpace(u: string, b: nat)
    requires b == TrailRun(u, Space)
    ensures RemoveSpaces(u[..|u| - b]) == RemoveSpaces(u)
  {
    var mid, tail := u[..|u| - b], u[|u| - b..];
    assert u == mid + tail;
    RemoveSpacesAppend(mid, tail);
    assert AllSpace(tail) by {
      forall k | 0 <= k < |tail| ensures IsSpace(tail[k]) {
        assert tail[k] == u[|u| - b + k];
      }
    }
    RemoveSpacesOfAllSpace(tail);
  }

  /** Whenever the first segment fits the pattern, the result is decided by the table
      lookup of the whitespace-free book token alone, and the numbers are the decimal
      values of their digit runs (no check that they are positive or ordered). */
  lemma {:induction false} ParseReferenceOfParts(table: map<string, string>, reference: string, p: RefParts)
    requires WellFormed(p) && FirstSegment(reference) == Render(p)
    ensures ParseReferenceIn(table, reference).Some? <==> RemoveSpaces(p.bookAbbr) in table
    ensures ParseReferenceIn(table, reference).Some? ==>
      ParseReferenceIn(table, reference).value
        == Reference(table[RemoveSpaces(p.bookAbbr)], DecimalValue(p.chapter),
                     DecimalOf(p.startVerse), DecimalOf(p.endVerse))
  {
    MatchReferenceComplete(p);
    RemoveSpacesIgnoresTrim(p.bookAbbr);
    var seg := Split(reference, ';')[0];
    SplitFirstPrefix(reference, ';');
    TrimSpec(seg);
    TrimSpec(reference);
    var i :| 0 <= i < |seg| && !IsSpace(seg[i]);
    assert reference[i] == seg[i];
  }

  /** Conversely, every non-null result comes from a match of the first segment whose
      whitespace-free book token is a key of the table. */
  lemma {:induction false} ParseReferenceHasParts(table: map<string, string>, reference: string) returns (p: RefParts)
    requires ParseReferenceIn(table, reference).Some?
    ensures WellFormed(p) && Render(p) == FirstSegment(reference)
    ensures RemoveSpaces(p.bookAbbr) in table
    ensures ParseReferenceIn(table, reference).value
              == Reference(table[RemoveSpaces(p.bookAbbr)], DecimalValue(p.chapter),
                           DecimalOf(p.startVerse), DecimalOf(p.endVerse))
  {
    p := MatchReference(FirstSegment(reference)).value;
    MatchReferenceSound(FirstSegment(reference));
    RemoveSpacesIgnoresTrim(p.bookAbbr);
  }

  /** Only the text before the first `;` matters. */
  lemma {:induction false} OnlyFirstSegmentCounts(table: map<string, string>, a: string, b: string)
    requires ';' !in a
    ensures ParseReferenceIn(table, a + ";" + b) == ParseReferenceIn(table, a)
  {
    var s := a + ";" + b;
    assert s == a + [';'] + b;
    SplitAfter(a, b, ';');
    SplitNoSep(a, ';');
    assert FirstSegment(s) == FirstSegment(a) == Trim(a);
    assert s[|a|] == ';';
    TrimSpec(s);
    assert Trim(s) != [];
    if Trim(a) == [] {
      assert MatchReference([]) == None;
    }
  }

  /** The whitespace between a leading digit and the rest of the book token is ignored:
      "2 Tim 3" and "2Tim 3" are the same citation. */
  lemma {:induction false} SpaceAfterBookNumberIgnored(table: map<string, string>, d: char, g: string, w: string,
                                                       gap: string, c: string, sv: Option<string>, ev: Option<string>)
    requires IsDigit(d) && g != [] && AllSpace(g) && w != [] && AllWord(w)
    requires gap != [] && AllSpace(gap) && IsDigitRun(c)
    requires sv.Some? ==> IsDigitRun(sv.value)
    requires ev.Some? ==> sv.Some? && IsDigitRun(ev.value)
    ensures ParseReferenceIn(table, [d] + g + w + gap + NumbersText(c, sv, ev))
         == ParseReferenceIn(table, [d] + w + gap + NumbersText(c, sv, ev))
  {
    var spaced := RefParts([d] + g + w, gap, c, sv, ev);
    var joined := RefParts([d] + w, gap, c, sv, ev);
    var t := spaced.bookAbbr;
    assert t[..1] == [d] && t[1..1 + |g|] == g && t[1 + |g|..] == w;
    PatternIsBookToken(t, 1, 1 + |g|);
    var u := joined.bookAbbr;
    assert u[..1] == [d] && u[1..1] == [] && u[1..] == w;
    PatternIsBookToken(u, 1, 1);
    SpacedBookKey(d, g, w);
    RenderedIsFirstSegment(spaced);
    RenderedIsFirstSegment(joined);
    ParseReferenceOfParts(table, Render(spaced), spaced);
    ParseReferenceOfParts(table, Render(joined), joined);
  }

  lemma {:induction false} SpacedBookKey(d: char, g: string, w: string)
    requires IsDigit(d) && AllSpace(g) && AllWord(w)
    ensures RemoveSpaces([d] + g + w) == RemoveSpaces([d] + w) == [d] + w
  {
    assert forall k :: 0 <= k < |w| ==> IsNonSpace(w[k]) by {
      forall k | 0 <= k < |w| ensures IsNonSpace(w[k]) {
        assert IsWordChar(w[k]);
      }
    }
    RemoveSpacesAppend([d] + g, w);
    RemoveSpacesAppend([d], g);
    RemoveSpacesOfAllSpace(g);
    RemoveSpacesAppend([d], w);
    RemoveSpacesOfNoSpace(w);
    assert RemoveSpaces([d]) == [d];
  }

  /** A rendered match that starts with a non-space character has no `;` and no
      surrounding whitespace, so it is its own first segment. */
  lemma {:induction false} RenderedIsFirstSegment(p: RefParts)
    requires WellFormed(p) && p.bookAbbr != [] && IsNonSpace(p.bookAbbr[0])
    ensures FirstSegment(Render(p)) == Render(p)
  {
    var s := Render(p);
    var nums := NumbersText(p.chapter, p.startVerse, p.endVerse);
    BookTokenEndsInWord(p.bookAbbr);
    RenderedHasNoSemicolon(p);
    SplitNoSep(s, ';');
    assert s[0] == p.bookAbbr[0];
    assert s[|s| - 1] == nums[|nums| - 1];
    TrimNoSurroundingSpace(s);
  }

  lemma {:induction false} RenderedHasNoSemicolon(p: RefParts)
    requires WellFormed(p)
    ensures ';' !in Render(p)
  {
    var nums := NumbersText(p.chapter, p.startVerse, p.endVerse);
    BookTokenChars(p.bookAbbr);
    NumbersHaveNoSpace(p.chapter, p.startVerse, p.endVerse);
    assert forall k :: 0 <= k < |p.bookAbbr| ==> p.bookAbbr[k] != ';';
    assert forall k :: 0 <= k < |nums| ==> nums[k] != ';';
    assert forall k :: 0 <= k < |p.gap| ==> p.gap[k] != ';';
    assert Render(p) == p.bookAbbr + p.gap + nums;
  }
}
