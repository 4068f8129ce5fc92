/** The loop both import scripts run over the lines of the verse CSV
    (scripts/import-bible-verses.js:12-47, scripts/import-to-supabase.js:26-60): the first
    line is a header, blank and unmatched lines are skipped, and an empty book or chapter
    field means "the same as the line before". */
module CsvLines {
  import opened Text
  import opened CsvFields

  /** A parsed verse with every field a string, as scripts/import-bible-verses.js keeps it
      for the SQL text. */
  datatype VerseRecord = VerseRecord(
    book: string, chapter: string, verse: string,
    assyrian: string, transliteration: string, english: string)

  /** `currentBook` and `currentChapter` */
  datatype Carry = Carry(book: string, chapter: string)

  const Start: Carry := Carry("", "")

  /** The cleaned fields of a line, when it is not blank and has the six-field shape. */
  function LineFields(d: Dialect, raw: string): Option<Fields> {
    var line := Trim(raw);
    if line == [] then None
    else
      match MatchLine(line)
      case None => None
      case Some(f) => Some(CleanFields(d, f))
  }

  /** The cleaned fields of every line. */
  function FieldsOf(d: Dialect, lines: seq<string>): (r: seq<Option<Fields>>)
    ensures |r| == |lines|
  {
    if lines == [] then [] else FieldsOf(d, lines[..|lines| - 1]) + [LineFields(d, lines[|lines| - 1])]
  }

  /** One pass of the loop body on a line's cleaned fields: the carry after the line and
      the record it adds, if any. */
  function Step(c: Carry, line: Option<Fields>): (Carry, Option<VerseRecord>) {
    match line
    case None => (c, None)
    case Some(f) =>
      var next := Carry(if f.book != [] then f.book else c.book,
                        if f.chapter != [] then f.chapter else c.chapter);
      if next.book != [] && next.chapter != [] && f.verse != [] then
        (next, Some(VerseRecord(next.book, next.chapter, f.verse, f.assyrian, f.transliteration, f.english)))
      else (next, None)
  }

  lemma {:induction false} StepOf(c: Carry, f: Fields)
    ensures var next := Carry(if f.book != [] then f.book else c.book, if f.chapter != [] then f.chapter else c.chapter);
            Step(c, Some(f)) == (next, if next.book != [] && next.chapter != [] && f.verse != []
                                       then Some(VerseRecord(next.book, next.chapter, f.verse, f.assyrian, f.transliteration, f.english))
                                       else None)
  {
  }

  function Emitted(o: Option<VerseRecord>): seq<VerseRecord> {
    if o.Some? then [o.value] else []
  }

  /** The loop over the lines' fields from carry `c`: the final carry and the records in
      order. */
  function Run(c: Carry, fs: seq<Option<Fields>>): (Carry, seq<VerseRecord>) {
    if fs == [] then (c, [])
    else
      var before := Run(c, fs[..|fs| - 1]);
      var step := Step(before.0, fs[|fs| - 1]);
      (step.0, before.1 + Emitted(step.1))
  }

  /** The lines after the header. */
  function Body(lines: seq<string>): (r: seq<string>)
    ensures |r| == if lines == [] then 0 else |lines| - 1
    ensures forall k :: 0 <= k < |r| ==> r[k] == lines[k + 1]
  {
    if lines == [] then [] else lines[1..]
  }

  /** The `verses` array both scripts build from the lines of the file. */
  function ParseVerses(d: Dialect, lines: seq<string>): seq<VerseRecord> {
    Run(Start, FieldsOf(d, Body(lines))).1
  }

  lemma {:induction false} FieldsOfAt(d: Dialect, lines: seq<string>, k: nat)
    requires k < |lines|
    ensures FieldsOf(d, lines)[k] == LineFields(d, lines[k])
    decreases |lines|
  {
    if k < |lines| - 1 {
      FieldsOfAt(d, lines[..|lines| - 1], k);
    }
  }

  lemma {:induction false} TakeSnoc<T>(s: seq<T>, n: nat)
    requires n < |s|
    ensures s[..n + 1] == s[..n] + [s[n]]
  {
  }

  lemma {:induction false} FieldsOfSnoc(d: Dialect, a: seq<string>, raw: string)
    ensures FieldsOf(d, a + [raw]) == FieldsOf(d, a) + [LineFields(d, raw)]
  {
    assert (a + [raw])[..|a|] == a;
  }

  /** The loop after one more line. */
  lemma {:induction false} RunSnoc(c: Carry, fs: seq<Option<Fields>>, f: Option<Fields>)
    ensures var step := Step(Run(c, fs).0, f);
            Run(c, fs + [f]) == (step.0, Run(c, fs).1 + Emitted(step.1))
  {
    assert (fs + [f])[..|fs|] == fs;
  }

  /** The body of the loop for one line: the carried book and chapter after it, and the
      record it adds, if any. */
  method ReadLine(d: Dialect, currentBook: string, currentChapter: string, raw: string)
    returns (book: string, chapter: string, record: Option<VerseRecord>)
    ensures (Carry(book, chapter), record) == Step(Carry(currentBook, currentChapter), LineFields(d, raw))
  {
    book, chapter, record := currentBook, currentChapter, None;
    var line := Trim(raw);
    if line != [] {
      var m := MatchLine(line);
      if m.Some? {
        var f := CleanFields(d, m.value);
        if f.book != [] {
          book := f.book;
        }
        if f.chapter != [] {
          chapter := f.chapter;
        }
        if book != [] && chapter != [] && f.verse != [] {
          record := Some(VerseRecord(book, chapter, f.verse, f.assyrian, f.transliteration, f.english));
        }
        StepOf(Carry(currentBook, currentChapter), f);
      }
    }
  }

  /** `fs` holds the cleaned fields of each line after the header. */
  predicate LinesRead(d: Dialect, lines: seq<string>, fs: seq<Option<Fields>>) {
    |fs| == |Body(lines)| && forall k :: 0 <= k < |fs| ==> fs[k] == LineFields(d, lines[k + 1])
  }

  lemma {:induction false} BodyRead(d: Dialect, lines: seq<string>)
    ensures LinesRead(d, lines, FieldsOf(d, Body(lines)))
  {
    var fs := FieldsOf(d, Body(lines));
    forall k | 0 <= k < |fs|
      ensures fs[k] == LineFields(d, lines[k + 1])
    {
      FieldsOfAt(d, Body(lines), k);
    }
  }

  /** scripts/import-bible-verses.js:12-47 (with `Dialect` `DirectInsert`, the same loop
      in scripts/import-to-supabase.js:26-60 before `parseInt`) */
  method ParseVerseLines(d: Dialect, lines: seq<string>) returns (verses: seq<VerseRecord>)
    ensures verses == ParseVerses(d, lines)
  {
    BodyRead(d, lines);
    verses := ReadVerseLines(d, lines, FieldsOf(d, Body(lines)));
  }

  /** The loop of scripts/import-bible-verses.js:15-47 over lines whose fields are `fs`. */
  method ReadVerseLines(d: Dialect, lines: seq<string>, ghost fs: seq<Option<Fields>>) returns (verses: seq<VerseRecord>)
    requires LinesRead(d, lines, fs)
    ensures verses == Run(Start, fs).1
  {
    var currentBook := "";
    var currentChapter := "";
    verses := [];
    var i := 1;
    while i < |lines|
      invariant 1 <= i <= |fs| + 1
      invariant (Carry(currentBook, currentChapter), verses) == Run(Start, fs[..i - 1])
    {
      TakeSnoc(fs, i - 1);
      RunSnoc(Start, fs[..i - 1], fs[i - 1]);
      ghost var before := verses;
      ghost var after := Run(Start, fs[..i]);
      var record;
      currentBook, currentChapter, record := ReadLine(d, currentBook, currentChapter, lines[i]);
      assert after == (Carry(currentBook, currentChapter), before + Emitted(record));
      if record.Some? {
        verses := verses + [record.value];
      } else {
        assert before + Emitted(record) == before;
      }
      ghost var k := i;
      i := i + 1;
      assert fs[..i - 1] == fs[..k];
    }
    assert fs[..i - 1] == fs;
  }

  // Properties of the loop

  /** Running over two pieces is running over the first, then over the second from
      where the first left off: records keep the order of their lines. */
  lemma {:induction false} RunAppend(c: Carry, a: seq<Option<Fields>>, b: seq<Option<Fields>>)
    ensures Run(c, a + b).0 == Run(Run(c, a).0, b).0
    ensures Run(c, a + b).1 == Run(c, a).1 + Run(Run(c, a).0, b).1
    decreases |b|
  {
    if b == [] {
      assert a + b == a;
    } else {
      var b', x := b[..|b| - 1], b[|b| - 1];
      var mid := Run(c, a).0;
      RunAppend(c, a, b');
      assert (a + b)[..|a + b| - 1] == a + b';
      assert (a + b)[|a + b| - 1] == x;
      var left := Run(c, a + b');
      var right := Run(mid, b');
      assert left.0 == right.0;
      var s := Step(left.0, x);
      assert Run(c, a + b) == (s.0, left.1 + Emitted(s.1));
      assert Run(mid, b) == (s.0, right.1 + Emitted(s.1));
      AppendAssoc(Run(c, a).1, right.1, Emitted(s.1));
    }
  }

  lemma {:induction false} AppendAssoc<T>(x: seq<T>, y: seq<T>, z: seq<T>)
    ensures x + y + z == x + (y + z)
  {
  }

  lemma {:induction false} FieldsOfAppend(d: Dialect, a: seq<string>, b: seq<string>)
    ensures FieldsOf(d, a + b) == FieldsOf(d, a) + FieldsOf(d, b)
    decreases |b|
  {
    if b == [] {
      assert a + b == a;
    } else {
      var b' := b[..|b| - 1];
      FieldsOfAppend(d, a, b');
      assert (a + b)[..|a + b| - 1] == a + b';
      assert (a + b)[|a + b| - 1] == b[|b| - 1];
    }
  }

  /** A blank line, or one without the six-field shape, changes nothing. */
  lemma {:induction false} InertLine(d: Dialect, c: Carry, a: seq<string>, raw: string, b: seq<string>)
    requires LineFields(d, raw).None?
    ensures Run(c, FieldsOf(d, a + [raw] + b)) == Run(c, FieldsOf(d, a + b))
  {
    var fa, fb := FieldsOf(d, a), FieldsOf(d, b);
    var none: seq<Option<Fields>> := [None];
    FieldsOfAppend(d, a + [raw], b);
    FieldsOfSnoc(d, a, raw);
    FieldsOfAppend(d, a, b);
    assert FieldsOf(d, a + [raw] + b) == fa + none + fb;
    assert FieldsOf(d, a + b) == fa + fb;
    RunSnoc(c, fa, None);
    assert Run(c, fa).1 + [] == Run(c, fa).1;
    assert Run(c, fa + none) == Run(c, fa);
    RunAppend(c, fa + none, fb);
    RunAppend(c, fa, fb);
  }

  /** The header line is never read. */
  lemma {:induction false} HeaderIgnored(d: Dialect, h1: string, h2: string, body: seq<string>)
    ensures ParseVerses(d, [h1] + body) == ParseVerses(d, [h2] + body)
  {
    assert Body([h1] + body) == body;
    assert Body([h2] + body) == body;
  }

  /** At most one record per line after the header. */
  lemma {:induction false} ParseVersesCount(d: Dialect, lines: seq<string>)
    ensures lines != [] ==> |ParseVerses(d, lines)| <= |lines| - 1
    ensures |lines| <= 1 ==> ParseVerses(d, lines) == []
  {
    RunBounds(Start, FieldsOf(d, Body(lines)));
  }

  /** Each line adds at most one record, and once a book or a chapter has been seen the
      carried value is never empty again. */
  lemma {:induction false} RunBounds(c: Carry, fs: seq<Option<Fields>>)
    ensures |Run(c, fs).1| <= |fs|
    ensures c.book != [] ==> Run(c, fs).0.book != []
    ensures c.chapter != [] ==> Run(c, fs).0.chapter != []
    decreases |fs|
  {
    if fs != [] {
      RunBounds(c, fs[..|fs| - 1]);
    }
  }

  // The carried book and chapter, as an independent definition

  /** The last non-empty book among the lines' fields, or `b` when there is none. */
  function LastBook(b: string, fs: seq<Option<Fields>>): string {
    if fs == [] then b
    else if fs[|fs| - 1].Some? && fs[|fs| - 1].value.book != [] then fs[|fs| - 1].value.book
    else LastBook(b, fs[..|fs| - 1])
  }

  /** The last non-empty chapter among the lines' fields, or `ch` when there is none. */
  function LastChapter(ch: string, fs: seq<Option<Fields>>): string {
    if fs == [] then ch
    else if fs[|fs| - 1].Some? && fs[|fs| - 1].value.chapter != [] then fs[|fs| - 1].value.chapter
    else LastChapter(ch, fs[..|fs| - 1])
  }

  /** `currentBook` and `currentChapter` are always the last non-empty values seen. */
  lemma {:induction false} CarryIsLastSeen(c: Carry, fs: seq<Option<Fields>>)
    ensures Run(c, fs).0 == Carry(LastBook(c.book, fs), LastChapter(c.chapter, fs))
    decreases |fs|
  {
    if fs != [] {
      CarryIsLastSeen(c, fs[..|fs| - 1]);
    }
  }

  /** A line adds a record exactly when it has the six-field shape and a verse, and a book
      and a chapter of its own or from an earlier line; the record carries that book and
      chapter and its own verse and text. */
  lemma {:induction false} RecordOfLine(c: Carry, fs: seq<Option<Fields>>, f: Option<Fields>)
    ensures var all := fs + [f];
            Run(c, all).1 == Run(c, fs).1 + (
              if f.Some? && f.value.verse != [] && LastBook(c.book, all) != [] && LastChapter(c.chapter, all) != []
              then [VerseRecord(LastBook(c.book, all), LastChapter(c.chapter, all), f.value.verse,
                                f.value.assyrian, f.value.transliteration, f.value.english)]
              else [])
  {
    var all := fs + [f];
    assert all[..|all| - 1] == fs;
    CarryIsLastSeen(c, fs);
  }

  // The two dialects

  /** A record with its single quotes doubled in every field. */
  function Escape(v: VerseRecord): VerseRecord {
    VerseRecord(Pair('\'', v.book), Pair('\'', v.chapter), Pair('\'', v.verse),
                Pair('\'', v.assyrian), Pair('\'', v.transliteration), Pair('\'', v.english))
  }

  function EscapeAll(vs: seq<VerseRecord>): (r: seq<VerseRecord>)
    ensures |r| == |vs|
  {
    if vs == [] then [] else EscapeAll(vs[..|vs| - 1]) + [Escape(vs[|vs| - 1])]
  }

  function EscapeFields(f: Option<Fields>): Option<Fields> {
    match f
    case None => None
    case Some(x) =>
      Some(Fields(Pair('\'', x.book), Pair('\'', x.chapter), Pair('\'', x.verse),
                  Pair('\'', x.assyrian), Pair('\'', x.transliteration), Pair('\'', x.english)))
  }

  function EscapeLines(fs: seq<Option<Fields>>): (r: seq<Option<Fields>>)
    ensures |r| == |fs|
  {
    if fs == [] then [] else EscapeLines(fs[..|fs| - 1]) + [EscapeFields(fs[|fs| - 1])]
  }

  function EscapeCarry(c: Carry): Carry {
    Carry(Pair('\'', c.book), Pair('\'', c.chapter))
  }

  lemma {:induction false} PairEmpty(q: char, v: string)
    ensures Pair(q, v) == [] <==> v == []
  {
  }

  /** A line's fields in the SQL script are those of the direct import, quotes doubled. */
  lemma {:induction false} LineDialects(raw: string)
    ensures LineFields(SqlScript, raw) == EscapeFields(LineFields(DirectInsert, raw))
  {
    var line := Trim(raw);
    if line != [] && MatchLine(line).Some? {
      CleanFieldsDialects(MatchLine(line).value);
    }
  }

  lemma {:induction false} CleanFieldsDialects(f: Fields)
    ensures Some(CleanFields(SqlScript, f)) == EscapeFields(Some(CleanFields(DirectInsert, f)))
  {
    CleanFieldsOf(SqlScript, f);
    CleanFieldsOf(DirectInsert, f);
    CleanDialects(f.book);
    CleanDialects(f.chapter);
    CleanDialects(f.verse);
    CleanDialects(f.assyrian);
    CleanDialects(f.transliteration);
    CleanDialects(f.english);
  }

  lemma {:induction false} FieldsDialects(lines: seq<string>)
    ensures FieldsOf(SqlScript, lines) == EscapeLines(FieldsOf(DirectInsert, lines))
    decreases |lines|
  {
    if lines != [] {
      var init := lines[..|lines| - 1];
      FieldsDialects(init);
      LineDialects(lines[|lines| - 1]);
      var direct := FieldsOf(DirectInsert, lines);
      assert direct[..|direct| - 1] == FieldsOf(DirectInsert, init);
    }
  }

  lemma {:induction false} StepDialects(c: Carry, f: Option<Fields>)
    ensures Step(EscapeCarry(c), EscapeFields(f)).0 == EscapeCarry(Step(c, f).0)
    ensures Step(EscapeCarry(c), EscapeFields(f)).1
            == if Step(c, f).1.Some? then Some(Escape(Step(c, f).1.value)) else None
  {
    if f.Some? {
      PairEmpty('\'', f.value.book);
      PairEmpty('\'', f.value.chapter);
      PairEmpty('\'', f.value.verse);
      PairEmpty('\'', c.book);
      PairEmpty('\'', c.chapter);
    }
  }

  lemma {:induction false} RunDialects(c: Carry, fs: seq<Option<Fields>>)
    ensures Run(EscapeCarry(c), EscapeLines(fs)).0 == EscapeCarry(Run(c, fs).0)
    ensures Run(EscapeCarry(c), EscapeLines(fs)).1 == EscapeAll(Run(c, fs).1)
    decreases |fs|
  {
    if fs != [] {
      var init := fs[..|fs| - 1];
      var e := EscapeLines(fs);
      assert e[..|e| - 1] == EscapeLines(init);
      RunDialects(c, init);
      StepDialects(Run(c, init).0, fs[|fs| - 1]);
      var vs := Run(c, init).1;
      var o := Step(Run(c, init).0, fs[|fs| - 1]).1;
      if o.Some? {
        assert (vs + [o.value])[..|vs|] == vs;
      } else {
        assert vs + [] == vs;
      }
    }
  }

  /** The SQL script reads the same verses as the direct import, with single quotes
      doubled in every field. */
  lemma {:induction false} ParseVersesDialects(lines: seq<string>)
    ensures ParseVerses(SqlScript, lines) == EscapeAll(ParseVerses(DirectInsert, lines))
  {
    FieldsDialects(Body(lines));
    RunDialects(Start, FieldsOf(DirectInsert, Body(lines)));
    assert EscapeCarry(Start) == Start;
  }
}
