/** The SQL text scripts/import-bible-verses.js:52-65 writes for the parsed verses: one
    `INSERT` statement per slice of 500, each verse a tuple whose text fields are
    single-quoted literals (their quotes already doubled by `cleanField`). */
module SqlExport {
  import opened Text
  import opened CsvFields
  import opened CsvLines
  import opened Batching

  const Header: string := "INSERT INTO bible_verses (book, chapter, verse, assyrian, transliteration, english) VALUES\n"

  /** `'...'` around text that is already escaped. */
  function Quote(s: string): string { "'" + s + "'" }

  /** The six values of line 61 in order: chapter and verse unquoted, the four text
      fields quoted. */
  function Values(v: VerseRecord): seq<string> {
    [Quote(v.book), v.chapter, v.verse, Quote(v.assyrian), Quote(v.transliteration), Quote(v.english)]
  }

  /** Line 61: the values separated by `, ` between parentheses. */
  function Tuple(v: VerseRecord): string {
    "(" + Join(Values(v), ", ") + ")"
  }

  /** The tuples of a slice, one per verse, in the slice's order. */
  function Tuples(batch: seq<VerseRecord>): (r: seq<string>)
    ensures |r| == |batch|
    ensures forall k :: 0 <= k < |batch| ==> r[k] == Tuple(batch[k])
  {
    if batch == [] then [] else [Tuple(batch[0])] + Tuples(batch[1..])
  }

  /** Lines 58-64 for one slice. */
  function Statement(batch: seq<VerseRecord>): string {
    Header + Join(Tuples(batch), ",\n") + ";\n\n"
  }

  function Script(batches: seq<seq<VerseRecord>>): string {
    if batches == [] then "" else Statement(batches[0]) + Script(batches[1..])
  }

  /** The whole file: one statement per slice of 500. */
  function SqlText(verses: seq<VerseRecord>): string {
    Script(Batches(verses))
  }

  lemma {:induction false} ScriptAppend(a: seq<seq<VerseRecord>>, b: seq<seq<VerseRecord>>)
    ensures Script(a + b) == Script(a) + Script(b)
  {
    if a == [] {
      assert a + b == b;
    } else {
      assert (a + b)[1..] == a[1..] + b;
      ScriptAppend(a[1..], b);
    }
  }

  lemma {:induction false} RegroupStatement(a: string, b: string, c: string, d: string)
    ensures a + b + c + d == a + (b + c + d)
  {
  }

  lemma {:induction false} AppendNothing(a: string)
    ensures a + "" == a
  {
  }

  /** The text for verses cut at a multiple of 500 is the two texts one after the other. */
  lemma {:induction false} SqlTextAppend(a: seq<VerseRecord>, b: seq<VerseRecord>)
    requires |a| % BatchSize == 0
    ensures SqlText(a + b) == SqlText(a) + SqlText(b)
  {
    BatchesAppend(a, b);
    ScriptAppend(Batches(a), Batches(b));
  }

  /** A slice of at most 500 verses is a single statement. */
  lemma {:induction false} SqlTextOneBatch(b: seq<VerseRecord>)
    requires 0 < |b| <= BatchSize
    ensures SqlText(b) == Statement(b)
  {
    OneBatch(b);
    var bs := [b];
    assert bs[1..] == [];
    assert Script(bs) == Statement(b) + Script(bs[1..]);
    assert Script(bs[1..]) == "";
    AppendNothing(Statement(b));
  }

  /** No verses, no text; otherwise the text starts with an `INSERT` header. */
  lemma {:induction false} SqlTextStart(verses: seq<VerseRecord>)
    ensures verses == [] <==> SqlText(verses) == ""
    ensures verses != [] ==> |SqlText(verses)| > |Header| && SqlText(verses)[..|Header|] == Header
  {
    if verses != [] {
      var bs := Batches(verses);
      var values := Join(Tuples(bs[0]), ",\n");
      var more := Script(bs[1..]);
      RegroupStatement(Header, values, ";\n\n", more);
      PrefixOf(Header, values + ";\n\n" + more);
    }
  }

  lemma {:induction false} PrefixOf(a: string, b: string)
    requires b != []
    ensures |a + b| > |a| && (a + b)[..|a|] == a
  {
  }

  /** scripts/import-bible-verses.js:52-65 */
  method GenerateSql(verses: seq<VerseRecord>) returns (sql: string)
    ensures sql == SqlText(verses)
  {
    sql := "";
    var i := 0;
    while i < |verses|
      invariant i % BatchSize == 0
      invariant sql == SqlText(verses[..Min(i, |verses|)])
    {
      var batch := verses[i..Min(i + BatchSize, |verses|)];
      ghost var before := sql;
      sql := sql + Header;
      var values := Join(Tuples(batch), ",\n");
      sql := sql + values + ";\n\n";
      RegroupStatement(before, Header, values, ";\n\n");
      assert verses[..Min(i + BatchSize, |verses|)] == verses[..i] + batch;
      SqlTextAppend(verses[..i], batch);
      SqlTextOneBatch(batch);
      i := i + BatchSize;
    }
    assert verses[..Min(i, |verses|)] == verses;
  }

  // Reading the literals back

  /** Text escaped by the SQL script's `cleanField`, between the quotes of a literal,
      reads back as the unescaped value; the literal ends at its own closing quote when
      the text after it does not start with a quote. */
  lemma {:induction false} QuoteReadsBack(value: string, rest: string)
    requires rest == [] || rest[0] != '\''
    ensures Quote(Pair('\'', value))[0] == '\''
    ensures ReadSqlString(Quote(Pair('\'', value))[1..] + rest) == Some((value, |Pair('\'', value)| + 1))
  {
    var p := Pair('\'', value);
    assert Quote(p)[1..] + rest == p + ['\''] + rest;
    ReadDoubled(value, rest);
  }

  lemma {:induction false} JoinFirst(parts: seq<string>, sep: string)
    requires |parts| >= 2
    ensures Join(parts, sep) == parts[0] + (sep + Join(parts[1..], sep))
  {
  }

  lemma {:induction false} JoinLast(parts: seq<string>, sep: string)
    requires |parts| >= 2
    ensures Join(parts, sep) == Join(parts[..|parts| - 1], sep) + sep + parts[|parts| - 1]
    decreases |parts|
  {
    var init := parts[..|parts| - 1];
    if |parts| > 2 {
      JoinLast(parts[1..], sep);
      assert parts[1..][..|parts| - 2] == init[1..];
      assert Join(init, sep) == init[0] + sep + Join(init[1..], sep);
    } else {
      assert init == [parts[0]];
    }
  }

  /** The book literal of a tuple the SQL script writes reads back as the book the direct
      import reads from the same line. */
  lemma {:induction false} TupleBookReadsBack(v: VerseRecord)
    ensures Tuple(Escape(v))[..2] == "('"
    ensures ReadSqlString(Tuple(Escape(v))[2..]) == Some((v.book, |Pair('\'', v.book)| + 1))
  {
    var e := Escape(v);
    var p := Pair('\'', v.book);
    var parts := Values(e);
    var rest := ", " + Join(parts[1..], ", ") + ")";
    JoinFirst(parts, ", ");
    BookFirst(p, Join(parts[1..], ", "));
    ReadDoubled(v.book, rest);
  }

  lemma {:induction false} BookFirst(p: string, tail: string)
    ensures "(" + (Quote(p) + (", " + tail)) + ")" == "('" + (p + ['\''] + (", " + tail + ")"))
    ensures ("('" + (p + ['\''] + (", " + tail + ")")))[..2] == "('"
    ensures ("('" + (p + ['\''] + (", " + tail + ")")))[2..] == p + ['\''] + (", " + tail + ")")
  {
  }

  lemma {:induction false} EnglishLast(front: string, p: string)
    ensures var t := "(" + (front + ", " + Quote(p)) + ")";
            |t| >= |p| + 3 && t[|t| - |p| - 3] == '\'' && t[|t| - (|p| + 2)..] == p + ['\''] + ")"
  {
    var t := "(" + (front + ", " + Quote(p)) + ")";
    assert t == ("(" + front + ", ") + ("'" + (p + ['\''] + ")"));
  }

  /** The English literal closes the tuple: what follows its opening quote reads back as
      the direct import's English text. */
  lemma {:induction false} TupleEnglishReadsBack(v: VerseRecord)
    ensures var t := Tuple(Escape(v));
            var n := |Pair('\'', v.english)| + 2;
            |t| >= n + 1 && t[|t| - n - 1] == '\''
            && ReadSqlString(t[|t| - n..]) == Some((v.english, n - 1))
  {
    var e := Escape(v);
    var parts := Values(e);
    JoinLast(parts, ", ");
    EnglishLast(Join(parts[..5], ", "), Pair('\'', v.english));
    ReadDoubled(v.english, ")");
  }
}
