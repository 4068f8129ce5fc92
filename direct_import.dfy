/** scripts/import-to-supabase.js: the verses, read with the non-escaping `cleanField`,
    become rows with `parseInt` chapter and verse numbers (lines 50-57) and are inserted
    in slices of 500, stopping at the first slice the database rejects (lines 65-82). */
module DirectImport {
  import opened Text
  import opened CsvFields
  import opened CsvLines
  import opened Batching

  /** The object pushed at lines 50-57; `None` stands for `NaN`. */
  datatype VerseRow = VerseRow(
    book: string, chapter: Option<int>, verse: Option<int>,
    assyrian: string, transliteration: string, english: string)

  /** Lines 50-57: the record with `parseInt` applied to chapter and verse. */
  function ToRow(v: VerseRecord): VerseRow {
    VerseRow(v.book, ParseInt(v.chapter), ParseInt(v.verse), v.assyrian, v.transliteration, v.english)
  }

  function RowsOf(vs: seq<VerseRecord>): (r: seq<VerseRow>)
    ensures |r| == |vs|
  {
    if vs == [] then [] else RowsOf(vs[..|vs| - 1]) + [ToRow(vs[|vs| - 1])]
  }

  lemma {:induction false} RowsOfAt(vs: seq<VerseRecord>, k: nat)
    requires k < |vs|
    ensures RowsOf(vs)[k] == ToRow(vs[k])
    decreases |vs|
  {
    if k < |vs| - 1 {
      RowsOfAt(vs[..|vs| - 1], k);
    }
  }

  lemma {:induction false} RowsSnoc(vs: seq<VerseRecord>, v: VerseRecord)
    ensures RowsOf(vs + [v]) == RowsOf(vs) + [ToRow(v)]
  {
    assert (vs + [v])[..|vs|] == vs;
  }

  /** Lines 26-60: the same loop as scripts/import-bible-verses.js, pushing rows. */
  method ParseVerseRows(lines: seq<string>) returns (verses: seq<VerseRow>)
    ensures verses == RowsOf(ParseVerses(DirectInsert, lines))
  {
    BodyRead(DirectInsert, lines);
    verses := ReadVerseRows(lines, FieldsOf(DirectInsert, Body(lines)));
  }

  /** Lines 29-60 over lines whose fields are `fs`. */
  method ReadVerseRows(lines: seq<string>, ghost fs: seq<Option<Fields>>) returns (verses: seq<VerseRow>)
    requires LinesRead(DirectInsert, lines, fs)
    ensures verses == RowsOf(Run(Start, fs).1)
  {
    var currentBook := "";
    var currentChapter := "";
    verses := [];
    ghost var records: seq<VerseRecord> := [];
    var i := 1;
    while i < |lines|
      invariant 1 <= i <= |fs| + 1
      invariant (Carry(currentBook, currentChapter), records) == Run(Start, fs[..i - 1])
      invariant verses == RowsOf(records)
    {
      TakeSnoc(fs, i - 1);
      RunSnoc(Start, fs[..i - 1], fs[i - 1]);
      ghost var after := Run(Start, fs[..i]);
      var record;
      currentBook, currentChapter, record := ReadLine(DirectInsert, currentBook, currentChapter, lines[i]);
      assert after == (Carry(currentBook, currentChapter), records + Emitted(record));
      if record.Some? {
        RowsSnoc(records, record.value);
        verses := verses + [ToRow(record.value)];
        records := records + [record.value];
      } else {
        assert records + Emitted(record) == records;
      }
      ghost var k := i;
      i := i + 1;
      assert fs[..i - 1] == fs[..k];
    }
    assert fs[..i - 1] == fs;
  }

  /** A numeral in the chapter or verse field becomes its number; text that does not start
      with a digit becomes `NaN`. */
  lemma {:induction false} RowNumbers(v: VerseRecord, chapter: nat, verse: nat)
    requires v.chapter == DecimalString(chapter) && v.verse == DecimalString(verse)
    ensures ToRow(v).chapter == Some(chapter) && ToRow(v).verse == Some(verse)
  {
    ParseIntOfNumeral(chapter, "");
    ParseIntOfNumeral(verse, "");
    assert DecimalString(chapter) + "" == DecimalString(chapter);
    assert DecimalString(verse) + "" == DecimalString(verse);
  }

  /** The rows keep the records' order, book and text fields. */
  lemma {:induction false} RowsKeepText(vs: seq<VerseRecord>, k: nat)
    requires k < |vs|
    ensures RowsOf(vs)[k].book == vs[k].book
    ensures RowsOf(vs)[k].assyrian == vs[k].assyrian
    ensures RowsOf(vs)[k].transliteration == vs[k].transliteration
    ensures RowsOf(vs)[k].english == vs[k].english
    ensures RowsOf(vs)[k].chapter == ParseInt(vs[k].chapter)
  {
    RowsOfAt(vs, k);
  }

  // Inserting the slices

  /** The index of the first slice the database rejects among the first `n`, or `n` when
      it accepts them all. */
  function FirstRejected(accepted: nat -> bool, n: nat): (f: nat)
    ensures f <= n
    ensures forall k :: 0 <= k < f ==> accepted(k)
    ensures f < n ==> !accepted(f)
  {
    if n == 0 then 0
    else
      var f := FirstRejected(accepted, n - 1);
      if f < n - 1 || !accepted(n - 1) then f else n
  }

  /** Lines 65-82: each slice is inserted in turn and counted in `imported`; an error ends
      the process before later slices are sent. `accepted(k)` is the outcome of the
      insert of slice `k`. */
  method ImportBatches(rows: seq<VerseRow>, accepted: nat -> bool)
    returns (imported: nat, sent: seq<seq<VerseRow>>, ok: bool)
    ensures sent == Batches(rows)[..FirstRejected(accepted, |Batches(rows)|)]
    ensures ok <==> FirstRejected(accepted, |Batches(rows)|) == |Batches(rows)|
    ensures imported <= |rows| && Flatten(sent) == rows[..imported]
    ensures ok ==> imported == |rows|
    ensures !ok ==> imported == BatchSize * FirstRejected(accepted, |Batches(rows)|) < |rows|
  {
    ghost var all := Batches(rows);
    BatchCount(rows);
    imported, sent, ok := 0, [], true;
    var i := 0;
    ghost var n := 0;
    while i < |rows|
      invariant i == BatchSize * n && n <= |all|
      invariant i < |rows| <==> n < |all|
      invariant forall j :: 0 <= j < n ==> accepted(j)
      invariant sent == all[..n]
      invariant imported == Min(i, |rows|)
      invariant Flatten(sent) == rows[..imported]
    {
      var k := i / BatchSize;
      assert k == n;
      BatchAt(rows, k);
      var batch := rows[i..Min(i + BatchSize, |rows|)];
      if !accepted(k) {
        ok := false;
        return;
      }
      imported := imported + |batch|;
      BatchFlatten(sent, batch);
      assert rows[..imported] == rows[..i] + batch;
      TakeSnoc(all, n);
      sent := sent + [batch];
      i := i + BatchSize;
      n := n + 1;
    }
    assert all[..n] == all;
    assert rows[..imported] == rows;
  }

  lemma {:induction false} BatchFlatten<T>(sent: seq<seq<T>>, batch: seq<T>)
    ensures Flatten(sent + [batch]) == Flatten(sent) + batch
  {
    FlattenAppend(sent, [batch]);
    assert [batch][1..] == [];
    assert Flatten([batch]) == batch + Flatten([batch][1..]);
  }

  /** When every slice is accepted, every row is inserted exactly once, in order. */
  lemma {:induction false} AllAccepted(rows: seq<VerseRow>, accepted: nat -> bool)
    requires forall k :: 0 <= k < |Batches(rows)| ==> accepted(k)
    ensures FirstRejected(accepted, |Batches(rows)|) == |Batches(rows)|
    ensures Flatten(Batches(rows)[..FirstRejected(accepted, |Batches(rows)|)]) == rows
  {
    assert Batches(rows)[..|Batches(rows)|] == Batches(rows);
    FlattenBatches(rows);
  }
}
