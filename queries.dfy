/** The selection and ordering that `getBibleVerses` and `getLiturgicalEvents`
    (lib/supabase.ts:34-73) ask the database for, stated as list functions over an
    in-memory table: each `.eq`, `.gte` and `.lte` of the query builder is one filter,
    and `.order(column, ascending)` sorts the filtered rows by that column. */
module Queries {
  import opened Text

  /** A row of `bible_verses` (lib/supabase.ts:13-21). */
  datatype BibleVerse = BibleVerse(
    id: int, book: string, chapter: int, verse: int,
    assyrian: string, transliteration: string, english: string)

  /** A row of `liturgical_calendar` (lib/supabase.ts:23-32). */
  datatype LiturgicalEvent = LiturgicalEvent(
    id: int, date: Date, year: int, feastName: string,
    lection1: string, lection2: string, epistle: string, gospel: string)

  // Filters

  /** The rows of `s` that satisfy `p`, in their original order. */
  function Filter<T(!new)>(s: seq<T>, p: T -> bool): (r: seq<T>)
    ensures |r| <= |s|
    ensures forall x :: x in r <==> x in s && p(x)
  {
    if s == [] then []
    else
      assert forall x :: x in s <==> x == s[0] || x in s[1..];
      (if p(s[0]) then [s[0]] else []) + Filter(s[1..], p)
  }

  lemma {:induction false} FilterAppend<T(!new)>(a: seq<T>, b: seq<T>, p: T -> bool)
    ensures Filter(a + b, p) == Filter(a, p) + Filter(b, p)
  {
    if a == [] {
      assert a + b == b;
    } else {
      assert (a + b)[0] == a[0];
      assert (a + b)[1..] == a[1..] + b;
      FilterAppend(a[1..], b, p);
    }
  }

  /** A row is kept as many times as it occurs, when it satisfies `p`, and dropped
      otherwise. */
  lemma {:induction false} FilterCount<T(!new)>(s: seq<T>, p: T -> bool, x: T)
    ensures multiset(Filter(s, p))[x] == if p(x) then multiset(s)[x] else 0
  {
    if s != [] {
      FilterCount(s[1..], p, x);
      assert s == [s[0]] + s[1..];
    }
  }

  // Ordering

  /** `.order(column, { ascending: true })` for a column whose values `key` ranks. */
  predicate SortedBy<T>(s: seq<T>, key: T -> int) {
    forall i, j :: 0 <= i < j < |s| ==> key(s[i]) <= key(s[j])
  }

  lemma {:induction false} SortedTail<T>(s: seq<T>, key: T -> int)
    requires s != [] && SortedBy(s, key)
    ensures SortedBy(s[1..], key)
    ensures forall y :: y in s[1..] ==> key(s[0]) <= key(y)
  {
    forall y | y in s[1..] ensures key(s[0]) <= key(y) {
      var j :| 0 <= j < |s[1..]| && s[1..][j] == y;
      assert s[j + 1] == y;
    }
  }

  /** Puts `x` before the first row whose key is not smaller. */
  function Insert<T>(x: T, s: seq<T>, key: T -> int): (r: seq<T>)
    requires SortedBy(s, key)
    ensures SortedBy(r, key)
    ensures multiset(r) == multiset(s) + multiset{x}
  {
    if s == [] then [x]
    else if key(x) <= key(s[0]) then
      InsertFront(x, s, key);
      [x] + s
    else
      SortedTail(s, key);
      var rest := Insert(x, s[1..], key);
      InsertBehind(x, s, key, rest);
      [s[0]] + rest
  }

  lemma {:induction false} InsertFront<T>(x: T, s: seq<T>, key: T -> int)
    requires SortedBy(s, key) && s != [] && key(x) <= key(s[0])
    ensures SortedBy([x] + s, key)
  {
    var r := [x] + s;
    forall i, j | 0 <= i < j < |r| ensures key(r[i]) <= key(r[j]) {
      assert r[j] == s[j - 1];
      if i > 0 {
        assert r[i] == s[i - 1];
      }
    }
  }

  /** The head stays in front of a sorted insertion into the tail. */
  lemma {:induction false} InsertBehind<T>(x: T, s: seq<T>, key: T -> int, rest: seq<T>)
    requires s != [] && SortedBy(s, key) && key(x) > key(s[0])
    requires SortedBy(rest, key) && multiset(rest) == multiset(s[1..]) + multiset{x}
    ensures SortedBy([s[0]] + rest, key)
    ensures multiset([s[0]] + rest) == multiset(s) + multiset{x}
  {
    SortedTail(s, key);
    assert s == [s[0]] + s[1..];
    var r := [s[0]] + rest;
    forall i, j | 0 <= i < j < |r| ensures key(r[i]) <= key(r[j]) {
      assert r[j] == rest[j - 1];
      if i == 0 {
        assert rest[j - 1] in multiset(rest);
      } else {
        assert r[i] == rest[i - 1];
      }
    }
  }

  /** A stable insertion sort by `key`. */
  function SortBy<T>(s: seq<T>, key: T -> int): (r: seq<T>)
    ensures SortedBy(r, key)
    ensures multiset(r) == multiset(s)
  {
    if s == [] then []
    else
      assert s == [s[0]] + s[1..];
      Insert(s[0], SortBy(s[1..], key), key)
  }

  /** Filtering keeps a sorted list sorted. */
  lemma {:induction false} FilterSorted<T(!new)>(s: seq<T>, key: T -> int, p: T -> bool)
    requires SortedBy(s, key)
    ensures SortedBy(Filter(s, p), key)
  {
    if s != [] {
      SortedTail(s, key);
      FilterSorted(s[1..], key, p);
      var f := Filter(s[1..], p);
      if p(s[0]) {
        assert forall j :: 0 <= j < |f| ==> f[j] in f;
      }
    }
  }

  /** Inserting before the head of a sorted list and then filtering. */
  lemma {:induction false} FilterInsertFront<T(!new)>(x: T, s: seq<T>, key: T -> int, p: T -> bool)
    requires SortedBy(s, key) && SortedBy(Filter(s, p), key)
    requires s != [] && key(x) <= key(s[0])
    ensures Filter(Insert(x, s, key), p)
         == if p(x) then Insert(x, Filter(s, p), key) else Filter(s, p)
  {
    var f := Filter(s, p);
    assert Insert(x, s, key) == [x] + s;
    assert ([x] + s)[0] == x && ([x] + s)[1..] == s;
    if p(x) && f != [] {
      assert f[0] in s;
      var j :| 0 <= j < |s| && s[j] == f[0];
      assert key(s[0]) <= key(s[j]);
      assert Insert(x, f, key) == [x] + f;
    }
  }

  lemma {:induction false} FilterCons<T(!new)>(h: T, t: seq<T>, p: T -> bool)
    ensures Filter([h] + t, p) == (if p(h) then [h] else []) + Filter(t, p)
  {
    assert ([h] + t)[0] == h && ([h] + t)[1..] == t;
  }

  lemma {:induction false} InsertCons<T>(x: T, h: T, t: seq<T>, key: T -> int)
    requires SortedBy([h] + t, key) && key(x) > key(h)
    ensures SortedBy(t, key)
    ensures Insert(x, [h] + t, key) == [h] + Insert(x, t, key)
  {
    SortedTail([h] + t, key);
    assert ([h] + t)[0] == h && ([h] + t)[1..] == t;
  }

  /** Inserting behind the head of a sorted list and then filtering. */
  lemma {:induction false} FilterInsertBehind<T(!new)>(x: T, s: seq<T>, key: T -> int, p: T -> bool)
    requires s != [] && SortedBy(s, key) && key(x) > key(s[0]) && SortedBy(Filter(s, p), key)
    requires SortedBy(s[1..], key) && SortedBy(Filter(s[1..], p), key)
    requires Filter(Insert(x, s[1..], key), p)
          == if p(x) then Insert(x, Filter(s[1..], p), key) else Filter(s[1..], p)
    ensures Filter(Insert(x, s, key), p)
         == if p(x) then Insert(x, Filter(s, p), key) else Filter(s, p)
  {
    var h, t := s[0], s[1..];
    var rest := Insert(x, t, key);
    assert Insert(x, s, key) == [h] + rest;
    FilterCons(h, rest, p);
    var f := Filter(t, p);
    assert Filter(s, p) == (if p(h) then [h] else []) + f;
    if p(h) {
      if p(x) {
        InsertCons(x, h, f, key);
      }
    } else {
      assert [] + f == f;
      assert [] + Filter(rest, p) == Filter(rest, p);
    }
  }

  /** Dropping rows commutes with inserting one into a sorted list. */
  lemma {:induction false} FilterInsert<T(!new)>(x: T, s: seq<T>, key: T -> int, p: T -> bool)
    requires SortedBy(s, key)
    ensures SortedBy(Filter(s, p), key)
    ensures Filter(Insert(x, s, key), p)
         == if p(x) then Insert(x, Filter(s, p), key) else Filter(s, p)
  {
    FilterSorted(s, key, p);
    if s == [] {
    } else if key(x) <= key(s[0]) {
      FilterInsertFront(x, s, key, p);
    } else {
      SortedTail(s, key);
      FilterInsert(x, s[1..], key, p);
      FilterInsertBehind(x, s, key, p);
    }
  }

  /** Filtering a sorted list gives the sorted filtered list. */
  lemma {:induction false} FilterSortBy<T(!new)>(s: seq<T>, key: T -> int, p: T -> bool)
    ensures Filter(SortBy(s, key), p) == SortBy(Filter(s, p), key)
  {
    if s != [] {
      var t := SortBy(s[1..], key);
      FilterSortBy(s[1..], key, p);
      FilterInsert(s[0], t, key, p);
      var f := Filter(s[1..], p);
      if p(s[0]) {
        assert Filter(s, p) == [s[0]] + f;
        assert ([s[0]] + f)[0] == s[0] && ([s[0]] + f)[1..] == f;
      } else {
        assert Filter(s, p) == f;
      }
    }
  }

  /** Two lists sorted by `key` with the same rows are equal when no two different
      rows share a key: the order the query asks for then fixes the result. */
  lemma {:induction false} SortedUnique<T>(a: seq<T>, b: seq<T>, key: T -> int)
    requires SortedBy(a, key) && SortedBy(b, key)
    requires multiset(a) == multiset(b)
    requires forall x, y :: x in a && y in a && key(x) == key(y) ==> x == y
    ensures a == b
  {
    if a != [] {
      SortedUniqueTails(a, b, key);
      SortedUnique(a[1..], b[1..], key);
      assert a == [a[0]] + a[1..];
      assert b == [b[0]] + b[1..];
    }
  }

  /** The heads agree and the tails meet the same conditions. */
  lemma {:induction false} SortedUniqueTails<T>(a: seq<T>, b: seq<T>, key: T -> int)
    requires a != [] && SortedBy(a, key) && SortedBy(b, key)
    requires multiset(a) == multiset(b)
    requires forall x, y :: x in a && y in a && key(x) == key(y) ==> x == y
    ensures b != [] && a[0] == b[0]
    ensures SortedBy(a[1..], key) && SortedBy(b[1..], key)
    ensures multiset(a[1..]) == multiset(b[1..])
    ensures forall x, y :: x in a[1..] && y in a[1..] && key(x) == key(y) ==> x == y
  {
    assert |b| == |multiset(b)| == |multiset(a)| == |a|;
    SortedSameHead(a, b, key);
    TailMultiset(a);
    TailMultiset(b);
    SortedTail(a, key);
    SortedTail(b, key);
    forall x, y | x in a[1..] && y in a[1..] && key(x) == key(y) ensures x == y {
      assert x in a && y in a;
    }
  }

  lemma {:induction false} TailMultiset<T>(a: seq<T>)
    requires a != []
    ensures multiset(a[1..]) == multiset(a) - multiset{a[0]}
  {
    assert a == [a[0]] + a[1..];
  }

  lemma {:induction false} SortedSameHead<T>(a: seq<T>, b: seq<T>, key: T -> int)
    requires a != [] && b != [] && SortedBy(a, key) && SortedBy(b, key)
    requires multiset(a) == multiset(b)
    requires forall x, y :: x in a && y in a && key(x) == key(y) ==> x == y
    ensures a[0] == b[0]
  {
    assert a[0] in multiset(b);
    assert b[0] in multiset(a);
    var i :| 0 <= i < |a| && a[i] == b[0];
    var j :| 0 <= j < |b| && b[j] == a[0];
    assert key(a[0]) <= key(a[i]);
    assert key(b[0]) <= key(b[j]);
  }

  // Verses

  function VerseNumber(v: BibleVerse): int { v.verse }

  /** The rows `getBibleVerses(book, chapter, startVerse, endVerse)` selects. */
  predicate Selected(v: BibleVerse, book: string, chapter: int, startVerse: Option<int>, endVerse: Option<int>) {
    v.book == book && v.chapter == chapter
    && (startVerse.Some? ==> v.verse >= startVerse.value)
    && (endVerse.Some? ==> v.verse <= endVerse.value)
  }

  /** `.eq('book', book).eq('chapter', chapter)` */
  function InChapter(table: seq<BibleVerse>, book: string, chapter: int): seq<BibleVerse> {
    Filter(Filter(table, (v: BibleVerse) => v.book == book), (v: BibleVerse) => v.chapter == chapter)
  }

  /** `.gte('verse', startVerse)` when a start is given. */
  function FromVerse(rows: seq<BibleVerse>, startVerse: Option<int>): seq<BibleVerse> {
    if startVerse.None? then rows
    else
      var s := startVerse.value;
      Filter(rows, (v: BibleVerse) => v.verse >= s)
  }

  /** `.lte('verse', endVerse)` when an end is given. */
  function ToVerse(rows: seq<BibleVerse>, endVerse: Option<int>): seq<BibleVerse> {
    if endVerse.None? then rows
    else
      var e := endVerse.value;
      Filter(rows, (v: BibleVerse) => v.verse <= e)
  }

  /** Lines 49-63: the selected rows by verse ascending. */
  function GetBibleVerses(table: seq<BibleVerse>, book: string, chapter: int,
                          startVerse: Option<int>, endVerse: Option<int>): (r: seq<BibleVerse>)
    ensures SortedBy(r, VerseNumber)
    ensures forall v :: v in r <==> v in table && Selected(v, book, chapter, startVerse, endVerse)
  {
    var rows := ToVerse(FromVerse(InChapter(table, book, chapter), startVerse), endVerse);
    var r := SortBy(rows, VerseNumber);
    assert forall v :: v in r <==> v in rows by {
      forall v ensures v in r <==> v in rows {
        assert v in r <==> v in multiset(r);
      }
    }
    r
  }

  /** Each selected row comes back as often as the table holds it; no other row does. */
  lemma {:induction false} SelectedCount(table: seq<BibleVerse>, book: string, chapter: int,
                      startVerse: Option<int>, endVerse: Option<int>, v: BibleVerse)
    ensures multiset(GetBibleVerses(table, book, chapter, startVerse, endVerse))[v]
         == if Selected(v, book, chapter, startVerse, endVerse) then multiset(table)[v] else 0
  {
    var byBook := Filter(table, (w: BibleVerse) => w.book == book);
    FilterCount(table, (w: BibleVerse) => w.book == book, v);
    FilterCount(byBook, (w: BibleVerse) => w.chapter == chapter, v);
    var rows := InChapter(table, book, chapter);
    if startVerse.Some? {
      var s := startVerse.value;
      FilterCount(rows, (w: BibleVerse) => w.verse >= s, v);
    }
    if endVerse.Some? {
      var e := endVerse.value;
      FilterCount(FromVerse(rows, startVerse), (w: BibleVerse) => w.verse <= e, v);
    }
  }

  /** With only a start verse, the result is the whole chapter from that verse on: every
      later verse, in the chapter's order. */
  lemma {:induction false} StartOnlyGivesRestOfChapter(table: seq<BibleVerse>, book: string, chapter: int, startVerse: int)
    ensures GetBibleVerses(table, book, chapter, Some(startVerse), None)
         == Filter(GetBibleVerses(table, book, chapter, None, None), (v: BibleVerse) => v.verse >= startVerse)
  {
    FilterSortBy(InChapter(table, book, chapter), VerseNumber, (v: BibleVerse) => v.verse >= startVerse);
  }

  /** Adding an end verse cuts the result after that verse. */
  lemma {:induction false} EndVerseCutsRange(table: seq<BibleVerse>, book: string, chapter: int, startVerse: Option<int>, endVerse: int)
    ensures GetBibleVerses(table, book, chapter, startVerse, Some(endVerse))
         == Filter(GetBibleVerses(table, book, chapter, startVerse, None), (v: BibleVerse) => v.verse <= endVerse)
  {
    FilterSortBy(FromVerse(InChapter(table, book, chapter), startVerse), VerseNumber, (v: BibleVerse) => v.verse <= endVerse);
  }

  /** When a chapter holds each verse number once, any list the database may return
      for the query is the model's. */
  lemma {:induction false} VersesDetermined(table: seq<BibleVerse>, book: string, chapter: int,
                         startVerse: Option<int>, endVerse: Option<int>, answer: seq<BibleVerse>)
    requires forall v, w :: v in table && w in table && v.book == w.book && v.chapter == w.chapter && v.verse == w.verse ==> v == w
    requires SortedBy(answer, VerseNumber)
    requires forall v :: multiset(answer)[v] == if Selected(v, book, chapter, startVerse, endVerse) then multiset(table)[v] else 0
    ensures answer == GetBibleVerses(table, book, chapter, startVerse, endVerse)
  {
    var r := GetBibleVerses(table, book, chapter, startVerse, endVerse);
    forall v ensures multiset(answer)[v] == multiset(r)[v] {
      SelectedCount(table, book, chapter, startVerse, endVerse, v);
    }
    assert multiset(answer) == multiset(r);
    forall x, y | x in answer && y in answer && VerseNumber(x) == VerseNumber(y) ensures x == y {
      assert x in multiset(answer) && y in multiset(answer);
    }
    SortedUnique(answer, r, VerseNumber);
  }

  // Events

  /** A calendar date, the `YYYY-MM-DD` of the `date` column. */
  datatype Date = Date(year: int, month: int, day: int)

  predicate ValidDate(d: Date) { 1 <= d.month <= 12 && 1 <= d.day <= 31 }

  /** Ranks dates in calendar order. */
  function DayRank(d: Date): int { (d.year * 13 + d.month) * 32 + d.day }

  /** Calendar order: earlier year, else earlier month, else earlier day. */
  predicate Before(a: Date, b: Date) {
    a.year < b.year || (a.year == b.year && (a.month < b.month || (a.month == b.month && a.day < b.day)))
  }

  /** The rank of a valid date orders dates as the calendar does and tells dates apart. */
  lemma {:induction false} DayRankOrder(a: Date, b: Date)
    requires ValidDate(a) && ValidDate(b)
    ensures Before(a, b) <==> DayRank(a) < DayRank(b)
    ensures DayRank(a) == DayRank(b) <==> a == b
  {
    var ma := a.year * 13 + a.month;
    var mb := b.year * 13 + b.month;
    assert ma < mb <==> a.year < b.year || (a.year == b.year && a.month < b.month);
  }

  function EventDate(e: LiturgicalEvent): int { DayRank(e.date) }

  /** Lines 34-39: the events of `year` by date ascending. */
  function GetLiturgicalEvents(table: seq<LiturgicalEvent>, year: int): (r: seq<LiturgicalEvent>)
    ensures SortedBy(r, EventDate)
    ensures forall e :: e in r <==> e in table && e.year == year
  {
    var rows := Filter(table, (e: LiturgicalEvent) => e.year == year);
    var r := SortBy(rows, EventDate);
    assert forall e :: e in r <==> e in rows by {
      forall e ensures e in r <==> e in rows {
        assert e in r <==> e in multiset(r);
      }
    }
    r
  }

  lemma {:induction false} EventCount(table: seq<LiturgicalEvent>, year: int, e: LiturgicalEvent)
    ensures multiset(GetLiturgicalEvents(table, year))[e] == if e.year == year then multiset(table)[e] else 0
  {
    FilterCount(table, (f: LiturgicalEvent) => f.year == year, e);
  }

  /** When a year has one event per (valid) date, any list the database may return for
      the query is the model's. */
  lemma {:induction false} EventsDetermined(table: seq<LiturgicalEvent>, year: int, answer: seq<LiturgicalEvent>)
    requires forall e :: e in table ==> ValidDate(e.date)
    requires forall e, f :: e in table && f in table && e.year == f.year && e.date == f.date ==> e == f
    requires SortedBy(answer, EventDate)
    requires forall e :: multiset(answer)[e] == if e.year == year then multiset(table)[e] else 0
    ensures answer == GetLiturgicalEvents(table, year)
  {
    var r := GetLiturgicalEvents(table, year);
    forall e ensures multiset(answer)[e] == multiset(r)[e] {
      EventCount(table, year, e);
    }
    assert multiset(answer) == multiset(r);
    forall x, y | x in answer && y in answer && EventDate(x) == EventDate(y) ensures x == y {
      assert x in multiset(answer) && y in multiset(answer);
      DayRankOrder(x.date, y.date);
    }
    SortedUnique(answer, r, EventDate);
  }
}
