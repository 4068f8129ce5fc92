/** One line of the verse CSV, as both import scripts read it
    (scripts/import-bible-verses.js:19-26, scripts/import-to-supabase.js:33-40): six
    comma-separated fields, the last three of which may be double-quoted with `""` for a
    quote inside, and the `cleanField` that turns a raw field into a value. */
module CsvFields {
  import opened Text

  // The field shapes of the line pattern

  /** `[^,]*` */
  predicate Plain(f: string) { ',' !in f }

  /** `(?:[^"]|"")*`: a quote inside occurs only as the first half of a `""` pair. */
  predicate QuotedBody(b: string)
    decreases |b|
  {
    if b == [] then true
    else if b[0] != '"' then QuotedBody(b[1..])
    else |b| >= 2 && b[1] == '"' && QuotedBody(b[2..])
  }

  /** `"(?:[^"]|"")*"` */
  predicate Quoted(f: string) {
    |f| >= 2 && f[0] == '"' && f[|f| - 1] == '"' && QuotedBody(f[1..|f| - 1])
  }

  /** `("(?:[^"]|"")*"|[^,]*)` */
  predicate TextField(f: string) { Quoted(f) || Plain(f) }

  /** Where the first comma at or after `i` is, or `|s|` when there is none. */
  function CommaFrom(s: string, i: nat): (p: nat)
    requires i <= |s|
    ensures i <= p <= |s|
    decreases |s| - i
  {
    if i == |s| || s[i] == ',' then i else CommaFrom(s, i + 1)
  }

  /** Where the first comma of `s` is: the end of a plain first field. */
  function FirstComma(s: string): (p: nat)
    ensures p <= |s|
  {
    CommaFrom(s, 0)
  }

  /** The scan skips no comma, and stops at one or at the end. */
  lemma {:induction false} CommaFromSpec(s: string, i: nat)
    requires i <= |s|
    ensures forall m :: i <= m < CommaFrom(s, i) ==> s[m] != ','
    ensures CommaFrom(s, i) < |s| ==> s[CommaFrom(s, i)] == ','
    decreases |s| - i
  {
    if i < |s| && s[i] != ',' {
      CommaFromSpec(s, i + 1);
    }
  }

  /** The scan stops at the comma that ends a stretch without commas. */
  lemma {:induction false} CommaFromAt(s: string, i: nat, j: nat)
    requires i <= j < |s| && s[j] == ','
    requires forall m :: i <= m < j ==> s[m] != ','
    ensures CommaFrom(s, i) == j
    decreases j - i
  {
    if i < j {
      CommaFromAt(s, i + 1, j);
    }
  }

  /** Before the first comma is a plain field. */
  lemma {:induction false} FirstCommaSpec(s: string)
    ensures Plain(s[..FirstComma(s)])
    ensures FirstComma(s) < |s| ==> s[FirstComma(s)] == ','
  {
    var p := FirstComma(s);
    CommaFromSpec(s, 0);
    assert forall m :: 0 <= m < p ==> s[..p][m] == s[m];
  }

  /** A plain field followed by a comma ends at that comma. */
  lemma {:induction false} FirstCommaOf(f: string, t: string)
    requires Plain(f)
    ensures FirstComma(f + ("," + t)) == |f|
  {
    var s := f + ("," + t);
    forall m | 0 <= m < |f|
      ensures s[m] != ','
    {
      assert s[m] == f[m] && f[m] in f;
    }
    CommaFromAt(s, 0, |f|);
  }

  /** Where the body of a quoted field, from `i` on, can be closed so that something
      other than a quote follows: at the first quote, on a token boundary, that does not
      start a `""` pair. Every other place the body could close is followed by a quote. */
  function CloseFrom(s: string, i: nat): (r: Option<nat>)
    requires i <= |s|
    ensures r.Some? ==> i <= r.value < |s|
    decreases |s| - i
  {
    if i == |s| then None
    else if s[i] != '"' then CloseFrom(s, i + 1)
    else if i + 1 < |s| && s[i + 1] == '"' then CloseFrom(s, i + 2)
    else Some(i)
  }

  /** The body closes at a quote, after a well-formed body, and no quote follows. */
  lemma {:induction false} CloseFromSpec(s: string, i: nat)
    requires i <= |s| && CloseFrom(s, i).Some?
    ensures var k := CloseFrom(s, i).value;
            s[k] == '"' && QuotedBody(s[i..k]) && (k + 1 == |s| || s[k + 1] != '"')
    decreases |s| - i
  {
    var k := CloseFrom(s, i).value;
    if s[i] != '"' {
      CloseFromSpec(s, i + 1);
      assert s[i..k][1..] == s[i + 1..k];
    } else if i + 1 < |s| && s[i + 1] == '"' {
      CloseFromSpec(s, i + 2);
      assert s[i..k][2..] == s[i + 2..k];
    }
  }

  /** A well-formed body followed by a quote, and then by anything but a quote, is
      closed by that quote. */
  lemma {:induction false} CloseFromBody(s: string, i: nat, e: nat)
    requires i <= e < |s| && QuotedBody(s[i..e]) && s[e] == '"'
    requires e + 1 == |s| || s[e + 1] != '"'
    ensures CloseFrom(s, i) == Some(e)
    decreases e - i
  {
    if i < e {
      var b := s[i..e];
      if s[i] != '"' {
        assert b[1..] == s[i + 1..e];
        CloseFromBody(s, i + 1, e);
      } else {
        assert b[2..] == s[i + 2..e];
        CloseFromBody(s, i + 2, e);
      }
    }
  }

  /** The length of the quoted field `s` starts with, when one can be followed by
      something other than a quote. */
  function QuotedEnd(s: string): (r: Option<nat>)
    ensures r.Some? ==> 2 <= r.value <= |s|
  {
    if s == [] || s[0] != '"' then None
    else
      match CloseFrom(s, 1)
      case None => None
      case Some(k) => Some(k + 1)
  }

  /** What `QuotedEnd` finds is a quoted field, and no quote follows it. */
  lemma {:induction false} QuotedEndSpec(s: string)
    requires QuotedEnd(s).Some?
    ensures var e := QuotedEnd(s).value;
            Quoted(s[..e]) && (e == |s| || s[e] != '"')
  {
    var k := CloseFrom(s, 1).value;
    CloseFromSpec(s, 1);
    assert s[..k + 1][1..k] == s[1..k];
  }

  /** A quoted field followed by anything but a quote is the one `QuotedEnd` finds. */
  lemma {:induction false} QuotedEndOf(f: string, t: string)
    requires Quoted(f)
    requires t == [] || t[0] != '"'
    ensures QuotedEnd(f + t) == Some(|f|)
  {
    var s := f + t;
    assert s[1..|f| - 1] == f[1..|f| - 1];
    if t != [] {
      assert s[|f|] == t[0];
    }
    CloseFromBody(s, 1, |f| - 1);
  }

  // The last three fields, with the regular expression's backtracking

  /** `s` is the text fields `fs`, separated by commas. */
  predicate FitsText(s: string, fs: seq<string>)
    decreases |fs|
  {
    |fs| >= 1 && TextField(fs[0])
    && if |fs| == 1 then s == fs[0]
       else |fs[0]| < |s| && s[..|fs[0]|] == fs[0] && s[|fs[0]|] == ','
            && FitsText(s[|fs[0]| + 1..], fs[1..])
  }

  /** A field in front of fitting fields. */
  lemma {:induction false} FitsCons(s: string, i: nat, rest: seq<string>)
    requires i < |s| && s[i] == ',' && TextField(s[..i]) && FitsText(s[i + 1..], rest)
    ensures FitsText(s, [s[..i]] + rest)
  {
    assert ([s[..i]] + rest)[1..] == rest;
  }

  /** The first of fitting fields, and the fields after it. */
  lemma {:induction false} FitsUncons(s: string, fs: seq<string>)
    requires FitsText(s, fs) && |fs| >= 2
    ensures |fs[0]| < |s| && s[..|fs[0]|] == fs[0] && s[|fs[0]|] == ','
    ensures TextField(fs[0]) && FitsText(s[|fs[0]| + 1..], fs[1..])
    ensures s == fs[0] + ("," + s[|fs[0]| + 1..])
  {
    assert s == s[..|fs[0]|] + ("," + s[|fs[0]| + 1..]);
  }

  /** What a field, a comma and the rest are made of. */
  lemma {:induction false} AfterComma(f: string, t: string)
    ensures |f| < |f + ("," + t)|
    ensures (f + ("," + t))[..|f|] == f && (f + ("," + t))[|f|] == ',' && (f + ("," + t))[|f| + 1..] == t
  {
  }

  lemma {:induction false} JoinFront(fs: seq<string>)
    requires |fs| >= 2
    ensures Join(fs, ",") == fs[0] + ("," + Join(fs[1..], ","))
  {
  }

  /** Text fields joined with commas fit. */
  lemma {:induction false} FitsTextOfJoin(s: string, fs: seq<string>)
    requires |fs| >= 1 && (forall k :: 0 <= k < |fs| ==> TextField(fs[k])) && s == Join(fs, ",")
    ensures FitsText(s, fs)
    decreases |fs|
  {
    if |fs| >= 2 {
      var rest := fs[1..];
      JoinFront(fs);
      AfterComma(fs[0], Join(rest, ","));
      assert forall k :: 0 <= k < |rest| ==> TextField(rest[k]) by {
        assert forall k :: 0 <= k < |rest| ==> rest[k] == fs[k + 1];
      }
      FitsTextOfJoin(s[|fs[0]| + 1..], rest);
    }
  }

  /** Fitting fields are text fields, and joined with commas they give back `s`. */
  lemma {:induction false} JoinOfFitsText(s: string, fs: seq<string>)
    requires FitsText(s, fs)
    ensures (forall k :: 0 <= k < |fs| ==> TextField(fs[k])) && s == Join(fs, ",")
    decreases |fs|
  {
    if |fs| >= 2 {
      var rest := fs[1..];
      FitsUncons(s, fs);
      JoinOfFitsText(s[|fs[0]| + 1..], rest);
      JoinFront(fs);
      assert forall k :: 1 <= k < |fs| ==> fs[k] == rest[k - 1];
    }
  }

  /** Fitting is joining text fields with commas. */
  lemma {:induction false} FitsTextJoin(s: string, fs: seq<string>)
    ensures FitsText(s, fs)
            <==> |fs| >= 1 && (forall k :: 0 <= k < |fs| ==> TextField(fs[k])) && s == Join(fs, ",")
  {
    if FitsText(s, fs) {
      JoinOfFitsText(s, fs);
    }
    if |fs| >= 1 && (forall k :: 0 <= k < |fs| ==> TextField(fs[k])) && s == Join(fs, ",") {
      FitsTextOfJoin(s, fs);
    }
  }

  /** `n` text fields covering all of `s`, tried as the pattern tries them: the quoted
      alternative of the first field before the plain one, and each choice kept only if
      the fields after it can still be matched. */
  function MatchText(s: string, n: nat): (r: Option<seq<string>>)
    requires n >= 1
    ensures r.Some? ==> |r.value| == n
    decreases n, 1
  {
    if n == 1 then
      if TextField(s) then Some([s]) else None
    else
      var q := QuotedEnd(s);
      var viaQuoted :=
        if q.Some? && q.value < |s| && s[q.value] == ',' then
          QuotedEndSpec(s);
          MatchAfter(s, q.value, n)
        else None;
      if viaQuoted.Some? then viaQuoted
      else
        var p := FirstComma(s);
        if p == |s| then None
        else
          FirstCommaSpec(s);
          MatchAfter(s, p, n)
  }

  /** The field `s[..i]`, then `n - 1` fields after the comma at `i`. */
  function MatchAfter(s: string, i: nat, n: nat): (r: Option<seq<string>>)
    requires n >= 2 && i < |s| && s[i] == ',' && TextField(s[..i])
    ensures r.Some? ==> |r.value| == n && r.value[0] == s[..i]
    decreases n, 0
  {
    match MatchText(s[i + 1..], n - 1)
    case None => None
    case Some(rest) =>
      assert ([s[..i]] + rest)[1..] == rest;
      Some([s[..i]] + rest)
  }

  /** `MatchAfter` succeeds exactly when the rest matches, and puts `s[..i]` in front. */
  lemma {:induction false} MatchAfterOf(s: string, i: nat, n: nat)
    requires n >= 2 && i < |s| && s[i] == ',' && TextField(s[..i])
    ensures MatchAfter(s, i, n).Some? <==> MatchText(s[i + 1..], n - 1).Some?
    ensures MatchAfter(s, i, n).Some? ==> MatchAfter(s, i, n).value == [s[..i]] + MatchText(s[i + 1..], n - 1).value
  {
  }

  /** A quoted first field followed by a comma and a match for the rest is the one
      chosen. */
  lemma {:induction false} QuotedChosen(s: string, f: string, t: string, n: nat)
    requires n >= 2 && Quoted(f) && s == f + ("," + t) && MatchText(t, n - 1).Some?
    ensures MatchText(s, n) == Some([f] + MatchText(t, n - 1).value)
  {
    QuotedEndOf(f, "," + t);
    assert s[..|f|] == f && s[|f|] == ',' && s[|f| + 1..] == t;
    MatchAfterOf(s, |f|, n);
  }

  /** Any text field followed by a comma and a match for the rest leaves a match. */
  lemma {:induction false} FieldChosen(s: string, f: string, t: string, n: nat)
    requires n >= 2 && TextField(f) && s == f + ("," + t) && MatchText(t, n - 1).Some?
    ensures MatchText(s, n).Some?
  {
    if Quoted(f) {
      QuotedChosen(s, f, t, n);
    } else {
      FirstCommaOf(f, t);
      assert s[..|f|] == f && s[|f|] == ',' && s[|f| + 1..] == t;
      MatchAfterOf(s, |f|, n);
    }
  }

  /** A match is a text field, a comma, and a match of the rest. */
  lemma {:induction false} MatchTextSplit(s: string, n: nat)
    requires n >= 2 && MatchText(s, n).Some?
    ensures var r := MatchText(s, n).value;
            |r[0]| < |s| && s[..|r[0]|] == r[0] && s[|r[0]|] == ',' && TextField(r[0])
            && MatchText(s[|r[0]| + 1..], n - 1) == Some(r[1..])
  {
    var r := MatchText(s, n).value;
    var q := QuotedEnd(s);
    if q.Some? && q.value < |s| && s[q.value] == ',' {
      QuotedEndSpec(s);
      MatchAfterOf(s, q.value, n);
      if MatchAfter(s, q.value, n).Some? {
        assert r == MatchAfter(s, q.value, n).value;
        return;
      }
    }
    var p := FirstComma(s);
    FirstCommaSpec(s);
    if p == |s| {
      assert false;
    }
    MatchAfterOf(s, p, n);
    assert r == MatchAfter(s, p, n).value;
  }

  /** Once the first field is known, the rest is matched on its own. */
  lemma {:induction false} AfterFirst(s: string, f: string, t: string, n: nat)
    requires n >= 2 && s == f + ("," + t) && MatchText(s, n).Some? && MatchText(s, n).value[0] == f
    ensures MatchText(t, n - 1) == Some(MatchText(s, n).value[1..])
  {
    MatchTextSplit(s, n);
    assert s[|f| + 1..] == t;
  }

  /** When the match agrees with fitting fields on the first one, the rest of the match
      is the match of the rest, which the other fields fit. */
  lemma {:induction false} RestAfterFirst(s: string, fs: seq<string>, n: nat)
    requires FitsText(s, fs) && n == |fs| && n >= 2
    requires MatchText(s, n).Some? && MatchText(s, n).value[0] == fs[0]
    ensures |fs[0]| < |s| && FitsText(s[|fs[0]| + 1..], fs[1..])
    ensures MatchText(s[|fs[0]| + 1..], n - 1) == Some(MatchText(s, n).value[1..])
  {
    FitsUncons(s, fs);
    AfterFirst(s, fs[0], s[|fs[0]| + 1..], n);
  }

  /** The fields matched are text fields that make up `s`, commas included. */
  lemma {:induction false} MatchTextFits(s: string, n: nat)
    requires n >= 1 && MatchText(s, n).Some?
    ensures FitsText(s, MatchText(s, n).value)
    decreases n
  {
    var r := MatchText(s, n).value;
    if n == 1 {
      assert r == [s];
    } else {
      MatchTextSplit(s, n);
      var i := |r[0]|;
      var rest := r[1..];
      MatchTextFits(s[i + 1..], n - 1);
      FitsCons(s, i, rest);
      assert r == [s[..i]] + rest;
    }
  }

  /** Whenever the `n` fields can be matched, they are. */
  lemma {:induction false} MatchTextComplete(s: string, fs: seq<string>, n: nat)
    requires FitsText(s, fs) && n == |fs|
    ensures MatchText(s, n).Some?
    decreases n
  {
    if n > 1 {
      FitsUncons(s, fs);
      var f := fs[0];
      var t := s[|f| + 1..];
      MatchTextComplete(t, fs[1..], n - 1);
      FieldChosen(s, f, t, n);
    }
  }

  /** A quoted first field that leaves a match for the rest is the one chosen. */
  lemma {:induction false} QuotedFirstPreferred(s: string, fs: seq<string>, n: nat)
    requires FitsText(s, fs) && n == |fs| && n >= 2 && Quoted(fs[0])
    ensures MatchText(s, n).Some? && MatchText(s, n).value[0] == fs[0]
  {
    FitsUncons(s, fs);
    var f := fs[0];
    var t := s[|f| + 1..];
    MatchTextComplete(t, fs[1..], n - 1);
    QuotedChosen(s, f, t, n);
  }

  /** The chosen fields are the first the pattern reaches: where they differ from any
      other way of matching the line, the chosen field is the quoted alternative. */
  lemma {:induction false} MatchTextPriority(s: string, fs: seq<string>, n: nat, k: nat)
    requires FitsText(s, fs) && n == |fs| && k < n && MatchText(s, n).Some?
    requires MatchText(s, n).value[..k] == fs[..k]
    requires Quoted(fs[k])
    ensures MatchText(s, n).value[k] == fs[k]
    decreases k, 1
  {
    if n == 1 {
      assert MatchText(s, n).value == [s];
      assert s == fs[0];
    } else if k == 0 {
      QuotedFirstPreferred(s, fs, n);
    } else {
      PriorityAfterFirst(s, fs, n, k);
    }
  }

  /** Past an agreeing first field, the priority holds of the rest of the line. */
  lemma {:induction false} PriorityAfterFirst(s: string, fs: seq<string>, n: nat, k: nat)
    requires FitsText(s, fs) && n == |fs| && 1 <= k < n && MatchText(s, n).Some?
    requires MatchText(s, n).value[..k] == fs[..k]
    requires Quoted(fs[k])
    ensures MatchText(s, n).value[k] == fs[k]
    decreases k, 0
  {
    var r := MatchText(s, n).value;
    PrefixTail(r, fs, k);
    RestAfterFirst(s, fs, n);
    MatchTextPriority(s[|fs[0]| + 1..], fs[1..], n - 1, k - 1);
    TailAt(r, k);
    TailAt(fs, k);
  }

  lemma {:induction false} PrefixTail<T>(a: seq<T>, b: seq<T>, k: nat)
    requires 1 <= k <= |a| && k <= |b| && a[..k] == b[..k]
    ensures a[0] == b[0] && a[1..][..k - 1] == b[1..][..k - 1]
  {
    assert a[0] == a[..k][0] && b[0] == b[..k][0];
    assert a[1..][..k - 1] == a[..k][1..] && b[1..][..k - 1] == b[..k][1..];
  }

  lemma {:induction false} TailAt<T>(a: seq<T>, k: nat)
    requires 1 <= k < |a|
    ensures a[1..][k - 1] == a[k]
  {
  }

  // The whole line

  datatype Fields = Fields(
    book: string, chapter: string, verse: string,
    assyrian: string, transliteration: string, english: string)

  /** `line` is the six fields joined by commas, each of its own shape. */
  predicate Fits(line: string, d: Fields) {
    Plain(d.book) && Plain(d.chapter) && Plain(d.verse)
    && TextField(d.assyrian) && TextField(d.transliteration) && TextField(d.english)
    && line == d.book + "," + (d.chapter + "," + (d.verse + "," + TextPart(d)))
  }

  /** The last three fields with their commas. */
  function TextPart(d: Fields): string {
    Join([d.assyrian, d.transliteration, d.english], ",")
  }

  /** Three fitting text fields after the first three fields. */
  lemma {:induction false} FitsOfParts(line: string, r1: string, r2: string, r3: string, d: Fields, t: seq<string>)
    requires Plain(d.book) && Plain(d.chapter) && Plain(d.verse)
    requires line == d.book + "," + r1 && r1 == d.chapter + "," + r2 && r2 == d.verse + "," + r3
    requires |t| == 3 && FitsText(r3, t)
    requires d.assyrian == t[0] && d.transliteration == t[1] && d.english == t[2]
    ensures Fits(line, d)
  {
    FitsTextJoin(r3, t);
    assert t == [t[0], t[1], t[2]];
  }

  /** Splits off the plain field before the first comma. */
  function PlainThenComma(s: string): (r: Option<(string, string)>)
  {
    var p := FirstComma(s);
    if p == |s| then None else Some((s[..p], s[p + 1..]))
  }

  /** What is split off has no comma, and the comma joins the two parts back. */
  lemma {:induction false} PlainThenCommaSpec(s: string)
    ensures PlainThenComma(s).None? <==> ',' !in s
    ensures PlainThenComma(s).Some? ==>
              var (f, t) := PlainThenComma(s).value;
              Plain(f) && s == f + "," + t
  {
    var p := FirstComma(s);
    FirstCommaSpec(s);
    if p < |s| {
      assert s == s[..p] + "," + s[p + 1..];
    }
  }

  lemma {:induction false} PlainThenCommaOf(f: string, t: string)
    requires Plain(f)
    ensures PlainThenComma(f + "," + t) == Some((f, t))
  {
    FirstCommaOf(f, t);
    assert f + "," + t == f + ("," + t);
    assert (f + "," + t)[..|f|] == f && (f + "," + t)[|f| + 1..] == t;
  }

  /** Lines 19 and 22 (33 and 36): the six captured fields, or `None` when the line does
      not have the shape. */
  function MatchLine(line: string): (r: Option<Fields>)
  {
    match PlainThenComma(line)
    case None => None
    case Some((book, r1)) =>
      match PlainThenComma(r1)
      case None => None
      case Some((chapter, r2)) =>
        match PlainThenComma(r2)
        case None => None
        case Some((verse, r3)) =>
          match MatchText(r3, 3)
          case None => None
          case Some(t) => Some(Fields(book, chapter, verse, t[0], t[1], t[2]))
  }

  /** Every match splits the line into six fields of their shapes. */
  lemma {:induction false} MatchLineSound(line: string)
    ensures MatchLine(line).Some? ==> Fits(line, MatchLine(line).value)
  {
    if MatchLine(line).Some? {
      PlainThenCommaSpec(line);
      var (book, r1) := PlainThenComma(line).value;
      PlainThenCommaSpec(r1);
      var (chapter, r2) := PlainThenComma(r1).value;
      PlainThenCommaSpec(r2);
      var (verse, r3) := PlainThenComma(r2).value;
      var t := MatchText(r3, 3).value;
      MatchTextFits(r3, 3);
      FitsOfParts(line, r1, r2, r3, MatchLine(line).value, t);
    }
  }

  /** A line matches exactly when it can be split into the six fields; the first three
      are then those of every such split, and where the last three can be split in
      more than one way the quoted alternative wins, field by field from the left. */
  lemma {:induction false} MatchLineComplete(line: string, d: Fields)
    requires Fits(line, d)
    ensures MatchLine(line).Some?
    ensures MatchLine(line).value.book == d.book
    ensures MatchLine(line).value.chapter == d.chapter
    ensures MatchLine(line).value.verse == d.verse
    ensures Quoted(d.assyrian) ==> MatchLine(line).value.assyrian == d.assyrian
    ensures MatchLine(line).value.assyrian == d.assyrian && Quoted(d.transliteration)
            ==> MatchLine(line).value.transliteration == d.transliteration
  {
    MatchLineOfParts(line, d);
    TextPartMatch(d);
  }

  /** The first three fields of a fitting line are found at its first three commas. */
  lemma {:induction false} MatchLineOfParts(line: string, d: Fields)
    requires Fits(line, d)
    ensures var m := MatchText(TextPart(d), 3);
            MatchLine(line)
            == if m.None? then None
               else Some(Fields(d.book, d.chapter, d.verse, m.value[0], m.value[1], m.value[2]))
  {
    var r3 := TextPart(d);
    var r2 := d.verse + "," + r3;
    var r1 := d.chapter + "," + r2;
    PlainThenCommaOf(d.book, r1);
    PlainThenCommaOf(d.chapter, r2);
    PlainThenCommaOf(d.verse, r3);
  }

  /** The last three fields always match; a quoted field is kept whole wherever the
      fields before it agree. */
  lemma {:induction false} TextPartMatch(d: Fields)
    requires TextField(d.assyrian) && TextField(d.transliteration) && TextField(d.english)
    ensures var m := MatchText(TextPart(d), 3);
            m.Some?
            && (Quoted(d.assyrian) ==> m.value[0] == d.assyrian)
            && (m.value[0] == d.assyrian && Quoted(d.transliteration) ==> m.value[1] == d.transliteration)
  {
    var ts := [d.assyrian, d.transliteration, d.english];
    var r3 := TextPart(d);
    FitsTextJoin(r3, ts);
    MatchTextComplete(r3, ts, 3);
    var t := MatchText(r3, 3).value;
    if Quoted(d.assyrian) {
      MatchTextPriority(r3, ts, 3, 0);
    }
    if t[0] == d.assyrian && Quoted(d.transliteration) {
      assert t[..1] == [t[0]] == ts[..1];
      MatchTextPriority(r3, ts, 3, 1);
    }
  }

  // cleanField

  /** `.replace(/^"|"$/g, '')`: drops one leading and one trailing double quote. A field
      quoted at both ends loses both quotes, one quoted at one end loses that quote, and
      any other field is unchanged. */
  function StripQuotes(f: string): (r: string)
    ensures |f| >= 2 && f[0] == '"' && f[|f| - 1] == '"' ==> r == f[1..|f| - 1]
    ensures f != [] && f[0] == '"' && (|f| == 1 || f[|f| - 1] != '"') ==> r == f[1..]
    ensures f != [] && f[0] != '"' && f[|f| - 1] == '"' ==> r == f[..|f| - 1]
    ensures f == [] || (f[0] != '"' && f[|f| - 1] != '"') ==> r == f
  {
    var a := if f != [] && f[0] == '"' then f[1..] else f;
    if a != [] && a[|a| - 1] == '"' then a[..|a| - 1] else a
  }

  /** One character of a value as written: `q` twice, anything else once. */
  function Doubled(q: char, c: char): string {
    if c == q then [q, q] else [c]
  }

  /** Writes every `q` twice. */
  function Pair(q: char, v: string): (r: string)
    ensures |r| >= |v|
  {
    if v == [] then [] else Doubled(q, v[0]) + Pair(q, v[1..])
  }

  /** Replaces each `qq`, scanning from the left, by one `q`: `.replace(/""/g, '"')`
      for `q` the double quote. */
  function Collapse(q: char, s: string): (r: string)
    ensures |r| <= |s|
  {
    if s == [] then []
    else if |s| >= 2 && s[0] == q && s[1] == q then [q] + Collapse(q, s[2..])
    else [s[0]] + Collapse(q, s[1..])
  }

  lemma {:induction false} CollapsePair(q: char, v: string)
    ensures Collapse(q, Pair(q, v)) == v
  {
    if v != [] {
      CollapsePair(q, v[1..]);
      var p := Pair(q, v);
      if v[0] == q {
        assert p == [q, q] + Pair(q, v[1..]);
        assert p[2..] == Pair(q, v[1..]);
      } else {
        assert p == [v[0]] + Pair(q, v[1..]);
        assert p[1..] == Pair(q, v[1..]);
      }
      assert v == [v[0]] + v[1..];
    }
  }

  /** The body of a quoted field is the pairing of its collapse. */
  lemma {:induction false} PairCollapse(b: string)
    requires QuotedBody(b)
    ensures Pair('"', Collapse('"', b)) == b
    decreases |b|
  {
    if b != [] {
      if b[0] != '"' {
        PairCollapse(b[1..]);
        if |b| >= 2 && b[1] == '"' {
        }
        var c := Collapse('"', b);
        assert c == [b[0]] + Collapse('"', b[1..]);
        assert c[0] == b[0] && c[1..] == Collapse('"', b[1..]);
      } else {
        PairCollapse(b[2..]);
        var c := Collapse('"', b);
        assert c == ['"'] + Collapse('"', b[2..]);
        assert c[0] == '"' && c[1..] == Collapse('"', b[2..]);
        assert b == ['"', '"'] + b[2..];
      }
    }
  }

  lemma {:induction false} PairedIsBody(v: string)
    ensures QuotedBody(Pair('"', v))
  {
    if v != [] {
      PairedIsBody(v[1..]);
      var p := Pair('"', v);
      if v[0] == '"' {
        assert p[2..] == Pair('"', v[1..]);
      } else {
        assert p[1..] == Pair('"', v[1..]);
      }
    }
  }

  /** The two scripts' `cleanField`: scripts/import-bible-verses.js doubles single quotes
      for SQL text, scripts/import-to-supabase.js does not. */
  datatype Dialect = SqlScript | DirectInsert

  /** scripts/import-bible-verses.js:24-26 and scripts/import-to-supabase.js:38-40 */
  function CleanField(d: Dialect, f: string): string {
    var t := Trim(Collapse('"', StripQuotes(f)));
    if d == SqlScript then Pair('\'', t) else t
  }

  /** `cleanField` applied to each field in turn. */
  function CleanAll(d: Dialect, fs: seq<string>): (r: seq<string>)
    ensures |r| == |fs|
  {
    if fs == [] then [] else CleanAll(d, fs[..|fs| - 1]) + [CleanField(d, fs[|fs| - 1])]
  }

  lemma {:induction false} CleanAllAt(d: Dialect, fs: seq<string>, k: nat)
    requires k < |fs|
    ensures CleanAll(d, fs)[k] == CleanField(d, fs[k])
    decreases |fs|
  {
    if k < |fs| - 1 {
      CleanAllAt(d, fs[..|fs| - 1], k);
    }
  }

  /** The six captures, each passed through `cleanField`. */
  function CleanFields(d: Dialect, f: Fields): Fields {
    var c := CleanAll(d, [f.book, f.chapter, f.verse, f.assyrian, f.transliteration, f.english]);
    Fields(c[0], c[1], c[2], c[3], c[4], c[5])
  }

  lemma {:induction false} CleanFieldsOf(d: Dialect, f: Fields)
    ensures CleanFields(d, f) == Fields(CleanField(d, f.book), CleanField(d, f.chapter), CleanField(d, f.verse),
                                        CleanField(d, f.assyrian), CleanField(d, f.transliteration), CleanField(d, f.english))
  {
    var fs := [f.book, f.chapter, f.verse, f.assyrian, f.transliteration, f.english];
    CleanAllAt(d, fs, 0);
    CleanAllAt(d, fs, 1);
    CleanAllAt(d, fs, 2);
    CleanAllAt(d, fs, 3);
    CleanAllAt(d, fs, 4);
    CleanAllAt(d, fs, 5);
  }

  /** A cleaned field is empty exactly when what is left inside the quotes is all
      whitespace; the direct import's value starts and ends with non-space characters. */
  lemma {:induction false} CleanFieldSpec(d: Dialect, f: string)
    ensures d == DirectInsert ==> CleanField(d, f) == [] || (IsNonSpace(CleanField(d, f)[0]) && IsNonSpace(CleanField(d, f)[|CleanField(d, f)| - 1]))
    ensures CleanField(d, f) == [] <==> AllSpace(Collapse('"', StripQuotes(f)))
  {
    TrimSpec(Collapse('"', StripQuotes(f)));
  }

  /** A value written as a quoted CSV field, with its quotes doubled, cleans back to the
      value less its surrounding whitespace. */
  lemma {:induction false} CleanQuotedField(v: string)
    ensures Quoted(['"'] + Pair('"', v) + ['"'])
    ensures CleanField(DirectInsert, ['"'] + Pair('"', v) + ['"']) == Trim(v)
    ensures CleanField(SqlScript, ['"'] + Pair('"', v) + ['"']) == Pair('\'', Trim(v))
  {
    var p := Pair('"', v);
    var f := ['"'] + p + ['"'];
    PairedIsBody(v);
    assert f[1..|f| - 1] == p;
    assert f[1..] == p + ['"'];
    assert StripQuotes(f) == p;
    CollapsePair('"', v);
  }

  /** A field read by the pattern's quoted alternative cleans to its collapsed body,
      trimmed. */
  lemma {:induction false} CleanOfQuoted(f: string)
    requires Quoted(f)
    ensures CleanField(DirectInsert, f) == Trim(Collapse('"', f[1..|f| - 1]))
  {
  }

  /** The SQL script's value is the direct value with its single quotes doubled; the
      two are empty together. */
  lemma {:induction false} CleanDialects(f: string)
    ensures CleanField(SqlScript, f) == Pair('\'', CleanField(DirectInsert, f))
    ensures CleanField(SqlScript, f) == [] <==> CleanField(DirectInsert, f) == []
  {
  }

  // Reading the SQL text back

  /** Reads an SQL string literal's contents up to its closing quote (a `'` not followed
      by another `'`), giving the value and the length read including that quote. */
  function ReadSqlString(s: string): (r: Option<(string, nat)>)
    ensures r.Some? ==> r.value.1 <= |s|
  {
    if s == [] then None
    else if s[0] != '\'' then
      match ReadSqlString(s[1..])
      case None => None
      case Some((v, n)) => Some(([s[0]] + v, n + 1))
    else if |s| >= 2 && s[1] == '\'' then
      match ReadSqlString(s[2..])
      case None => None
      case Some((v, n)) => Some((['\''] + v, n + 2))
    else Some(([], 1))
  }

  /** The literal's first character, or its doubled quote, in front of the rest. */
  lemma {:induction false} ReadSqlCons(c: char, rest: string, v: string, n: nat)
    requires ReadSqlString(rest) == Some((v, n))
    ensures ReadSqlString(Doubled('\'', c) + rest) == Some(([c] + v, n + |Doubled('\'', c)|))
  {
    if c == '\'' {
      assert (['\'', '\''] + rest)[2..] == rest;
    } else {
      assert ([c] + rest)[1..] == rest;
    }
  }

  lemma {:induction false} RegroupLiteral(a: string, b: string, t: string)
    ensures a + (b + ['\''] + t) == a + b + ['\''] + t
  {
  }

  /** A doubled value between single quotes reads back as the value, and the literal
      ends at its own closing quote whatever the value holds. */
  lemma {:induction false} ReadDoubled(v: string, t: string)
    requires t == [] || t[0] != '\''
    ensures ReadSqlString(Pair('\'', v) + ['\''] + t) == Some((v, |Pair('\'', v)| + 1))
  {
    if v == [] {
      assert Pair('\'', v) + ['\''] + t == ['\''] + t;
    } else {
      var head := Doubled('\'', v[0]);
      var tail := Pair('\'', v[1..]);
      ReadDoubled(v[1..], t);
      ReadSqlCons(v[0], tail + ['\''] + t, v[1..], |tail| + 1);
      RegroupLiteral(head, tail, t);
      assert [v[0]] + v[1..] == v;
    }
  }
}
