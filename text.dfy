/** The JavaScript string built-ins the core relies on: `trim`, `split`, `join`,
    the regular-expression classes `\s`, `\d`, `\w`, and `parseInt` on digit runs.
    Whitespace is ASCII whitespace (space, tab, line feed, vertical tab, form feed,
    carriage return). */
module Text {

  datatype Option<+T> = None | Some(value: T)

  function Min(a: int, b: int): int { if a <= b then a else b }

  /** `\s` and what `trim` removes */
  predicate IsSpace(c: char) {
    c == ' ' || c == '\t' || c == '\n' || c == '\r' || c == '\U{B}' || c == '\U{C}'
  }

  predicate IsNonSpace(c: char) { !IsSpace(c) }

  /** `\d` */
  predicate IsDigit(c: char) { '0' <= c <= '9' }

  /** `\w` */
  predicate IsWordChar(c: char) { 'A' <= c <= 'Z' || 'a' <= c <= 'z' || IsDigit(c) || c == '_' }

  /** The character classes the core scans runs of. */
  datatype CharClass = Space | NonSpace | Digit

  predicate InClass(k: CharClass, c: char) {
    match k
    case Space => IsSpace(c)
    case NonSpace => IsNonSpace(c)
    case Digit => IsDigit(c)
  }

  predicate AllSpace(s: string) { forall i :: 0 <= i < |s| ==> IsSpace(s[i]) }
  predicate AllDigits(s: string) { forall i :: 0 <= i < |s| ==> IsDigit(s[i]) }
  predicate AllWord(s: string) { forall i :: 0 <= i < |s| ==> IsWordChar(s[i]) }

  /** Length of the longest prefix of `s` whose characters satisfy `p`. */
  function LeadRun(s: string, k: CharClass): (n: nat)
    ensures n <= |s|
    ensures forall i :: 0 <= i < n ==> InClass(k, s[i])
    ensures n < |s| ==> !InClass(k, s[n])
  {
    if |s| > 0 && InClass(k, s[0]) then 1 + LeadRun(s[1..], k) else 0
  }

  /** Length of the longest suffix of `s` whose characters satisfy `p`. */
  function TrailRun(s: string, k: CharClass): (n: nat)
    ensures n <= |s|
    ensures forall i :: |s| - n <= i < |s| ==> InClass(k, s[i])
    ensures n < |s| ==> !InClass(k, s[|s| - 1 - n])
  {
    if |s| > 0 && InClass(k, s[|s| - 1]) then 1 + TrailRun(s[..|s| - 1], k) else 0
  }

  lemma {:induction false} LeadRunOf(a: string, b: string, k: CharClass)
    requires forall i :: 0 <= i < |a| ==> InClass(k, a[i])
    requires b == [] || !InClass(k, b[0])
    ensures LeadRun(a + b, k) == |a|
  {
    var s := a + b;
    assert forall i :: 0 <= i < |a| ==> s[i] == a[i];
    if b != [] {
      assert s[|a|] == b[0];
    }
  }

  lemma {:induction false} TrailRunOf(a: string, b: string, k: CharClass)
    requires forall i :: 0 <= i < |b| ==> InClass(k, b[i])
    requires a == [] || !InClass(k, a[|a| - 1])
    ensures TrailRun(a + b, k) == |b|
  {
    var s := a + b;
    assert forall i :: |a| <= i < |s| ==> s[i] == b[i - |a|];
    if a != [] {
      assert s[|a| - 1] == a[|a| - 1];
    }
  }

  /** `String.prototype.trimStart`: drop leading whitespace. */
  function TrimStart(s: string): string {
    if s != [] && IsSpace(s[0]) then TrimStart(s[1..]) else s
  }

  /** `String.prototype.trimEnd`: drop trailing whitespace. */
  function TrimEnd(s: string): string {
    if s != [] && IsSpace(s[|s| - 1]) then TrimEnd(s[..|s| - 1]) else s
  }

  /** `String.prototype.trim`: drop leading and trailing whitespace. */
  function Trim(s: string): string {
    TrimEnd(TrimStart(s))
  }

  /** Trimming the start drops exactly the leading whitespace run. */
  lemma {:induction false} TrimStartRun(s: string)
    ensures TrimStart(s) == s[LeadRun(s, Space)..]
  {
    if s != [] && IsSpace(s[0]) {
      TrimStartRun(s[1..]);
      assert s[1..][LeadRun(s[1..], Space)..] == s[1 + LeadRun(s[1..], Space)..];
    }
  }

  /** Trimming the end drops exactly the trailing whitespace run. */
  lemma {:induction false} TrimEndRun(s: string)
    ensures TrimEnd(s) == s[..|s| - TrailRun(s, Space)]
  {
    if s != [] && IsSpace(s[|s| - 1]) {
      TrimEndRun(s[..|s| - 1]);
      assert s[..|s| - 1][..|s| - 1 - TrailRun(s[..|s| - 1], Space)] == s[..|s| - TrailRun(s, Space)];
    }
  }

  /** `trim` keeps what lies between the leading and the trailing whitespace runs. */
  lemma {:induction false} TrimRuns(s: string)
    ensures var t := s[LeadRun(s, Space)..];
            Trim(s) == t[..|t| - TrailRun(t, Space)]
  {
    TrimStartRun(s);
    TrimEndRun(TrimStart(s));
  }

  /** Trimming leaves nothing exactly when the text is all whitespace, and otherwise
      text that starts and ends with a non-space character. */
  lemma {:induction false} TrimSpec(s: string)
    ensures Trim(s) == [] <==> AllSpace(s)
    ensures Trim(s) != [] ==> IsNonSpace(Trim(s)[0]) && IsNonSpace(Trim(s)[|Trim(s)| - 1])
  {
    TrimRuns(s);
    var a := LeadRun(s, Space);
    var t := s[a..];
    var b := TrailRun(t, Space);
    if b == |t| {
      forall i | 0 <= i < |s|
        ensures IsSpace(s[i])
      {
        assert InClass(Space, s[i]);
      }
    } else {
      assert t[0] == s[a] && !InClass(Space, s[a]);
      assert !InClass(Space, t[|t| - 1 - b]);
    }
  }

  /** Trimming removes exactly the surrounding whitespace runs. */
  lemma {:induction false} TrimOf(a: string, b: string, c: string)
    requires AllSpace(a) && AllSpace(c)
    requires b != [] && IsNonSpace(b[0]) && IsNonSpace(b[|b| - 1])
    ensures Trim(a + b + c) == b
  {
    var s := a + b + c;
    TrimRuns(s);
    assert s == a + (b + c);
    LeadRunOf(a, b + c, Space);
    assert s[|a|..] == b + c;
    TrailRunOf(b, c, Space);
  }

  lemma {:induction false} TrimNoSurroundingSpace(s: string)
    requires s != [] && IsNonSpace(s[0]) && IsNonSpace(s[|s| - 1])
    ensures Trim(s) == s
  {
    TrimOf([], s, []);
    assert [] + s + [] == s;
  }

  lemma {:induction false} TrimIdempotent(s: string)
    ensures Trim(Trim(s)) == Trim(s)
  {
    TrimSpec(s);
    if Trim(s) != [] {
      TrimNoSurroundingSpace(Trim(s));
    }
  }

  /** `replace(/\s+/g, '')` */
  function RemoveSpaces(s: string): (r: string)
    ensures forall i :: 0 <= i < |r| ==> IsNonSpace(r[i])
    ensures |r| <= |s|
  {
    if s == [] then []
    else (if IsSpace(s[0]) then [] else [s[0]]) + RemoveSpaces(s[1..])
  }

  lemma {:induction false} RemoveSpacesAppend(a: string, b: string)
    ensures RemoveSpaces(a + b) == RemoveSpaces(a) + RemoveSpaces(b)
  {
    if a == [] {
      assert a + b == b;
    } else {
      assert (a + b)[1..] == a[1..] + b;
      RemoveSpacesAppend(a[1..], b);
    }
  }

  lemma {:induction false} RemoveSpacesOfAllSpace(s: string)
    requires AllSpace(s)
    ensures RemoveSpaces(s) == []
  {
    if s != [] {
      RemoveSpacesOfAllSpace(s[1..]);
    }
  }

  lemma {:induction false} RemoveSpacesOfNoSpace(s: string)
    requires forall i :: 0 <= i < |s| ==> IsNonSpace(s[i])
    ensures RemoveSpaces(s) == s
  {
    if s != [] {
      RemoveSpacesOfNoSpace(s[1..]);
    }
  }

  /** `String.prototype.split` with a one-character separator. */
  function Split(s: string, sep: char): (parts: seq<string>)
    ensures |parts| >= 1
    ensures forall k :: 0 <= k < |parts| ==> sep !in parts[k]
  {
    if s == [] then [[]]
    else
      var rest := Split(s[1..], sep);
      if s[0] == sep then [[]] + rest else [[s[0]] + rest[0]] + rest[1..]
  }

  /** `Array.prototype.join` */
  function Join(parts: seq<string>, sep: string): string
  {
    if |parts| == 0 then []
    else if |parts| == 1 then parts[0]
    else parts[0] + sep + Join(parts[1..], sep)
  }

  /** Joining the pieces of a split gives back the string. */
  lemma {:induction false} JoinSplit(s: string, sep: char)
    ensures Join(Split(s, sep), [sep]) == s
  {
    if s != [] {
      var rest := Split(s[1..], sep);
      JoinSplit(s[1..], sep);
      if s[0] == sep {
        assert Split(s, sep)[1..] == rest;
      } else {
        var parts := Split(s, sep);
        if |rest| == 1 {
          assert parts == [[s[0]] + rest[0]];
        } else {
          assert parts[1..] == rest[1..];
          assert Join(rest, [sep]) == rest[0] + [sep] + Join(rest[1..], [sep]);
        }
      }
    }
  }

  /** Splitting a join of separator-free pieces gives back the pieces. */
  lemma {:induction false} SplitJoin(parts: seq<string>, sep: char)
    requires |parts| >= 1
    requires forall k :: 0 <= k < |parts| ==> sep !in parts[k]
    ensures Split(Join(parts, [sep]), sep) == parts
  {
    if |parts| == 1 {
      SplitNoSep(parts[0], sep);
    } else {
      SplitJoin(parts[1..], sep);
      SplitAfter(parts[0], Join(parts[1..], [sep]), sep);
      assert [parts[0]] + parts[1..] == parts;
    }
  }

  lemma {:induction false} SplitNoSep(s: string, sep: char)
    requires sep !in s
    ensures Split(s, sep) == [s]
  {
    if s != [] {
      SplitNoSep(s[1..], sep);
      assert [s[0]] + s[1..] == s;
    }
  }

  /** A separator-free prefix followed by the separator is the first piece. */
  lemma {:induction false} SplitAfter(a: string, b: string, sep: char)
    requires sep !in a
    ensures Split(a + [sep] + b, sep) == [a] + Split(b, sep)
  {
    var s := a + [sep] + b;
    if a == [] {
      assert s[1..] == b;
    } else {
      assert s[1..] == a[1..] + [sep] + b;
      SplitAfter(a[1..], b, sep);
      assert [a[0]] + a[1..] == a;
    }
  }

  /** The first piece of a split is the longest separator-free prefix. */
  lemma {:induction false} SplitFirstPrefix(s: string, sep: char)
    ensures |Split(s, sep)[0]| <= |s| && Split(s, sep)[0] == s[..|Split(s, sep)[0]|]
  {
    if s != [] {
      SplitFirstPrefix(s[1..], sep);
    }
  }

  function DigitValue(c: char): nat
    requires IsDigit(c)
  {
    c as int - '0' as int
  }

  /** `parseInt` of a string of decimal digits */
  function DecimalValue(s: string): nat
    requires AllDigits(s)
  {
    if s == [] then 0 else 10 * DecimalValue(s[..|s| - 1]) + DigitValue(s[|s| - 1])
  }

  /** The shortest decimal numeral for `n`. */
  function DecimalString(n: nat): (s: string)
    ensures |s| > 0 && AllDigits(s)
    ensures |s| > 1 ==> s[0] != '0'
  {
    var d := ['0' + (n % 10) as char];
    if n < 10 then d else DecimalString(n / 10) + d
  }

  lemma {:induction false} DecimalRoundTrip(n: nat)
    ensures DecimalValue(DecimalString(n)) == n
  {
    var s := DecimalString(n);
    if n >= 10 {
      DecimalRoundTrip(n / 10);
      assert s[..|s| - 1] == DecimalString(n / 10);
    }
  }

  /** What `parseInt` reads its digits from: the text after leading whitespace and an
      optional sign. */
  function Unsigned(s: string): string {
    var t := TrimStart(s);
    if t != [] && (t[0] == '+' || t[0] == '-') then t[1..] else t
  }

  predicate Negative(s: string) {
    var t := TrimStart(s);
    t != [] && t[0] == '-'
  }

  /** `parseInt` without a radix, on decimal text: the longest run of digits after the
      leading whitespace and sign, `None` standing for `NaN` when there is none. */
  function ParseInt(s: string): (r: Option<int>)
    ensures r.Some? <==> Unsigned(s) != [] && IsDigit(Unsigned(s)[0])
    ensures r.Some? && !Negative(s) ==> r.value >= 0
  {
    var u := Unsigned(s);
    var n := LeadRun(u, Digit);
    if n == 0 then None
    else
      assert AllDigits(u[..n]) by {
        assert forall i :: 0 <= i < n ==> u[..n][i] == u[i];
      }
      var m: int := DecimalValue(u[..n]);
      Some(if Negative(s) then -m else m)
  }

  /** A run of digits followed by anything but a digit reads as its decimal value. */
  lemma {:induction false} ParseIntPrefix(a: string, t: string)
    requires a != [] && AllDigits(a)
    requires t == [] || !IsDigit(t[0])
    ensures ParseInt(a + t) == Some(DecimalValue(a))
  {
    var s := a + t;
    assert s[0] == a[0];
    assert TrimStart(s) == s;
    assert Unsigned(s) == s;
    LeadRunOf(a, t, Digit);
    assert s[..|a|] == a;
  }

  /** A numeral reads back as its number, whatever non-digit text follows it. */
  lemma {:induction false} ParseIntOfNumeral(n: nat, t: string)
    requires t == [] || !IsDigit(t[0])
    ensures ParseInt(DecimalString(n) + t) == Some(n)
  {
    ParseIntPrefix(DecimalString(n), t);
    DecimalRoundTrip(n);
  }
}
