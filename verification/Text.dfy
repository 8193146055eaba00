/** The string operations the trace tools rely on: decimal numbers, splitting, stripping.
    Only ASCII text is considered. */
module Text {
  import opened Common

  // ---------- decimal numbers ----------

  predicate IsDigit(c: char) { '0' <= c <= '9' }

  function DigitChar(d: nat): (c: char)
    requires d < 10
    ensures IsDigit(c) && DigitValue(c) == d
  {
    '0' + d as char
  }

  function DigitValue(c: char): (d: nat)
    requires IsDigit(c)
    ensures d < 10
  {
    (c - '0') as nat
  }

  /** The decimal form of a natural number. */
  function Digits(n: nat): (s: string)
    ensures s != "" && forall c :: c in s ==> IsDigit(c)
  {
    if n < 10 then [DigitChar(n)] else Digits(n / 10) + [DigitChar(n % 10)]
  }

  /** What `int` accepts as the digits of a number: single underscores may separate digits. */
  predicate IsNumeral(s: string) {
    && s != "" && IsDigit(s[|s| - 1])
    && (|s| == 1 || IsNumeral(s[..|s| - 1]) || (s[|s| - 2] == '_' && IsNumeral(s[..|s| - 2])))
  }

  /** The number a digit string denotes; underscores are skipped. */
  function NumeralValue(s: string): nat {
    if s == "" then 0
    else
      var c, front := s[|s| - 1], NumeralValue(s[..|s| - 1]);
      if IsDigit(c) then 10 * front + DigitValue(c) else front
  }

  predicate IsSpace(c: char) {
    c == ' ' || '\t' <= c <= '\r' || 28 as char <= c <= 31 as char
  }

  function StripLeft(s: string): string {
    if s != "" && IsSpace(s[0]) then StripLeft(s[1..]) else s
  }

  function StripRight(s: string): string {
    if s != "" && IsSpace(s[|s| - 1]) then StripRight(s[..|s| - 1]) else s
  }

  function Strip(s: string): string { StripRight(StripLeft(s)) }

  /** Python's `int` on a string. */
  function ParseInt(s: string): Option<int> {
    var t := Strip(s);
    if t != "" && t[0] == '-' then
      if IsNumeral(t[1..]) then Some(0 - NumeralValue(t[1..])) else None
    else if t != "" && t[0] == '+' then
      if IsNumeral(t[1..]) then Some(NumeralValue(t[1..])) else None
    else if IsNumeral(t) then Some(NumeralValue(t)) else None
  }

  lemma {:induction false} DigitsValue(n: nat)
    ensures IsNumeral(Digits(n)) && NumeralValue(Digits(n)) == n
  {
    if n >= 10 {
      DigitsValue(n / 10);
      assert Digits(n)[..|Digits(n)| - 1] == Digits(n / 10);
    }
  }

  ghost predicate NoSpace(s: string) {
    forall c :: c in s ==> !IsSpace(c)
  }

  lemma StripNothing(s: string)
    requires NoSpace(s)
    ensures Strip(s) == s
  {
  }

  lemma StripNewline(s: string)
    requires NoSpace(s) && s != ""
    ensures Strip(s + "\n") == s
  {
    var t := s + "\n";
    assert t[0] == s[0] && s[0] in s && s[|s| - 1] in s;
    assert StripLeft(t) == t && t[|t| - 1] == '\n' && t[..|t| - 1] == s;
    assert StripRight(t) == StripRight(s);
  }

  lemma ParseDigits(n: nat)
    ensures ParseInt(Digits(n)) == Some(n)
  {
    var s := Digits(n);
    assert s[0] in s;
    StripNothing(s);
    DigitsValue(n);
  }

  // ---------- splitting ----------

  /** Python's `split` at a single character. */
  function Split(s: string, sep: char): (parts: seq<string>)
    ensures parts != []
  {
    if s == "" then [""]
    else
      var p, c := Split(s[..|s| - 1], sep), s[|s| - 1];
      if c == sep then p + [""] else AppendLast(p, [c])
  }

  /** Appends to the last part. */
  function AppendLast(p: seq<string>, b: string): (r: seq<string>)
    requires p != []
    ensures r != []
  {
    p[..|p| - 1] + [p[|p| - 1] + b]
  }

  lemma AppendLastTwice(p: seq<string>, a: string, b: string)
    requires p != []
    ensures AppendLast(AppendLast(p, a), b) == AppendLast(p, a + b)
  {
    assert AppendLast(p, a)[..|p| - 1] == p[..|p| - 1];
    assert p[|p| - 1] + a + b == p[|p| - 1] + (a + b);
  }

  lemma AppendLastNothing(p: seq<string>)
    requires p != []
    ensures AppendLast(p, "") == p
  {
    assert p[|p| - 1] + "" == p[|p| - 1];
  }

  lemma SplitChar(s: string, c: char, sep: char)
    ensures var p := Split(s, sep);
            Split(s + [c], sep) == if c == sep then p + [""] else AppendLast(p, [c])
  {
    assert (s + [c])[..|s|] == s;
  }

  lemma {:induction false} SplitAppend(a: string, b: string, sep: char)
    requires sep !in b
    ensures Split(a + b, sep) == AppendLast(Split(a, sep), b)
  {
    if b == "" {
      assert a + b == a;
      AppendLastNothing(Split(a, sep));
    } else {
      var front, c := b[..|b| - 1], b[|b| - 1];
      SplitAppend(a, front, sep);
      assert a + b == (a + front) + [c] && c in b && b == front + [c];
      SplitChar(a + front, c, sep);
      AppendLastTwice(Split(a, sep), front, [c]);
    }
  }

  lemma SplitPart(a: string, b: string, sep: char)
    requires sep !in b
    ensures Split(a + [sep] + b, sep) == Split(a, sep) + [b]
  {
    SplitChar(a, sep, sep);
    SplitAppend(a + [sep], b, sep);
    assert "" + b == b;
  }

  lemma {:induction false} SplitWhole(b: string, sep: char)
    requires sep !in b
    ensures Split(b, sep) == [b]
  {
    if b != "" {
      SplitWhole(b[..|b| - 1], sep);
      assert b[|b| - 1] in b && b == b[..|b| - 1] + [b[|b| - 1]];
    }
  }

  /** Every part preceded by the separator. */
  function Prefixed(parts: seq<string>, sep: char): string {
    if parts == [] then "" else Prefixed(parts[..|parts| - 1], sep) + [sep] + parts[|parts| - 1]
  }

  lemma {:induction false} SplitPrefixed(head: string, parts: seq<string>, sep: char)
    requires sep !in head && forall p :: p in parts ==> sep !in p
    ensures Split(head + Prefixed(parts, sep), sep) == [head] + parts
  {
    if parts == [] {
      assert head + "" == head;
      SplitWhole(head, sep);
    } else {
      var front, last := parts[..|parts| - 1], parts[|parts| - 1];
      SplitPrefixed(head, front, sep);
      assert last in parts;
      PrefixedLast(head, Prefixed(front, sep), sep, last);
      SplitPart(head + Prefixed(front, sep), last, sep);
      assert ([head] + front) + [last] == [head] + parts by { assert parts == front + [last]; }
    }
  }

  lemma PrefixedLast(head: string, p: string, sep: char, last: string)
    ensures head + (p + [sep] + last) == (head + p) + [sep] + last
  {
  }

  /** A character in a prefixed list is the separator or comes from one of the parts. */
  lemma {:induction false} PrefixedChars(parts: seq<string>, sep: char)
    ensures forall c :: c in Prefixed(parts, sep) ==> c == sep || exists p :: p in parts && c in p
  {
    if parts != [] {
      var front, last := parts[..|parts| - 1], parts[|parts| - 1];
      PrefixedChars(front, sep);
      assert last in parts;
      forall c | c in Prefixed(parts, sep) ensures c == sep || exists p :: p in parts && c in p {
        if c in Prefixed(front, sep) && c != sep {
          var p :| p in front && c in p;
          assert p in parts;
        }
      }
    }
  }

  // ---------- lines of a file ----------

  /** The lines of a file, each with its newline; the last one may lack it. */
  function Lines(text: string): seq<string> {
    var p := Split(text, '\n');
    Terminated(p[..|p| - 1]) + if p[|p| - 1] == "" then [] else [p[|p| - 1]]
  }

  function Terminated(lines: seq<string>): seq<string> {
    if lines == [] then [] else Terminated(lines[..|lines| - 1]) + [lines[|lines| - 1] + "\n"]
  }

  function Concat(lines: seq<string>): string {
    if lines == [] then "" else Concat(lines[..|lines| - 1]) + lines[|lines| - 1]
  }

  lemma TextNext(lines: seq<string>, l: string)
    ensures Concat(Terminated(lines + [l])) == Concat(Terminated(lines)) + l + "\n"
  {
  }

  lemma {:induction false} SplitTerminated(lines: seq<string>)
    requires forall l :: l in lines ==> '\n' !in l
    ensures Split(Concat(Terminated(lines)), '\n') == lines + [""]
  {
    if lines != [] {
      var front, last := lines[..|lines| - 1], lines[|lines| - 1];
      assert last in lines;
      SplitTerminated(front);
      var text := Concat(Terminated(front));
      assert Concat(Terminated(lines)) == (text + last) + ['\n'] by {
        assert lines == front + [last];
        TextNext(front, last);
      }
      assert Split(text + last, '\n') == lines by {
        SplitAppend(text, last, '\n');
        assert "" + last == last && (front + [""])[..|front|] == front;
      }
      SplitChar(text + last, '\n', '\n');
    }
  }

  /** Written lines are read back as they were written. */
  lemma LinesOfTerminated(lines: seq<string>)
    requires forall l :: l in lines ==> '\n' !in l
    ensures Lines(Concat(Terminated(lines))) == Terminated(lines)
  {
    SplitTerminated(lines);
    assert (lines + [""])[..|lines|] == lines;
  }

  // ---------- order ----------

  /** Strings in dictionary order. */
  predicate StringLess(a: string, b: string) {
    b != "" && (a == "" || a[0] < b[0] || (a[0] == b[0] && StringLess(a[1..], b[1..])))
  }

  lemma {:induction false} StringLessNotSelf(a: string)
    ensures !StringLess(a, a)
  {
    if a != "" { StringLessNotSelf(a[1..]); }
  }

  lemma {:induction false} StringLessTransitive(a: string, b: string, c: string)
    requires StringLess(a, b) && StringLess(b, c)
    ensures StringLess(a, c)
  {
    if a != "" && a[0] == b[0] == c[0] { StringLessTransitive(a[1..], b[1..], c[1..]); }
  }

  // ---------- numbers as people write them ----------

  /** A sign in front of a number. */
  lemma SignedDigits(n: int)
    requires n >= 0
    ensures ParseInt("-" + Digits(n)) == Some(-n) && ParseInt("+" + Digits(n)) == Some(n)
  {
    DigitsValue(n);
    var d := Digits(n);
    StripNothing("-" + d);
    StripNothing("+" + d);
    assert ("-" + d)[1..] == d && ("+" + d)[1..] == d;
  }

  lemma {:induction false} StripLeftSpaces(u: string, x: string)
    requires (forall c :: c in u ==> IsSpace(c)) && (x == "" || !IsSpace(x[0]))
    ensures StripLeft(u + x) == x
  {
    if u == "" {
      assert u + x == x;
    } else {
      assert u[0] in u && (u + x)[1..] == u[1..] + x;
      StripLeftSpaces(u[1..], x);
    }
  }

  lemma {:induction false} StripRightSpaces(x: string, v: string)
    requires (forall c :: c in v ==> IsSpace(c)) && (x == "" || !IsSpace(x[|x| - 1]))
    ensures StripRight(x + v) == x
  {
    if v == "" {
      assert x + v == x;
    } else {
      assert v[|v| - 1] in v && (x + v)[..|x + v| - 1] == x + v[..|v| - 1];
      StripRightSpaces(x, v[..|v| - 1]);
    }
  }

  /** White space around a text without any at its ends is what stripping removes. */
  lemma StripSpaces(u: string, x: string, v: string)
    requires (forall c :: c in u || c in v ==> IsSpace(c)) && x != "" && !IsSpace(x[0]) && !IsSpace(x[|x| - 1])
    ensures Strip(u + x + v) == x
  {
    assert u + x + v == u + (x + v);
    StripLeftSpaces(u, x + v);
    StripRightSpaces(x, v);
  }

  lemma SpacesAroundNumber(u: string, n: nat, v: string)
    requires forall c :: c in u || c in v ==> IsSpace(c)
    ensures ParseInt(u + Digits(n) + v) == Some(n)
  {
    var d := Digits(n);
    assert d[0] in d && d[|d| - 1] in d;
    StripSpaces(u, d, v);
    ParseDigits(n);
    StripNothing(d);
  }

  /** A digit may follow a number directly or behind one underscore, which does not change its value. */
  lemma OneMoreDigit(a: string, c: char)
    requires IsNumeral(a) && IsDigit(c)
    ensures IsNumeral(a + [c]) && NumeralValue(a + [c]) == 10 * NumeralValue(a) + DigitValue(c)
    ensures IsNumeral(a + ['_', c]) && NumeralValue(a + ['_', c]) == 10 * NumeralValue(a) + DigitValue(c)
  {
    var s, t := a + [c], a + ['_', c];
    assert s[..|a|] == a;
    assert t[..|t| - 1] == a + ['_'] && (a + ['_'])[..|a|] == a && t[..|t| - 2] == a;
  }

  /** An underscore must not stand at an end. */
  lemma {:induction false} UnderscoreAtEnd(b: string)
    ensures !IsNumeral("") && !IsNumeral(b + "_") && !IsNumeral("_" + b)
    decreases |b|
  {
    var s := "_" + b;
    if |b| >= 1 {
      assert s[..|s| - 1] == "_" + b[..|b| - 1];
      UnderscoreAtEnd(b[..|b| - 1]);
      if |b| >= 2 {
        assert s[..|s| - 2] == "_" + b[..|b| - 2];
        UnderscoreAtEnd(b[..|b| - 2]);
      }
    }
  }
}
