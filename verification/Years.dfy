/** Years of a copyright notice: printed as comma-separated ranges and read back as a set. */
module Years {
  import opened Common
  import opened Text

  // ---------- runs of consecutive years ----------

  datatype Run = Run(first: int, last: int)

  /** Maximal runs in increasing order: never adjacent, never overlapping. */
  ghost predicate AreRuns(runs: seq<Run>) {
    && (forall i :: 0 <= i < |runs| ==> runs[i].first <= runs[i].last)
    && (forall i, j :: 0 <= i < j < |runs| ==> runs[i].last + 1 < runs[j].first)
  }

  ghost predicate Covered(runs: seq<Run>, y: int) {
    exists i :: 0 <= i < |runs| && runs[i].first <= y <= runs[i].last
  }

  ghost predicate Covers(runs: seq<Run>, d: seq<int>) {
    forall y :: Covered(runs, y) <==> y in d
  }

  ghost predicate Ascending(d: seq<int>) {
    forall i, j :: 0 <= i < j < |d| ==> d[i] < d[j]
  }

  /** Places a year into a sorted list. */
  function InsertYear(d: seq<int>, y: int): seq<int> {
    if d == [] || d[|d| - 1] < y then d + [y] else InsertYear(d[..|d| - 1], y) + [d[|d| - 1]]
  }

  lemma {:induction false} InsertYearSorts(d: seq<int>, y: int)
    requires Ascending(d) && y !in d
    ensures Ascending(InsertYear(d, y)) && forall x :: x in InsertYear(d, y) <==> x in d || x == y
  {
    if d != [] && d[|d| - 1] >= y {
      var front, last := d[..|d| - 1], d[|d| - 1];
      assert last in d && forall x :: x in d <==> x in front || x == last;
      InsertYearSorts(front, y);
      var r := InsertYear(front, y);
      forall i | 0 <= i < |r| ensures r[i] < last {
        assert r[i] in r;
      }
    }
  }

  /** The sorted list of the years of a set, given as any listing of the set. */
  method SortedYears(listing: seq<int>) returns (d: seq<int>)
    requires forall i, j :: 0 <= i < j < |listing| ==> listing[i] != listing[j]
    ensures Ascending(d) && forall y :: y in d <==> y in listing
  {
    d := [];
    for k := 0 to |listing|
      invariant Ascending(d) && forall y :: y in d <==> y in listing[..k]
    {
      assert listing[..k + 1] == listing[..k] + [listing[k]];
      InsertYearSorts(d, listing[k]);
      d := InsertYear(d, listing[k]);
    }
    assert listing[..|listing|] == listing;
  }

  /** Groups a sorted list of years into its maximal runs. */
  method FindRuns(d: seq<int>) returns (runs: seq<Run>)
    requires d != [] && Ascending(d)
    ensures AreRuns(runs) && runs != []
    ensures Covers(runs, d)
  {
    runs := [];
    var first, second, k := d[0], d[0], 1;
    assert d[..1] == [d[0]];
    forall y ensures Covered([] + [Run(first, second)], y) <==> y in d[..1] {
      CoveredSplit([], Run(first, second), y);
    }
    while k < |d|
      invariant 1 <= k <= |d| && first <= second == d[k - 1]
      invariant AreRuns(runs + [Run(first, second)]) && Covers(runs + [Run(first, second)], d[..k])
    {
      var next := d[k];
      assert d[..k + 1] == d[..k] + [next];
      if next == second + 1 {
        ExtendLast(runs, first, second, d[..k]);
        second := next;
      } else {
        StartRun(runs + [Run(first, second)], next, d[..k]);
        runs := runs + [Run(first, second)];
        first, second := next, next;
      }
      k := k + 1;
    }
    assert d[..k] == d;
    runs := runs + [Run(first, second)];
  }

  lemma CoveredSplit(runs: seq<Run>, r: Run, y: int)
    ensures Covered(runs + [r], y) <==> Covered(runs, y) || r.first <= y <= r.last
  {
    var all := runs + [r];
    if Covered(runs, y) {
      var i :| 0 <= i < |runs| && runs[i].first <= y <= runs[i].last;
      assert all[i] == runs[i];
    }
    if r.first <= y <= r.last { assert all[|runs|] == r; }
  }

  lemma ExtendLast(runs: seq<Run>, first: int, second: int, d: seq<int>)
    requires first <= second && AreRuns(runs + [Run(first, second)]) && Covers(runs + [Run(first, second)], d)
    ensures AreRuns(runs + [Run(first, second + 1)]) && Covers(runs + [Run(first, second + 1)], d + [second + 1])
  {
    var before, after := runs + [Run(first, second)], runs + [Run(first, second + 1)];
    forall i, j | 0 <= i < j < |after| ensures after[i].last + 1 < after[j].first {
      assert before[i].last + 1 < before[j].first;
    }
    forall i | 0 <= i < |after| ensures after[i].first <= after[i].last {
      assert before[i].first <= before[i].last;
    }
    forall y ensures Covered(after, y) <==> y in d + [second + 1] {
      CoveredSplit(runs, Run(first, second), y);
      CoveredSplit(runs, Run(first, second + 1), y);
      assert Covered(before, y) <==> y in d;
    }
  }

  lemma StartRun(runs: seq<Run>, next: int, d: seq<int>)
    requires runs != [] && AreRuns(runs) && runs[|runs| - 1].last + 1 < next && Covers(runs, d)
    ensures AreRuns(runs + [Run(next, next)]) && Covers(runs + [Run(next, next)], d + [next])
  {
    var after := runs + [Run(next, next)];
    forall i, j | 0 <= i < j < |after| ensures after[i].last + 1 < after[j].first {
      if j == |runs| && i < |runs| - 1 { assert runs[i].last + 1 < runs[|runs| - 1].first; }
    }
    forall y ensures Covered(after, y) <==> y in d + [next] {
      CoveredSplit(runs, Run(next, next), y);
      assert Covered(runs, y) <==> y in d;
    }
  }

  /** The maximal runs of a set are determined by the set. */
  lemma {:induction false} RunsAreUnique(a: seq<Run>, b: seq<Run>)
    requires AreRuns(a) && AreRuns(b) && forall y :: Covered(a, y) <==> Covered(b, y)
    ensures a == b
  {
    if a == [] || b == [] {
      if a != [] { assert a[0].first <= a[0].first <= a[0].last; assert Covered(a, a[0].first); }
      if b != [] { assert b[0].first <= b[0].first <= b[0].last; assert Covered(b, b[0].first); }
    } else {
      LastRunSame(a, b);
      LastRunSame(b, a);
      var a', b' := a[..|a| - 1], b[..|b| - 1];
      forall y ensures Covered(a', y) <==> Covered(b', y) {
        CoveredFront(a, y);
        CoveredFront(b, y);
      }
      RunsAreUnique(a', b');
      assert a == a' + [a[|a| - 1]] && b == b' + [b[|b| - 1]];
    }
  }

  lemma CoveredFront(a: seq<Run>, y: int)
    requires AreRuns(a) && a != []
    ensures Covered(a[..|a| - 1], y) <==> Covered(a, y) && y < a[|a| - 1].first
  {
  }

  /** The year before a run is not covered. */
  lemma GapBelow(b: seq<Run>, y: int)
    requires AreRuns(b) && b != [] && y == b[|b| - 1].first - 1
    ensures !Covered(b, y)
  {
    forall j | 0 <= j < |b| ensures !(b[j].first <= y <= b[j].last) {
      if j < |b| - 1 { assert b[j].last + 1 < b[|b| - 1].first; }
    }
  }

  lemma LastRunSame(a: seq<Run>, b: seq<Run>)
    requires AreRuns(a) && AreRuns(b) && a != [] && b != [] && forall y :: Covered(a, y) <==> Covered(b, y)
    ensures a[|a| - 1].last <= b[|b| - 1].last
    ensures a[|a| - 1].last == b[|b| - 1].last ==> b[|b| - 1].first <= a[|a| - 1].first
  {
    var r, q := a[|a| - 1], b[|b| - 1];
    assert r.first <= r.last && Covered(a, r.last);
    var i :| 0 <= i < |b| && b[i].first <= r.last <= b[i].last;
    assert i < |b| - 1 ==> b[i].last + 1 < q.first;
    assert r.first <= r.first <= r.last;
    assert Covered(a, r.first);
    if r.last == q.last && r.first < q.first {
      assert r.first <= q.first - 1 <= r.last && Covered(a, q.first - 1);
      GapBelow(b, q.first - 1);
    }
  }

  // ---------- printing ----------

  function IntText(n: int): string { if n < 0 then "-" + Digits(-n) else Digits(n) }

  function RunText(r: Run): string {
    if r.first == r.last then IntText(r.first) else IntText(r.first) + "-" + IntText(r.last)
  }

  function RunTexts(runs: seq<Run>): seq<string> {
    if runs == [] then [] else RunTexts(runs[..|runs| - 1]) + [RunText(runs[|runs| - 1])]
  }

  /** Parts joined by commas. */
  function Joined(parts: seq<string>): string {
    if parts == [] then "" else parts[0] + Prefixed(parts[1..], ',')
  }

  /** The maximal runs of a set of years, given as any listing of it; `RunsAreUnique` says that there is only one. */
  ghost predicate RunsOf(runs: seq<Run>, listing: seq<int>) {
    AreRuns(runs) && Covers(runs, listing) && runs != []
  }

  /** Prints the years of a set. The text reads back to the same years exactly when longer runs have four-digit ends. */
  method DateStr(listing: seq<int>) returns (text: string)
    requires listing != [] && forall i, j :: 0 <= i < j < |listing| ==> listing[i] != listing[j]
    ensures exists runs :: RunsOf(runs, listing) && text == Joined(RunTexts(runs))
                           && (ReadYears(text) == (set y | y in listing) <==> FourDigitRuns(runs))
  {
    var d := SortedYears(listing);
    assert listing[0] in listing && listing[0] in d;
    var runs := FindRuns(d);
    var output: seq<string> := [];
    for k := 0 to |runs|
      invariant output == RunTexts(runs[..k])
    {
      assert runs[..k + 1][..k] == runs[..k];
      output := output + [RunText(runs[k])];
    }
    assert runs[..|runs|] == runs;
    text := Joined(output);
    CoversSame(runs, d, listing);
    DatesRoundTripIff(runs, set y | y in listing);
    assert RunsOf(runs, listing);
  }

  lemma CoversSame(runs: seq<Run>, d: seq<int>, listing: seq<int>)
    requires Covers(runs, d) && forall y :: y in d <==> y in listing
    ensures Covers(runs, listing)
  {
    forall y ensures Covered(runs, y) <==> y in listing {
      assert Covered(runs, y) <==> y in d;
    }
  }

  // ---------- reading ----------

  predicate FourDigits(s: string, i: nat) {
    i + 4 <= |s| && IsDigit(s[i]) && IsDigit(s[i + 1]) && IsDigit(s[i + 2]) && IsDigit(s[i + 3])
  }

  /** The first position from `i` on that is not white space. */
  function SkipSpace(s: string, i: nat): (j: nat)
    requires i <= |s|
    ensures i <= j <= |s|
    decreases |s| - i
  {
    if i < |s| && IsSpace(s[i]) then SkipSpace(s, i + 1) else i
  }

  /** Four digits, a hyphen and four digits at the head of the string; what follows is ignored. */
  function MatchRange(s: string): Option<(nat, nat)> {
    if !FourDigits(s, 0) then None
    else
      var i := SkipSpace(s, 4);
      if i == |s| || s[i] != '-' then None
      else
        var j := SkipSpace(s, i + 1);
        if FourDigits(s, j) then Some((NumeralValue(s[..4]), NumeralValue(s[j..j + 4]))) else None
  }

  function Span(a: int, b: int): set<int>
    decreases b - a
  {
    if b < a then {} else Span(a, b - 1) + {b}
  }

  lemma {:induction false} InSpan(a: int, b: int, y: int)
    ensures y in Span(a, b) <==> a <= y <= b
    decreases b - a
  {
    if a <= b { InSpan(a, b - 1, y); }
  }

  function YearsIn(date: string): set<int> {
    match MatchRange(date)
    case Some(r) => Span(r.0, r.1)
    case None => match ParseInt(date) case Some(y) => {y} case None => {}
  }

  function YearsInAll(dates: seq<string>): set<int> {
    if dates == [] then {} else YearsInAll(dates[..|dates| - 1]) + YearsIn(Strip(dates[|dates| - 1]))
  }

  function ReadYears(text: string): set<int> { YearsInAll(Split(text, ',')) }

  method AddRange(years: set<int>, f: int, l: int) returns (out: set<int>)
    ensures out == years + Span(f, l)
  {
    out := years;
    var i := f;
    while i < l + 1
      invariant f <= i && (f <= l ==> i <= l + 1) && (l < f ==> i == f)
      invariant out == years + Span(f, i - 1)
    {
      out := out + {i};
      i := i + 1;
    }
  }

  method AddDate(years: set<int>, date: string) returns (out: set<int>)
    ensures out == years + YearsIn(date)
  {
    var m := MatchRange(date);
    if m.Some? {
      out := AddRange(years, m.value.0, m.value.1);
    } else {
      var y := ParseInt(date);
      out := if y.Some? then years + {y.value} else years;
    }
  }

  method ProcessDates(text: string) returns (years: set<int>)
    ensures years == ReadYears(text)
  {
    var dates := Split(text, ',');
    years := {};
    for k := 0 to |dates|
      invariant years == YearsInAll(dates[..k])
    {
      assert YearsInAll(dates[..k + 1]) == YearsInAll(dates[..k]) + YearsIn(Strip(dates[k])) by {
        assert dates[..k + 1][..k] == dates[..k];
      }
      var date := Strip(dates[k]);
      years := AddDate(years, date);
    }
    assert dates[..|dates|] == dates;
  }

  // ---------- what is read ----------

  lemma {:induction false} SkipSpaceIs(s: string, i: nat, n: nat)
    requires i + n < |s| && (forall k :: i <= k < i + n ==> IsSpace(s[k])) && !IsSpace(s[i + n])
    ensures SkipSpace(s, i) == i + n
    decreases n
  {
    if n > 0 { SkipSpaceIs(s, i + 1, n - 1); }
  }

  /** Two four-digit years with a hyphen between them, which may have white space around it: all years from the first
      to the second, none if they descend. What follows is ignored. */
  lemma RangeReads(a: string, u: string, v: string, b: string, tail: string, y: int)
    requires |a| == 4 && |b| == 4 && (forall c :: c in a || c in b ==> IsDigit(c)) && (forall c :: c in u || c in v ==> IsSpace(c))
    ensures y in YearsIn(a + u + "-" + v + b + tail) <==> NumeralValue(a) <= y <= NumeralValue(b)
  {
    var s := a + u + "-" + v + b + tail;
    var i := 4 + |u|;
    var j := i + 1 + |v|;
    assert s[..4] == a && s[4..i] == u && s[i] == '-' && s[i + 1..j] == v && s[j..j + 4] == b;
    FourDigitsAt(s, 0, a);
    FourDigitsAt(s, j, b);
    SpacesAt(s, 4, u);
    SpacesAt(s, i + 1, v);
    MatchRangeIs(s, i, j);
    InSpan(NumeralValue(a), NumeralValue(b), y);
  }

  lemma FourDigitsAt(s: string, i: nat, a: string)
    requires i + 4 <= |s| && |a| == 4 && s[i..i + 4] == a && forall c :: c in a ==> IsDigit(c)
    ensures FourDigits(s, i)
  {
    assert a[0] in a && a[1] in a && a[2] in a && a[3] in a;
    assert s[i] == a[0] && s[i + 1] == a[1] && s[i + 2] == a[2] && s[i + 3] == a[3];
  }

  lemma SpacesAt(s: string, i: nat, u: string)
    requires i + |u| <= |s| && s[i..i + |u|] == u && forall c :: c in u ==> IsSpace(c)
    ensures forall k :: i <= k < i + |u| ==> IsSpace(s[k])
  {
    forall k | i <= k < i + |u| ensures IsSpace(s[k]) { assert s[k] == u[k - i] && u[k - i] in u; }
  }

  lemma MatchRangeIs(s: string, i: nat, j: nat)
    requires FourDigits(s, 0) && 4 <= i < j && FourDigits(s, j) && s[i] == '-'
    requires (forall k :: 4 <= k < i ==> IsSpace(s[k])) && (forall k :: i + 1 <= k < j ==> IsSpace(s[k]))
    ensures MatchRange(s) == Some((NumeralValue(s[..4]), NumeralValue(s[j..j + 4])))
  {
    SkipSpaceIs(s, 4, i - 4);
    SkipSpaceIs(s, i + 1, j - i - 1);
  }

  /** Without a hyphen: the year, if it is one, else nothing. */
  lemma YearReads(date: string)
    requires '-' !in date
    ensures YearsIn(date) == match ParseInt(date) case Some(y) => {y} case None => {}
  {
  }

  lemma {:induction false} ReadInAll(dates: seq<string>, y: int)
    ensures y in YearsInAll(dates) <==> exists k :: 0 <= k < |dates| && y in YearsIn(Strip(dates[k]))
  {
    if dates != [] {
      var n := |dates| - 1;
      ReadInAll(dates[..n], y);
      if k :| 0 <= k < |dates| && y in YearsIn(Strip(dates[k])) {
        if k < n { assert dates[..n][k] == dates[k]; }
      }
      if k :| 0 <= k < n && y in YearsIn(Strip(dates[..n][k])) { assert dates[..n][k] == dates[k]; }
    }
  }

  /** Runs are written with a comma between them and nothing else. */
  lemma WrittenRuns(runs: seq<Run>, r: Run)
    ensures Joined(RunTexts(runs + [r])) == if runs == [] then RunText(r) else Joined(RunTexts(runs)) + "," + RunText(r)
  {
    var t, x := RunTexts(runs), RunText(r);
    assert RunTexts(runs + [r]) == t + [x] by { assert (runs + [r])[..|runs|] == runs; }
    if runs != [] { JoinedNext(t, x); }
  }

  lemma JoinedNext(t: seq<string>, x: string)
    requires t != []
    ensures Joined(t + [x]) == Joined(t) + "," + x
  {
    assert (t + [x])[1..] == t[1..] + [x];
    assert (t[1..] + [x])[..|t| - 1] == t[1..];
  }

  // ---------- the round trip ----------

  /** Runs of more than one year begin and end with a four-digit year. */
  ghost predicate FourDigitRuns(runs: seq<Run>) {
    forall i :: 0 <= i < |runs| && runs[i].first < runs[i].last ==> 1000 <= runs[i].first && runs[i].last <= 9999
  }

  lemma {:induction false} DigitCount(n: nat)
    ensures |Digits(n)| <= 3 <==> n < 1000
    ensures |Digits(n)| <= 4 <==> n < 10000
  {
    ThreeDigits(n);
    if n >= 10 { ThreeDigits(n / 10); }
  }

  lemma ThreeDigits(n: nat)
    ensures |Digits(n)| <= 3 <==> n < 1000
  {
    if n >= 10 {
      var m := n / 10;
      assert |Digits(n)| == |Digits(m)| + 1;
      if m >= 10 {
        var k := m / 10;
        assert |Digits(m)| == |Digits(k)| + 1;
        assert k < 10 <==> n < 1000;
      }
    }
  }

  lemma {:induction false} HyphenIsNoNumeral(s: string)
    requires '-' in s
    ensures !IsNumeral(s)
  {
    if |s| > 1 && IsDigit(s[|s| - 1]) {
      var a, b := s[..|s| - 1], s[..|s| - 2];
      assert s == a + [s[|s| - 1]] && a == b + [s[|s| - 2]];
      HyphenIsNoNumeral(a);
      if s[|s| - 2] == '_' { HyphenIsNoNumeral(b); }
    }
  }

  lemma IntTextChars(n: int)
    ensures IntText(n) != "" && forall c :: c in IntText(n) ==> IsDigit(c) || c == '-'
  {
  }

  /** A single year reads back as itself, whatever its number of digits. */
  lemma SingleYear(n: int)
    ensures YearsIn(Strip(IntText(n))) == {n}
  {
    var s := IntText(n);
    IntTextChars(n);
    StripNothing(s);
    if n >= 0 {
      NoHyphen(s);
      ParseDigits(n);
    } else {
      assert s[0] == '-' && s[1..] == Digits(-n);
      DigitsValue(-n);
    }
  }

  lemma NoHyphen(s: string)
    requires forall c :: c in s ==> IsDigit(c)
    ensures MatchRange(s).None?
  {
    if |s| >= 5 { assert s[4] in s; }
  }

  /** How the text of a longer run is laid out. */
  lemma RangeText(a: int, b: int)
    ensures var s := IntText(a) + "-" + IntText(b);
            && Strip(s) == s && '-' in s && NoSpace(s)
            && (a < 0 ==> s[0] == '-' && '-' in s[1..])
            && (a >= 0 ==> IsDigit(s[0]) && s[|Digits(a)|] == '-' && forall i :: 0 <= i < |Digits(a)| ==> s[i] == Digits(a)[i])
  {
    var s := IntText(a) + "-" + IntText(b);
    IntTextChars(a);
    IntTextChars(b);
    StripNothing(s);
    assert s[|IntText(a)|] == '-';
    if a < 0 { assert s[1..][|IntText(a)| - 1] == '-'; }
    else { assert Digits(a)[0] in Digits(a); }
  }

  /** A run whose first year does not have four digits is not read at all. */
  lemma OddStart(a: int, b: int)
    requires a < 1000 || a > 9999
    ensures YearsIn(Strip(IntText(a) + "-" + IntText(b))) == {}
  {
    var s := IntText(a) + "-" + IntText(b);
    RangeText(a, b);
    HyphenIsNoNumeral(s);
    if a < 0 {
      HyphenIsNoNumeral(s[1..]);
    } else {
      DigitCount(a);
      assert forall i :: 0 <= i < |Digits(a)| ==> IsDigit(Digits(a)[i]);
      assert MatchRange(s).None?;
    }
  }

  lemma FourDigitValue(s: string)
    requires |s| == 4 && IsDigit(s[0]) && IsDigit(s[1]) && IsDigit(s[2]) && IsDigit(s[3])
    ensures NumeralValue(s) <= 9999
  {
    var a, b, c := s[..3], s[..2], s[..1];
    assert a[..2] == b && b[..1] == c && c[..0] == "";
    assert NumeralValue(c) <= 9;
    assert NumeralValue(b) <= 99;
    assert NumeralValue(a) <= 999;
  }

  /** A run that starts with a four-digit year is read up to the first four digits of its last year. */
  lemma FourDigitStart(a: int, b: int)
    requires 1000 <= a <= 9999 && a < b
    ensures |Digits(b)| >= 4
    ensures YearsIn(Strip(IntText(a) + "-" + IntText(b))) == Span(a, NumeralValue(Digits(b)[..4]))
  {
    var s, x, y := IntText(a) + "-" + IntText(b), Digits(a), Digits(b);
    RangeText(a, b);
    DigitCount(a);
    DigitCount(b);
    DigitsValue(a);
    MatchFourAndFour(s, x, y);
  }

  lemma MatchFourAndFour(s: string, x: string, y: string)
    requires s == x + "-" + y && |x| == 4 && |y| >= 4 && forall c :: c in x || c in y ==> IsDigit(c)
    ensures MatchRange(s) == Some((NumeralValue(x), NumeralValue(y[..4])))
  {
    assert s[..4] == x && s[5..9] == y[..4] && s[4] == '-';
    assert forall i :: 0 <= i < 4 ==> x[i] in x && s[i] == x[i];
    assert y[0] in y && y[1] in y && y[2] in y && y[3] in y;
    assert s[5] == y[0] && s[6] == y[1] && s[7] == y[2] && s[8] == y[3];
    assert SkipSpace(s, 4) == 4 && SkipSpace(s, 5) == 5;
  }

  ghost predicate ReadsBack(r: Run) { r.first == r.last || (1000 <= r.first && r.last <= 9999) }

  /** What is read of one run: never more than the run, all of it exactly if it reads back. */
  lemma RunContribution(r: Run, y: int)
    requires r.first <= r.last
    ensures y in YearsIn(Strip(RunText(r))) ==> r.first <= y <= r.last
    ensures ReadsBack(r) && r.first <= y <= r.last ==> y in YearsIn(Strip(RunText(r)))
    ensures !ReadsBack(r) ==> r.last !in YearsIn(Strip(RunText(r)))
  {
    var a, b := r.first, r.last;
    if a == b {
      SingleYear(a);
    } else if a < 1000 || a > 9999 {
      OddStart(a, b);
    } else {
      FourDigitStart(a, b);
      DigitCount(b);
      var head := Digits(b)[..4];
      assert forall i :: 0 <= i < 4 ==> IsDigit(Digits(b)[i]);
      FourDigitValue(head);
      InSpan(a, NumeralValue(head), y);
      InSpan(a, NumeralValue(head), b);
      if b <= 9999 {
        assert head == Digits(b);
        DigitsValue(b);
      }
    }
  }

  /** What is read of each run. */
  function Parts(runs: seq<Run>): seq<set<int>> {
    if runs == [] then [] else Parts(runs[..|runs| - 1]) + [YearsIn(Strip(RunText(runs[|runs| - 1])))]
  }

  function Union(parts: seq<set<int>>): set<int> {
    if parts == [] then {} else Union(parts[..|parts| - 1]) + parts[|parts| - 1]
  }

  lemma {:induction false} UnionMember(parts: seq<set<int>>, y: int)
    ensures y in Union(parts) <==> exists i :: 0 <= i < |parts| && y in parts[i]
  {
    if parts != [] {
      var front := parts[..|parts| - 1];
      UnionMember(front, y);
      if i :| 0 <= i < |front| && y in front[i] { assert y in parts[i]; }
    }
  }

  lemma {:induction false} ReadInParts(runs: seq<Run>)
    ensures YearsInAll(RunTexts(runs)) == Union(Parts(runs))
  {
    if runs != [] {
      var front := runs[..|runs| - 1];
      ReadInParts(front);
      var texts, parts := RunTexts(runs), Parts(runs);
      assert texts[..|texts| - 1] == RunTexts(front) && parts[..|parts| - 1] == Parts(front);
    }
  }

  /** A part never exceeds its run, and is all of it exactly if the run reads back. */
  ghost predicate IsPartOf(part: set<int>, r: Run) {
    && (forall y :: y in part ==> r.first <= y <= r.last)
    && (ReadsBack(r) ==> forall y :: r.first <= y <= r.last ==> y in part)
    && (!ReadsBack(r) ==> r.last !in part)
  }

  lemma {:induction false} PartsOfRuns(runs: seq<Run>)
    requires forall i :: 0 <= i < |runs| ==> runs[i].first <= runs[i].last
    ensures |Parts(runs)| == |runs| && forall i :: 0 <= i < |runs| ==> IsPartOf(Parts(runs)[i], runs[i])
  {
    if runs != [] {
      PartsOfRuns(runs[..|runs| - 1]);
      PartOfRun(runs[|runs| - 1]);
    }
  }

  lemma PartOfRun(r: Run)
    requires r.first <= r.last
    ensures IsPartOf(YearsIn(Strip(RunText(r))), r)
  {
    var part := YearsIn(Strip(RunText(r)));
    forall y: int
      ensures y in part ==> r.first <= y <= r.last
      ensures ReadsBack(r) && r.first <= y <= r.last ==> y in part
      ensures !ReadsBack(r) ==> r.last !in part
    {
      RunContribution(r, y);
    }
  }

  lemma {:induction false} RunTextsSplit(runs: seq<Run>)
    ensures |RunTexts(runs)| == |runs|
    ensures forall t :: t in RunTexts(runs) ==> ',' !in t
  {
    if runs != [] {
      RunTextsSplit(runs[..|runs| - 1]);
      IntTextChars(runs[|runs| - 1].first);
      IntTextChars(runs[|runs| - 1].last);
    }
  }

  lemma ReadRuns(runs: seq<Run>)
    requires runs != []
    ensures ReadYears(Joined(RunTexts(runs))) == YearsInAll(RunTexts(runs))
  {
    var texts := RunTexts(runs);
    RunTextsSplit(runs);
    assert texts[0] in texts;
    SplitPrefixed(texts[0], texts[1..], ',');
    assert [texts[0]] + texts[1..] == texts;
  }

  /** Reading the printed ranges gives back the set exactly when every run of more than
      one year begins and ends with a four-digit year. */
  lemma DatesRoundTripIff(runs: seq<Run>, years: set<int>)
    requires AreRuns(runs) && runs != [] && forall y :: Covered(runs, y) <==> y in years
    ensures ReadYears(Joined(RunTexts(runs))) == years <==> FourDigitRuns(runs)
  {
    ReadRuns(runs);
    ReadInParts(runs);
    PartsOfRuns(runs);
    UnionOfParts(runs, Parts(runs), years);
  }

  lemma UnionOfParts(runs: seq<Run>, parts: seq<set<int>>, years: set<int>)
    requires AreRuns(runs) && |parts| == |runs| && forall i :: 0 <= i < |runs| ==> IsPartOf(parts[i], runs[i])
    requires forall y :: Covered(runs, y) <==> y in years
    ensures Union(parts) == years <==> FourDigitRuns(runs)
  {
    forall y | y in Union(parts) ensures y in years {
      UnionMember(parts, y);
      var i :| 0 <= i < |parts| && y in parts[i];
      assert IsPartOf(parts[i], runs[i]);
      assert Covered(runs, y);
    }
    if FourDigitRuns(runs) {
      forall y | y in years ensures y in Union(parts) {
        assert Covered(runs, y);
        var i :| 0 <= i < |runs| && runs[i].first <= y <= runs[i].last;
        assert IsPartOf(parts[i], runs[i]) && ReadsBack(runs[i]);
        UnionMember(parts, y);
      }
      assert Union(parts) == years;
    } else {
      var i :| 0 <= i < |runs| && runs[i].first < runs[i].last && !(1000 <= runs[i].first && runs[i].last <= 9999);
      LostYear(runs, parts, i);
      assert Covered(runs, runs[i].last);
    }
  }

  lemma LostYear(runs: seq<Run>, parts: seq<set<int>>, i: nat)
    requires AreRuns(runs) && |parts| == |runs| && forall j :: 0 <= j < |runs| ==> IsPartOf(parts[j], runs[j])
    requires i < |runs| && !ReadsBack(runs[i])
    ensures runs[i].last !in Union(parts)
  {
    var y := runs[i].last;
    UnionMember(parts, y);
    forall j | 0 <= j < |parts| ensures y !in parts[j] {
      assert IsPartOf(parts[j], runs[j]);
      if i < j { assert runs[i].last + 1 < runs[j].first; }
      if j < i { assert runs[j].last + 1 < runs[i].first; }
    }
  }

}
