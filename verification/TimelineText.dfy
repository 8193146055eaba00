/** What the printed timeline of an instruction shows, letter by letter. */
module TimelineText {
  import opened DivFacts
  import opened RowPainter
  import opened SnSort
  import opened Text
  import opened Timeline

  /** A tick that was recorded and lies on the row. */
  ghost predicate Falls(l: Layout, i: Inst, sc: bool, row: nat, tick: int) {
    tick != 0 && RowStart(l, i, row) <= tick < RowEnd(l, i, sc, row)
  }

  /** Exactly the stages on the row have their letter in it, except a dispatch at the tick of the issue; everything
      else is dots, or equal signs for an instruction that was not retired. */
  ghost predicate Shows(l: Layout, i: Inst, sc: bool, row: nat, text: string) {
    && ('f' in text <==> Falls(l, i, sc, row, i.fetch))
    && ('d' in text <==> Falls(l, i, sc, row, i.decode))
    && ('n' in text <==> Falls(l, i, sc, row, i.rename))
    && ('p' in text <==> Falls(l, i, sc, row, i.dispatch) && i.dispatch != i.issue)
    && ('i' in text <==> Falls(l, i, sc, row, i.issue))
    && ('c' in text <==> Falls(l, i, sc, row, i.complete))
    && ('r' in text <==> Falls(l, i, sc, row, i.retire))
    && ('s' in text <==> sc && Falls(l, i, sc, row, i.store))
    && (forall x :: x in text ==> x in "fdnpicrs" || x == if i.retire == 0 then '=' else '.')
  }

  lemma LetterShown(l: Layout, i: Inst, sc: bool, row: nat, c: char)
    ensures var text, drawn := RowText(l, i, sc, row), DrawnOn(l, i, sc, row);
            && ((exists s :: s in drawn && Letter(s) == c) ==> c in text)
            && (c in text ==> c == DotFor(i) || exists s :: s in drawn && Letter(s) == c)
  {
    var evs, drawn := RowEvents(l, i, sc, row), DrawnOn(l, i, sc, row);
    var marks := Marks(l, i, evs);
    PaintLetters(l.width, DotFor(i), marks, c);
    RowMarks(l, i, sc, row);
    if s :| s in drawn && Letter(s) == c { assert Mark(Column(l, i, s), Letter(s)).letter == c; }
    if m :| m in marks && m.letter == c {
      MarksMembers(l, i, evs);
      var e :| e in evs && IsMarkOf(l, i, m, e);
      RowEventsAre(l, i, sc, row);
      assert e.stage in drawn && Letter(e.stage) == c;
    }
  }

  /** One stage's letter. */
  lemma StageShown(l: Layout, i: Inst, sc: bool, row: nat, s: Stage, letter: char, tick: int)
    requires Letter(s) == letter && Tick(i, s) == tick
    ensures letter in RowText(l, i, sc, row) <==>
            s < StageCount(sc) && Falls(l, i, sc, row, tick) && !(s == DISPATCH && i.dispatch == i.issue)
  {
    LetterShown(l, i, sc, row, letter);
    forall t: Stage ensures Letter(t) == letter ==> t == s { LettersDiffer(s, t); }
    LettersDiffer(s, s);
    assert s in DrawnOn(l, i, sc, row) <==> OnRow(l, i, sc, row, s) && !Hidden(i, s);
  }

  lemma LettersDiffer(s: Stage, t: Stage)
    ensures Letter(s) == Letter(t) ==> s == t
    ensures Letter(s) in "fdnpicrs" && Letter(s) != '=' && Letter(s) != '.'
  {
  }

  lemma OnlyLettersAndDots(l: Layout, i: Inst, sc: bool, row: nat)
    ensures forall x :: x in RowText(l, i, sc, row) ==> x in "fdnpicrs" || x == if i.retire == 0 then '=' else '.'
  {
    forall x | x in RowText(l, i, sc, row) ensures x in "fdnpicrs" || x == DotFor(i) {
      LetterShown(l, i, sc, row, x);
      if s :| s in DrawnOn(l, i, sc, row) && Letter(s) == x { LettersDiffer(s, s); }
    }
  }

  lemma RowShows(l: Layout, i: Inst, sc: bool, row: nat)
    ensures Shows(l, i, sc, row, RowText(l, i, sc, row))
  {
    var text := RowText(l, i, sc, row);
    assert 'f' in text <==> Falls(l, i, sc, row, i.fetch) by { StageShown(l, i, sc, row, 0, 'f', i.fetch); }
    assert 'd' in text <==> Falls(l, i, sc, row, i.decode) by { StageShown(l, i, sc, row, 1, 'd', i.decode); }
    assert 'n' in text <==> Falls(l, i, sc, row, i.rename) by { StageShown(l, i, sc, row, 2, 'n', i.rename); }
    assert 'p' in text <==> Falls(l, i, sc, row, i.dispatch) && i.dispatch != i.issue by {
      StageShown(l, i, sc, row, 3, 'p', i.dispatch);
    }
    assert 'i' in text <==> Falls(l, i, sc, row, i.issue) by { StageShown(l, i, sc, row, 4, 'i', i.issue); }
    assert 'c' in text <==> Falls(l, i, sc, row, i.complete) by { StageShown(l, i, sc, row, 5, 'c', i.complete); }
    assert 'r' in text <==> Falls(l, i, sc, row, i.retire) by { StageShown(l, i, sc, row, 6, 'r', i.retire); }
    assert 's' in text <==> sc && Falls(l, i, sc, row, i.store) by { StageShown(l, i, sc, row, 7, 's', i.store); }
    OnlyLettersAndDots(l, i, sc, row);
  }

  // ---------- where the letters are ----------

  lemma StageCell(l: Layout, i: Inst, sc: bool, row: nat, s: Stage, letter: char, tick: int)
    requires Letter(s) == letter && Tick(i, s) == tick && |RowText(l, i, sc, row)| == l.width
    requires s < StageCount(sc) && Falls(l, i, sc, row, tick) && !(s == DISPATCH && i.dispatch == i.issue)
    ensures 0 <= (tick / l.cycle) % l.width < l.width && RowText(l, i, sc, row)[(tick / l.cycle) % l.width] == letter
  {
    RowContent(l, i, sc, row);
    ColumnIsCycle(l, i, s);
    assert s in DrawnOn(l, i, sc, row);
  }

  /** The letter stands in the cell of the tick's clock cycle, counted around the row. */
  ghost predicate InCell(l: Layout, text: string, tick: int, letter: char) {
    var k := (tick / l.cycle) % l.width; 0 <= k < |text| && text[k] == letter
  }

  /** On a row of the requested width every stage that falls on it is in the cell of its cycle. */
  lemma RowCells(l: Layout, i: Inst, sc: bool, row: nat)
    requires |RowText(l, i, sc, row)| == l.width
    ensures var text := RowText(l, i, sc, row);
            && (Falls(l, i, sc, row, i.fetch) ==> InCell(l, text, i.fetch, 'f'))
            && (Falls(l, i, sc, row, i.decode) ==> InCell(l, text, i.decode, 'd'))
            && (Falls(l, i, sc, row, i.rename) ==> InCell(l, text, i.rename, 'n'))
            && (Falls(l, i, sc, row, i.dispatch) && i.dispatch != i.issue ==> InCell(l, text, i.dispatch, 'p'))
            && (Falls(l, i, sc, row, i.issue) ==> InCell(l, text, i.issue, 'i'))
            && (Falls(l, i, sc, row, i.complete) ==> InCell(l, text, i.complete, 'c'))
            && (Falls(l, i, sc, row, i.retire) ==> InCell(l, text, i.retire, 'r'))
            && (sc && Falls(l, i, sc, row, i.store) ==> InCell(l, text, i.store, 's'))
  {
    if Falls(l, i, sc, row, i.fetch) { StageCell(l, i, sc, row, 0, 'f', i.fetch); }
    if Falls(l, i, sc, row, i.decode) { StageCell(l, i, sc, row, 1, 'd', i.decode); }
    if Falls(l, i, sc, row, i.rename) { StageCell(l, i, sc, row, 2, 'n', i.rename); }
    if Falls(l, i, sc, row, i.dispatch) && i.dispatch != i.issue { StageCell(l, i, sc, row, 3, 'p', i.dispatch); }
    if Falls(l, i, sc, row, i.issue) { StageCell(l, i, sc, row, 4, 'i', i.issue); }
    if Falls(l, i, sc, row, i.complete) { StageCell(l, i, sc, row, 5, 'c', i.complete); }
    if Falls(l, i, sc, row, i.retire) { StageCell(l, i, sc, row, 6, 'r', i.retire); }
    if sc && Falls(l, i, sc, row, i.store) { StageCell(l, i, sc, row, 7, 's', i.store); }
  }

  // ---------- how many rows there are ----------

  /** The last event is the latest tick of all stages. */
  lemma LastEventIs(i: Inst, sc: bool)
    ensures var t := LastEvent(i, sc);
            && i.fetch <= t && i.decode <= t && i.rename <= t && i.dispatch <= t && i.issue <= t
            && i.complete <= t && i.retire <= t && (sc ==> i.store <= t)
            && (t == i.fetch || t == i.decode || t == i.rename || t == i.dispatch || t == i.issue
                || t == i.complete || t == i.retire || (sc && t == i.store))
  {
  }

  /** The first row starts at the last multiple of the row width up to the fetch. */
  lemma BaseIs(l: Layout, i: Inst)
    ensures l.TimeWidth() == l.width * l.cycle
    ensures BaseTick(l, i) % l.TimeWidth() == 0 && BaseTick(l, i) <= i.fetch < BaseTick(l, i) + l.TimeWidth()
  {
    TimesIs(l.width, l.cycle);
    BaseIsBehindFetch(l, i);
    DivUnique(BaseTick(l, i), l.TimeWidth(), i.fetch / l.TimeWidth(), 0);
  }

  /** The last row is the one of the last event. */
  lemma LastRow(l: Layout, i: Inst, sc: bool)
    requires LastEvent(i, sc) != 0
    ensures NumLines(l, i, sc) >= 1 && Falls(l, i, sc, NumLines(l, i, sc) - 1, LastEvent(i, sc))
  {
    SingleRowIffCompact(l, i, sc);
    LastEventIs(i, sc);
    var s: Stage := if LastEvent(i, sc) == i.fetch then 0 else if LastEvent(i, sc) == i.decode then 1
                    else if LastEvent(i, sc) == i.rename then 2 else if LastEvent(i, sc) == i.dispatch then 3
                    else if LastEvent(i, sc) == i.issue then 4 else if LastEvent(i, sc) == i.complete then 5
                    else if LastEvent(i, sc) == i.retire then 6 else 7;
    assert Tick(i, s) == LastEvent(i, sc) && s < StageCount(sc);
    BaseIsBehindFetch(l, i);
    EventOnExactlyOneRow(l, i, sc, s, NumLines(l, i, sc) - 1);
  }

  // ---------- ties ----------

  function StageName(s: Stage): string {
    ["fetch", "decode", "rename", "dispatch", "issue", "complete", "retire", "store"][s]
  }

  /** Events at the same offset are drawn in the alphabetical order of the stages' names. */
  lemma NamesAreAlphabetical(s: Stage, t: Stage)
    ensures NameRank(s) < NameRank(t) <==> StringLess(StageName(s), StageName(t))
    ensures NameRank(s) == NameRank(t) <==> s == t
  {
    var a, b := StageName(s), StageName(t);
    if a == b {
      StringLessNotSelf(a);
    } else if a[0] == b[0] {
      assert a[1] != b[1] || a[2] != b[2];
      StringLessBy(a, b, if a[1] != b[1] then 1 else 2);
    } else {
      StringLessBy(a, b, 0);
    }
  }

  /** Strings with a common beginning compare as their first different characters do. */
  lemma {:induction false} StringLessBy(a: string, b: string, k: nat)
    requires k < |a| && k < |b| && a[k] != b[k] && forall j :: 0 <= j < k ==> a[j] == b[j]
    ensures StringLess(a, b) <==> a[k] < b[k]
  {
    if k > 0 { StringLessBy(a[1..], b[1..], k - 1); }
  }

  // ---------- the whole instruction ----------

  /** All rows; `crashed` when the compact form finds no event to start from. */
  method PrintInst(l: Layout, i: Inst, sc: bool) returns (rows: seq<string>, crashed: bool)
    ensures crashed <==> Compact(l, i, sc) && RowEvents(l, i, sc, 0) == []
    ensures i.fetch != 0 ==> !crashed
    ensures !crashed ==> |rows| == NumLines(l, i, sc) && forall r :: 0 <= r < |rows| ==> rows[r] == RowText(l, i, sc, r)
    ensures !crashed ==> forall r :: 0 <= r < |rows| ==> Shows(l, i, sc, r, rows[r])
  {
    FetchIsDrawn(l, i, sc);
    SingleRowIffCompact(l, i, sc);
    var numLines := NumLines(l, i, sc);
    rows, crashed := PrintRows(l, i, sc, numLines);
    if !crashed {
      forall r | 0 <= r < |rows| ensures Shows(l, i, sc, r, rows[r]) {
        RowShows(l, i, sc, r);
      }
    }
  }
}
