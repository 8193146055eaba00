/** The timeline of one instruction: pipeline events are placed on rows of
    `width` cells, one cell per clock cycle. Colour codes are not modelled. */
module Timeline {
  import opened DivFacts
  import opened RowPainter
  import opened SnSort

  /** `cycle` is the clock period in ticks. */
  datatype Layout = Layout(width: pos, cycle: pos) {
    function TimeWidth(): pos {
      TimesPositive(width, cycle);
      Times(width, cycle)
    }
  }

  // ---------- stages ----------

  /** Stages in pipeline order: fetch, decode, rename, dispatch, issue, complete, retire, store. */
  type Stage = s: nat | s < 8

  const DISPATCH: Stage := 3

  function Tick(i: Inst, s: Stage): int {
    if s == 0 then i.fetch else if s == 1 then i.decode else if s == 2 then i.rename
    else if s == 3 then i.dispatch else if s == 4 then i.issue else if s == 5 then i.complete
    else if s == 6 then i.retire else i.store
  }

  function Letter(s: Stage): char { "fdnpicrs"[s] }

  /** Position of the stage's full name in alphabetical order; breaks ties when events are sorted. */
  function NameRank(s: Stage): nat { [3, 1, 5, 2, 4, 0, 6, 7][s] }

  function StageCount(storeCompletions: bool): nat { if storeCompletions then 8 else 7 }

  function Max(a: int, b: int): int { if a < b then b else a }

  function LastEvent(i: Inst, storeCompletions: bool): int {
    var t := Max(i.fetch, Max(i.decode, Max(i.rename, Max(i.dispatch, Max(i.issue, Max(i.complete, i.retire))))));
    if storeCompletions then Max(t, i.store) else t
  }

  // ---------- rows ----------

  function BaseTick(l: Layout, i: Inst): int { (i.fetch / l.TimeWidth()) * l.TimeWidth() }

  predicate Compact(l: Layout, i: Inst, storeCompletions: bool) {
    LastEvent(i, storeCompletions) - i.fetch < l.TimeWidth()
  }

  function NumLines(l: Layout, i: Inst, storeCompletions: bool): int {
    if Compact(l, i, storeCompletions) then 1
    else (LastEvent(i, storeCompletions) - BaseTick(l, i)) / l.TimeWidth() + 1
  }

  function RowStart(l: Layout, i: Inst, row: nat): int { BaseTick(l, i) + row * l.TimeWidth() }

  /** In the compact form the row wraps around: it ends one full width after the fetch. */
  function RowEnd(l: Layout, i: Inst, sc: bool, row: nat): int {
    RowStart(l, i, row) + l.TimeWidth() + if NumLines(l, i, sc) == 1 then i.fetch - BaseTick(l, i) else 0
  }

  predicate OnRow(l: Layout, i: Inst, sc: bool, row: nat, s: Stage) {
    s < StageCount(sc) && Tick(i, s) != 0 && RowStart(l, i, row) <= Tick(i, s) < RowEnd(l, i, sc, row)
  }

  /** Dispatch is not drawn when issue happens at the same tick. */
  predicate Hidden(i: Inst, s: Stage) { s == DISPATCH && i.dispatch == i.issue }

  function Column(l: Layout, i: Inst, s: Stage): int { (Tick(i, s) % l.TimeWidth()) / l.cycle }

  ghost function DrawnOn(l: Layout, i: Inst, sc: bool, row: nat): set<Stage> {
    set s: Stage | s < 8 && OnRow(l, i, sc, row, s) && !Hidden(i, s)
  }

  ghost function ColumnsOf(l: Layout, i: Inst, stages: set<Stage>): set<int> {
    set s | s in stages :: Column(l, i, s)
  }

  // ---------- which row an event falls on ----------

  lemma BaseIsBehindFetch(l: Layout, i: Inst)
    ensures BaseTick(l, i) <= i.fetch < BaseTick(l, i) + l.TimeWidth()
  {
    DivMod(i.fetch, l.TimeWidth());
  }

  /** One row is printed exactly when everything happens within one row width of the fetch. */
  lemma SingleRowIffCompact(l: Layout, i: Inst, sc: bool)
    ensures NumLines(l, i, sc) >= 1
    ensures NumLines(l, i, sc) == 1 <==> Compact(l, i, sc)
  {
    BaseIsBehindFetch(l, i);
    if !Compact(l, i, sc) {
      DivAtLeast(LastEvent(i, sc) - BaseTick(l, i), l.TimeWidth(), 1);
    }
  }

  /** The row an event must be looked for. */
  function RowOf(l: Layout, i: Inst, sc: bool, s: Stage): int {
    if Compact(l, i, sc) then 0 else (Tick(i, s) - BaseTick(l, i)) / l.TimeWidth()
  }

  /** An event is printed on exactly one row, unless it precedes the row of the fetch, and then on none. */
  lemma EventOnExactlyOneRow(l: Layout, i: Inst, sc: bool, s: Stage, row: nat)
    requires s < StageCount(sc) && Tick(i, s) != 0 && row < NumLines(l, i, sc)
    ensures OnRow(l, i, sc, row, s) <==> Tick(i, s) >= BaseTick(l, i) && row == RowOf(l, i, sc, s)
    ensures Tick(i, s) >= BaseTick(l, i) ==> 0 <= RowOf(l, i, sc, s) < NumLines(l, i, sc)
  {
    SingleRowIffCompact(l, i, sc);
    BaseIsBehindFetch(l, i);
    var tw, d := l.TimeWidth(), Tick(i, s) - BaseTick(l, i);
    assert Tick(i, s) <= LastEvent(i, sc);
    if !Compact(l, i, sc) {
      DivMod(d, tw);
      if row < d / tw { RowsApart(row, d / tw, tw); }
      if d / tw < row { RowsApart(d / tw, row, tw); }
      if d >= 0 {
        DivAtLeast(d, tw, 0);
        var span := LastEvent(i, sc) - BaseTick(l, i);
        DivMod(span, tw);
        if d / tw > span / tw { RowsApart(span / tw, d / tw, tw); }
      } else {
        assert row * tw >= 0;
      }
    }
  }

  // ---------- drawing ----------

  datatype Event = Event(offset: int, stage: Stage, tick: int)

  /** Python's tuple order on (offset, name, ...). */
  predicate Before(a: Event, b: Event) {
    a.offset < b.offset || (a.offset == b.offset && NameRank(a.stage) <= NameRank(b.stage))
  }

  function InsertEvent(s: seq<Event>, e: Event): seq<Event> {
    if s == [] || Before(s[|s| - 1], e) then s + [e]
    else InsertEvent(s[..|s| - 1], e) + [s[|s| - 1]]
  }

  function SortEvents(s: seq<Event>): seq<Event> {
    if s == [] then [] else InsertEvent(SortEvents(s[..|s| - 1]), s[|s| - 1])
  }

  /** The letters to draw and the columns they belong to. */
  function Marks(l: Layout, i: Inst, events: seq<Event>): seq<Mark> {
    if events == [] then []
    else
      var last := events[|events| - 1];
      Marks(l, i, events[..|events| - 1]) + if Hidden(i, last.stage) then [] else [MarkOf(l, last)]
  }

  function MarkOf(l: Layout, e: Event): Mark { Mark(e.offset / l.cycle, Letter(e.stage)) }

  function DotFor(i: Inst): char { if i.retire == 0 then '=' else '.' }

  /** Events on a row, for the stages below `n`, in stage order. */
  function EventsOn(l: Layout, i: Inst, sc: bool, row: nat, n: nat): seq<Event>
    requires n <= 8
  {
    if n == 0 then []
    else EventsOn(l, i, sc, row, n - 1) +
         if OnRow(l, i, sc, row, n - 1)
         then [Event(Tick(i, n - 1) % l.TimeWidth(), n - 1, Tick(i, n - 1))] else []
  }

  function RowEvents(l: Layout, i: Inst, sc: bool, row: nat): seq<Event> {
    SortEvents(EventsOn(l, i, sc, row, StageCount(sc)))
  }

  function RowText(l: Layout, i: Inst, sc: bool, row: nat): string {
    Paint(l.width, DotFor(i), Marks(l, i, RowEvents(l, i, sc, row)))
  }

  method CollectEvents(l: Layout, i: Inst, sc: bool, row: nat, numLines: int) returns (events: seq<Event>)
    requires numLines == NumLines(l, i, sc)
    ensures events == RowEvents(l, i, sc, row)
  {
    var startTick := RowStart(l, i, row);
    var endTick := startTick + l.TimeWidth();
    if numLines == 1 {
      endTick := endTick + (i.fetch - BaseTick(l, i));
    }
    events := [];
    var s: nat := 0;
    while s < StageCount(sc)
      invariant 0 <= s <= StageCount(sc)
      invariant events == EventsOn(l, i, sc, row, s)
    {
      var tick := Tick(i, s);
      if tick != 0 {
        if tick >= startTick && tick < endTick {
          events := events + [Event(tick % l.TimeWidth(), s, tick)];
        }
      }
      s := s + 1;
    }
    events := SortEvents(events);
  }

  method DrawEvents(l: Layout, i: Inst, dot: char, events: seq<Event>) returns (text: string)
    ensures text == Paint(l.width, dot, Marks(l, i, events))
  {
    var at;
    text, at := DrawLetters(l, i, dot, events);
    text := text + Dots(dot, l.width - at);
  }

  method DrawLetters(l: Layout, i: Inst, dot: char, events: seq<Event>) returns (text: string, at: int)
    ensures text == Drawn(dot, Marks(l, i, events)) && at == Reached(Marks(l, i, events))
  {
    text, at := "", 0;
    var k := 0;
    ghost var marks: seq<Mark> := [];
    while k < |events|
      invariant 0 <= k <= |events| && marks == Marks(l, i, events[..k])
      invariant text == Drawn(dot, marks) && at == Reached(marks)
    {
      var e := events[k];
      if !Hidden(i, e.stage) {
        text, at := Stamp(dot, marks, text, at, MarkOf(l, e));
        marks := marks + [MarkOf(l, e)];
      }
      assert marks == Marks(l, i, events[..k + 1]) by { MarksNext(l, i, events, k); }
      k := k + 1;
    }
    assert events[..k] == events;
  }

  lemma MarksNext(l: Layout, i: Inst, events: seq<Event>, k: nat)
    requires k < |events|
    ensures Marks(l, i, events[..k + 1]) ==
            if Hidden(i, events[k].stage) then Marks(l, i, events[..k]) else Marks(l, i, events[..k]) + [MarkOf(l, events[k])]
  {
    assert events[..k + 1][..k] == events[..k];
  }

  /** The loop over the rows; `crashed` when the compact form finds no event to start from. */
  method PrintRows(l: Layout, i: Inst, sc: bool, numLines: nat) returns (rows: seq<string>, crashed: bool)
    requires numLines == NumLines(l, i, sc)
    ensures crashed <==> numLines == 1 && RowEvents(l, i, sc, 0) == []
    ensures !crashed ==> |rows| == numLines && forall r :: 0 <= r < numLines ==> rows[r] == RowText(l, i, sc, r)
  {
    rows, crashed := [], false;
    for r := 0 to numLines
      invariant |rows| == r && forall k :: 0 <= k < r ==> rows[k] == RowText(l, i, sc, k)
      invariant r > 0 && numLines == 1 ==> RowEvents(l, i, sc, 0) != []
    {
      var text, none := PrintRow(l, i, sc, r, numLines);
      if numLines == 1 && none {
        return rows, true;
      }
      rows := rows + [text];
    }
  }

  method PrintRow(l: Layout, i: Inst, sc: bool, row: nat, numLines: int) returns (text: string, none: bool)
    requires numLines == NumLines(l, i, sc)
    ensures text == RowText(l, i, sc, row)
    ensures none <==> RowEvents(l, i, sc, row) == []
  {
    var events := CollectEvents(l, i, sc, row, numLines);
    text := DrawEvents(l, i, DotFor(i), events);
    none := events == [];
  }

  lemma FetchIsDrawn(l: Layout, i: Inst, sc: bool)
    ensures i.fetch != 0 ==> RowEvents(l, i, sc, 0) != []
  {
    BaseIsBehindFetch(l, i);
    RowEventsEmpty(l, i, sc, 0);
    if i.fetch != 0 { assert OnRow(l, i, sc, 0, 0); }
  }

  // ---------- what a row looks like ----------

  ghost predicate NoRepeats(s: seq<Event>) {
    forall a, b :: 0 <= a < b < |s| ==> s[a].stage != s[b].stage
  }

  ghost predicate Ordered(s: seq<Event>) {
    forall a, b :: 0 <= a < b < |s| ==> Before(s[a], s[b])
  }

  lemma {:induction false} InsertEventPermutes(s: seq<Event>, e: Event)
    ensures multiset(InsertEvent(s, e)) == multiset(s) + multiset{e}
  {
    if s != [] && !Before(s[|s| - 1], e) {
      InsertEventPermutes(s[..|s| - 1], e);
      assert s == s[..|s| - 1] + [s[|s| - 1]];
    }
  }

  lemma {:induction false} InsertEventOrders(s: seq<Event>, e: Event)
    requires Ordered(s)
    ensures Ordered(InsertEvent(s, e))
  {
    if s != [] && !Before(s[|s| - 1], e) {
      var front, last := s[..|s| - 1], s[|s| - 1];
      InsertEventOrders(front, e);
      InsertEventPermutes(front, e);
      var r := InsertEvent(front, e);
      forall a | 0 <= a < |r| ensures Before(r[a], last) {
        assert r[a] in multiset(r);
        assert r[a] in multiset(front) + multiset{e};
      }
    }
  }

  lemma {:induction false} SortEventsSorts(s: seq<Event>)
    ensures multiset(SortEvents(s)) == multiset(s) && Ordered(SortEvents(s))
  {
    if s != [] {
      SortEventsSorts(s[..|s| - 1]);
      InsertEventPermutes(SortEvents(s[..|s| - 1]), s[|s| - 1]);
      InsertEventOrders(SortEvents(s[..|s| - 1]), s[|s| - 1]);
      assert s == s[..|s| - 1] + [s[|s| - 1]];
    }
  }

  lemma {:induction false} EventsOnAre(l: Layout, i: Inst, sc: bool, row: nat, n: nat)
    requires n <= 8
    ensures forall e :: e in EventsOn(l, i, sc, row, n) <==>
              e.stage < n && OnRow(l, i, sc, row, e.stage) &&
              e == Event(Tick(i, e.stage) % l.TimeWidth(), e.stage, Tick(i, e.stage))
    ensures NoRepeats(EventsOn(l, i, sc, row, n))
  {
    if n > 0 { EventsOnAre(l, i, sc, row, n - 1); }
  }

  lemma PermutationKeepsNoRepeats(s: seq<Event>, t: seq<Event>)
    requires multiset(s) == multiset(t) && NoRepeats(s)
    ensures NoRepeats(t)
  {
    forall a, b | 0 <= a < b < |t| ensures t[a].stage != t[b].stage {
      if t[a].stage == t[b].stage {
        assert t[a] in multiset(s) && t[b] in multiset(s);
        assert t[a] in s && t[b] in s;
        assert t[a] == t[b];
        assert t == t[..a] + [t[a]] + t[a + 1..b] + [t[b]] + t[b + 1..];
        assert multiset(t)[t[a]] >= 2;
        AtMostOnce(s, t[a]);
      }
    }
  }

  lemma {:induction false} AtMostOnce(s: seq<Event>, e: Event)
    requires NoRepeats(s)
    ensures multiset(s)[e] <= 1
  {
    if s != [] {
      AtMostOnce(s[..|s| - 1], e);
      assert s == s[..|s| - 1] + [s[|s| - 1]];
      if s[|s| - 1] == e { assert e !in s[..|s| - 1]; }
    }
  }

  lemma RowEventsAre(l: Layout, i: Inst, sc: bool, row: nat)
    ensures forall e :: e in RowEvents(l, i, sc, row) <==>
              OnRow(l, i, sc, row, e.stage) &&
              e == Event(Tick(i, e.stage) % l.TimeWidth(), e.stage, Tick(i, e.stage))
    ensures NoRepeats(RowEvents(l, i, sc, row)) && Ordered(RowEvents(l, i, sc, row))
  {
    var evs := EventsOn(l, i, sc, row, StageCount(sc));
    EventsOnAre(l, i, sc, row, StageCount(sc));
    SortEventsSorts(evs);
    PermutationKeepsNoRepeats(evs, SortEvents(evs));
    forall e ensures e in evs <==> e in SortEvents(evs) {
      assert e in multiset(evs) <==> e in multiset(SortEvents(evs));
    }
  }

  lemma RowEventsEmpty(l: Layout, i: Inst, sc: bool, row: nat)
    ensures RowEvents(l, i, sc, row) == [] <==> forall s: Stage :: !OnRow(l, i, sc, row, s)
  {
    RowEventsAre(l, i, sc, row);
    var evs := RowEvents(l, i, sc, row);
    if s: Stage :| OnRow(l, i, sc, row, s) {
      assert Event(Tick(i, s) % l.TimeWidth(), s, Tick(i, s)) in evs;
    }
    if evs != [] { assert evs[0] in evs; }
  }

  // ---------- rows in terms of stages ----------

  ghost predicate IsMarkOf(l: Layout, i: Inst, m: Mark, e: Event) {
    !Hidden(i, e.stage) && m == MarkOf(l, e)
  }

  ghost function VisibleStages(i: Inst, events: seq<Event>): set<Stage> {
    set e | e in events && !Hidden(i, e.stage) :: e.stage
  }

  lemma {:induction false} MarksMembers(l: Layout, i: Inst, events: seq<Event>)
    ensures forall m :: m in Marks(l, i, events) ==> exists e :: e in events && IsMarkOf(l, i, m, e)
    ensures forall e :: e in events && !Hidden(i, e.stage) ==> MarkOf(l, e) in Marks(l, i, events)
  {
    if events != [] {
      var front, last := events[..|events| - 1], events[|events| - 1];
      assert forall x :: x in events <==> x == last || x in front;
      MarksMembers(l, i, front);
    }
  }

  lemma {:induction false} MarksCount(l: Layout, i: Inst, events: seq<Event>)
    requires NoRepeats(events)
    ensures |Marks(l, i, events)| == |VisibleStages(i, events)|
  {
    if events == [] {
      assert VisibleStages(i, events) == {};
    } else {
      var front, last := events[..|events| - 1], events[|events| - 1];
      assert forall x :: x in events <==> x == last || x in front;
      MarksCount(l, i, front);
      if Hidden(i, last.stage) {
        assert VisibleStages(i, events) == VisibleStages(i, front);
      } else {
        assert VisibleStages(i, events) == VisibleStages(i, front) + {last.stage};
      }
    }
  }

  lemma {:induction false} MarksAscend(l: Layout, i: Inst, events: seq<Event>)
    requires Ordered(events)
    ensures Ascending(Marks(l, i, events))
  {
    if events != [] {
      var front, last := events[..|events| - 1], events[|events| - 1];
      MarksAscend(l, i, front);
      MarksMembers(l, i, front);
      forall m | m in Marks(l, i, front) ensures m.cell <= MarkOf(l, last).cell {
        var x :| x in front && IsMarkOf(l, i, m, x);
        assert Before(x, last);
        DivMonotone(x.offset, last.offset, l.cycle);
      }
    }
  }

  /** A row's marks are the stages drawn on it, each in the column of its tick. */
  lemma RowMarks(l: Layout, i: Inst, sc: bool, row: nat)
    ensures var marks := Marks(l, i, RowEvents(l, i, sc, row));
            && Ascending(marks)
            && |marks| == |DrawnOn(l, i, sc, row)|
            && CellSet(marks) == ColumnsOf(l, i, DrawnOn(l, i, sc, row))
            && Within(marks, l.width)
            && (forall s :: s in DrawnOn(l, i, sc, row) ==> Mark(Column(l, i, s), Letter(s)) in marks)
  {
    var evs := RowEvents(l, i, sc, row);
    var marks, drawn := Marks(l, i, evs), DrawnOn(l, i, sc, row);
    RowEventsAre(l, i, sc, row);
    MarksAscend(l, i, evs);
    MarksCount(l, i, evs);
    MarksMembers(l, i, evs);
    forall s: Stage | s in drawn ensures s in VisibleStages(i, evs) && Mark(Column(l, i, s), Letter(s)) in marks {
      var e := Event(Tick(i, s) % l.TimeWidth(), s, Tick(i, s));
      assert e in evs && IsMarkOf(l, i, Mark(Column(l, i, s), Letter(s)), e);
    }
    assert VisibleStages(i, evs) == drawn;
    forall m | m in marks ensures 0 <= m.cell < l.width && m.cell in ColumnsOf(l, i, drawn) {
      var e :| e in evs && IsMarkOf(l, i, m, e);
      assert e.stage in drawn && m.cell == Column(l, i, e.stage);
      ColumnInRange(l, i, e.stage);
    }
    CellsAre(l, i, marks, drawn);
  }

  lemma CellsAre(l: Layout, i: Inst, marks: seq<Mark>, drawn: set<Stage>)
    requires forall m :: m in marks ==> 0 <= m.cell < l.width && m.cell in ColumnsOf(l, i, drawn)
    requires forall s :: s in drawn ==> Mark(Column(l, i, s), Letter(s)) in marks
    ensures CellSet(marks) == ColumnsOf(l, i, drawn) && Within(marks, l.width)
  {
    forall c | c in ColumnsOf(l, i, drawn) ensures c in CellSet(marks) {
      var s :| s in drawn && Column(l, i, s) == c;
      var m := Mark(Column(l, i, s), Letter(s));
      assert m in marks && m.cell == c;
    }
  }

  lemma ColumnInRange(l: Layout, i: Inst, s: Stage)
    ensures 0 <= Column(l, i, s) < l.width
  {
    DivMod(Tick(i, s), l.TimeWidth());
    TimesIs(l.width, l.cycle);
    DivAtLeast(Tick(i, s) % l.TimeWidth(), l.cycle, 0);
    DivBelow(Tick(i, s) % l.TimeWidth(), l.cycle, l.width);
  }

  /** A row is as long as the requested width plus one cell for every drawn
      event whose column was already taken. */
  lemma RowLength(l: Layout, i: Inst, sc: bool, row: nat)
    ensures var drawn := DrawnOn(l, i, sc, row);
            |RowText(l, i, sc, row)| == l.width + |drawn| - |ColumnsOf(l, i, drawn)|
  {
    var marks := Marks(l, i, RowEvents(l, i, sc, row));
    RowMarks(l, i, sc, row);
    PaintLength(l.width, DotFor(i), marks);
  }

  ghost predicate DistinctColumns(l: Layout, i: Inst, stages: set<Stage>) {
    forall a, b :: a in stages && b in stages && a != b ==> Column(l, i, a) != Column(l, i, b)
  }

  lemma {:induction false} ColumnCount(l: Layout, i: Inst, stages: set<Stage>)
    ensures |ColumnsOf(l, i, stages)| <= |stages|
    ensures |ColumnsOf(l, i, stages)| == |stages| <==> DistinctColumns(l, i, stages)
  {
    if stages == {} {
      assert ColumnsOf(l, i, stages) == {};
    } else {
      var s :| s in stages;
      var rest := stages - {s};
      ColumnCount(l, i, rest);
      assert ColumnsOf(l, i, stages) == {Column(l, i, s)} + ColumnsOf(l, i, rest);
    }
  }

  /** The row has the requested width exactly when no two drawn events share a
      column, and then every letter is in its column and all other cells are dots. */
  lemma RowContent(l: Layout, i: Inst, sc: bool, row: nat)
    ensures var drawn, text := DrawnOn(l, i, sc, row), RowText(l, i, sc, row);
            && (|text| == l.width <==> DistinctColumns(l, i, drawn))
            && (|text| == l.width ==>
                 (forall s :: s in drawn ==> 0 <= Column(l, i, s) < |text| && text[Column(l, i, s)] == Letter(s)))
            && (|text| == l.width ==>
                 (forall k :: 0 <= k < |text| && k !in ColumnsOf(l, i, drawn) ==> text[k] == DotFor(i)))
  {
    var drawn, text := DrawnOn(l, i, sc, row), RowText(l, i, sc, row);
    RowLength(l, i, sc, row);
    ColumnCount(l, i, drawn);
    if |text| == l.width {
      forall s | s in drawn ensures 0 <= Column(l, i, s) < |text| && text[Column(l, i, s)] == Letter(s) {
        ColumnInRange(l, i, s);
        RowCell(l, i, sc, row, Column(l, i, s));
      }
      forall k | 0 <= k < |text| && k !in ColumnsOf(l, i, drawn) ensures text[k] == DotFor(i) {
        RowCell(l, i, sc, row, k);
      }
    }
  }

  lemma RowCell(l: Layout, i: Inst, sc: bool, row: nat, k: nat)
    requires |RowText(l, i, sc, row)| == l.width && k < l.width
    ensures forall s :: s in DrawnOn(l, i, sc, row) && Column(l, i, s) == k ==> RowText(l, i, sc, row)[k] == Letter(s)
    ensures k !in ColumnsOf(l, i, DrawnOn(l, i, sc, row)) ==> RowText(l, i, sc, row)[k] == DotFor(i)
  {
    var marks, text := Marks(l, i, RowEvents(l, i, sc, row)), RowText(l, i, sc, row);
    RowMarks(l, i, sc, row);
    RowLength(l, i, sc, row);
    DistinctAscend(marks);
    PaintCell(l.width, DotFor(i), marks, k);
    forall s | s in DrawnOn(l, i, sc, row) && Column(l, i, s) == k ensures text[k] == Letter(s) {
      assert Mark(Column(l, i, s), Letter(s)) in marks;
      var j :| 0 <= j < |marks| && marks[j] == Mark(Column(l, i, s), Letter(s));
      CellAtMark(DotFor(i), marks, j);
    }
    if k !in ColumnsOf(l, i, DrawnOn(l, i, sc, row)) {
      CellAtGap(DotFor(i), marks, k);
    }
  }

  // ---------- columns and clock cycles ----------

  /** The column is the number of the clock cycle, counted around the row. */
  lemma ColumnIsCycle(l: Layout, i: Inst, s: Stage)
    ensures Column(l, i, s) == (Tick(i, s) / l.cycle) % l.width
  {
    TimesIs(l.width, l.cycle);
    CycleAroundRow(Tick(i, s), l.width, l.cycle, l.TimeWidth());
  }

  lemma RowEndsAt(k: int, width: int, cycle: int)
    ensures (k + width) * cycle == k * cycle + width * cycle
  {
  }

  /** On a row whose first cycle is complete, two events share a column exactly when they share a cycle. */
  lemma SameColumnSameCycle(l: Layout, i: Inst, a: Stage, b: Stage, start: int)
    requires start % l.cycle == 0
    requires start <= Tick(i, a) < start + l.TimeWidth() && start <= Tick(i, b) < start + l.TimeWidth()
    ensures Column(l, i, a) == Column(l, i, b) <==> Tick(i, a) / l.cycle == Tick(i, b) / l.cycle
  {
    ColumnIsCycle(l, i, a);
    ColumnIsCycle(l, i, b);
    var k := start / l.cycle;
    DivMod(start, l.cycle);
    assert (k + l.width) * l.cycle == start + l.TimeWidth() by {
      TimesIs(l.width, l.cycle);
      RowEndsAt(k, l.width, l.cycle);
    }
    DivAtLeast(Tick(i, a), l.cycle, k);
    DivAtLeast(Tick(i, b), l.cycle, k);
    DivBelow(Tick(i, a), l.cycle, k + l.width);
    DivBelow(Tick(i, b), l.cycle, k + l.width);
    WithinOneTurn(Tick(i, a) / l.cycle, Tick(i, b) / l.cycle, l.width, k);
  }

  ghost predicate DistinctCycles(l: Layout, i: Inst, stages: set<Stage>) {
    forall a, b :: a in stages && b in stages && a != b ==> Tick(i, a) / l.cycle != Tick(i, b) / l.cycle
  }

  /** No stage is drawn in the cycle one full turn after that of the fetch. */
  ghost predicate NoneOneTurnLater(l: Layout, i: Inst, stages: set<Stage>) {
    forall s :: s in stages ==> Tick(i, s) / l.cycle != i.fetch / l.cycle + l.width
  }

  /** A row has the requested width exactly when its stages are in distinct clock cycles and, in the compact form,
      none is one full turn after the fetch: it would be drawn in the fetch's column. */
  lemma RowWidthByCycles(l: Layout, i: Inst, sc: bool, row: nat)
    requires row < NumLines(l, i, sc)
    requires Compact(l, i, sc) ==> forall s: Stage :: OnRow(l, i, sc, row, s) ==> Tick(i, s) >= i.fetch
    ensures var drawn := DrawnOn(l, i, sc, row);
            |RowText(l, i, sc, row)| == l.width <==>
            DistinctCycles(l, i, drawn) && (Compact(l, i, sc) ==> NoneOneTurnLater(l, i, drawn))
  {
    RowContent(l, i, sc, row);
    SingleRowIffCompact(l, i, sc);
    if Compact(l, i, sc) {
      CompactRowWidth(l, i, sc);
    } else {
      FullRowWidth(l, i, sc, row);
    }
  }

  lemma FullRowWidth(l: Layout, i: Inst, sc: bool, row: nat)
    requires row < NumLines(l, i, sc) && !Compact(l, i, sc)
    ensures var drawn := DrawnOn(l, i, sc, row); DistinctColumns(l, i, drawn) <==> DistinctCycles(l, i, drawn)
  {
    var drawn := DrawnOn(l, i, sc, row);
    SingleRowIffCompact(l, i, sc);
    forall a, b | a in drawn && b in drawn
      ensures Column(l, i, a) == Column(l, i, b) <==> Tick(i, a) / l.cycle == Tick(i, b) / l.cycle
    {
      RowStartAligned(l, i, row);
      SameColumnSameCycle(l, i, a, b, RowStart(l, i, row));
    }
  }

  lemma CompactRowWidth(l: Layout, i: Inst, sc: bool)
    requires Compact(l, i, sc) && forall s: Stage :: OnRow(l, i, sc, 0, s) ==> Tick(i, s) >= i.fetch
    ensures var drawn := DrawnOn(l, i, sc, 0);
            DistinctColumns(l, i, drawn) <==> DistinctCycles(l, i, drawn) && NoneOneTurnLater(l, i, drawn)
  {
    CompactRow(l, i, sc, 0);
    if i.fetch != 0 { FetchOnRow(l, i, sc); }
    CompactColumns(l, i, DrawnOn(l, i, sc, 0));
  }

  lemma CompactRow(l: Layout, i: Inst, sc: bool, row: nat)
    requires Compact(l, i, sc) && row == 0 && forall s: Stage :: OnRow(l, i, sc, row, s) ==> Tick(i, s) >= i.fetch
    ensures forall s: Stage :: OnRow(l, i, sc, row, s) ==> i.fetch <= Tick(i, s) < i.fetch + l.TimeWidth()
  {
  }

  lemma FetchOnRow(l: Layout, i: Inst, sc: bool)
    requires i.fetch != 0
    ensures 0 in DrawnOn(l, i, sc, 0)
  {
    BaseIsBehindFetch(l, i);
    assert OnRow(l, i, sc, 0, 0);
  }

  /** The cycles of a compact row: one turn from the fetch's, and one more unless the fetch starts a cycle. */
  lemma CompactCycle(l: Layout, i: Inst, s: Stage)
    requires i.fetch <= Tick(i, s) < i.fetch + l.TimeWidth()
    ensures var k := i.fetch / l.cycle;
            k <= Tick(i, s) / l.cycle <= k + l.width && (i.fetch % l.cycle == 0 ==> Tick(i, s) / l.cycle < k + l.width)
  {
    var k := i.fetch / l.cycle;
    DivMod(i.fetch, l.cycle);
    DivAtLeast(Tick(i, s), l.cycle, k);
    TimesIs(l.width, l.cycle);
    RowEndsAt(k, l.width, l.cycle);
    RowEndsAt(k + l.width, 1, l.cycle);
    DivBelow(Tick(i, s), l.cycle, k + l.width + 1);
    if i.fetch % l.cycle == 0 { DivBelow(Tick(i, s), l.cycle, k + l.width); }
  }

  lemma CompactColumns(l: Layout, i: Inst, drawn: set<Stage>)
    requires forall s :: s in drawn ==> i.fetch <= Tick(i, s) < i.fetch + l.TimeWidth()
    requires i.fetch != 0 ==> 0 in drawn
    ensures DistinctColumns(l, i, drawn) <==> DistinctCycles(l, i, drawn) && NoneOneTurnLater(l, i, drawn)
  {
    if NoneOneTurnLater(l, i, drawn) {
      forall a, b | a in drawn && b in drawn
        ensures Column(l, i, a) == Column(l, i, b) <==> Tick(i, a) / l.cycle == Tick(i, b) / l.cycle
      {
        CompactPair(l, i, a, b);
      }
    } else {
      var s :| s in drawn && Tick(i, s) / l.cycle == i.fetch / l.cycle + l.width;
      MeetsFetch(l, i, s);
    }
  }

  lemma CompactPair(l: Layout, i: Inst, a: Stage, b: Stage)
    requires i.fetch <= Tick(i, a) < i.fetch + l.TimeWidth() && i.fetch <= Tick(i, b) < i.fetch + l.TimeWidth()
    requires var end := i.fetch / l.cycle + l.width; Tick(i, a) / l.cycle != end && Tick(i, b) / l.cycle != end
    ensures Column(l, i, a) == Column(l, i, b) <==> Tick(i, a) / l.cycle == Tick(i, b) / l.cycle
  {
    CompactCycle(l, i, a);
    CompactCycle(l, i, b);
    ColumnIsCycle(l, i, a);
    ColumnIsCycle(l, i, b);
    WithinOneTurn(Tick(i, a) / l.cycle, Tick(i, b) / l.cycle, l.width, i.fetch / l.cycle);
  }

  /** A stage one full turn later is drawn in the fetch's column. */
  lemma MeetsFetch(l: Layout, i: Inst, s: Stage)
    requires i.fetch <= Tick(i, s) < i.fetch + l.TimeWidth() && Tick(i, s) / l.cycle == i.fetch / l.cycle + l.width
    ensures i.fetch != 0 && s != 0 && Column(l, i, s) == Column(l, i, 0)
  {
    assert i.fetch != 0 by { CompactCycle(l, i, s); }
    assert Column(l, i, s) == Column(l, i, 0) by {
      ColumnIsCycle(l, i, s);
      ColumnIsCycle(l, i, 0);
      OneTurnLater(i.fetch / l.cycle, l.width);
    }
  }

  lemma RowStartAligned(l: Layout, i: Inst, row: nat)
    ensures RowStart(l, i, row) % l.cycle == 0
  {
    var q := i.fetch / l.TimeWidth();
    TimesIs(l.width, l.cycle);
    WholeRows(q, row, l.width, l.cycle, l.TimeWidth());
    DivUnique(RowStart(l, i, row), l.cycle, (q + row) * l.width, 0);
  }

  /** For every fetch in the middle of a cycle there is such an instruction: all its cycles are distinct, and yet
      its row is too long. */
  lemma UnalignedFetchOverflows(l: Layout, fetch: int)
    requires fetch > 0 && fetch % l.cycle != 0
    ensures exists i: Inst :: i.fetch == fetch && Compact(l, i, false)
              && DistinctCycles(l, i, DrawnOn(l, i, false, 0))
              && |RowText(l, i, false, 0)| == l.width + 1
  {
    var r := fetch % l.cycle;
    DivMod(fetch, l.cycle);
    var decode := fetch - r + l.TimeWidth();
    var i := Inst(0, fetch, decode, 0, 0, 0, 0, 0, 0, "", "", "");
    BaseIsBehindFetch(l, i);
    var k := fetch / l.cycle;
    assert decode == (k + l.width) * l.cycle by {
      TimesIs(l.width, l.cycle);
      RowEndsAt(k, l.width, l.cycle);
    }
    DivUnique(decode, l.cycle, k + l.width, 0);
    assert l.TimeWidth() >= l.cycle by { RowsApart(0, l.width, l.cycle); }
    var drawn := DrawnOn(l, i, false, 0);
    assert drawn == {0, 1};
    ColumnIsCycle(l, i, 0);
    ColumnIsCycle(l, i, 1);
    DivMod(k, l.width);
    assert k + l.width == (k / l.width + 1) * l.width + k % l.width;
    DivUnique(k + l.width, l.width, k / l.width + 1, k % l.width);
    assert ColumnsOf(l, i, drawn) == {Column(l, i, 0)};
    RowLength(l, i, false, 0);
  }

}
