/** Drawing one timeline row: letters at given columns, dots in between. */
module RowPainter {

  datatype Mark = Mark(cell: int, letter: char)

  /** `dot * n` of a string: empty for a negative count. */
  function Dots(dot: char, n: int): string {
    if n <= 0 then "" else Dots(dot, n - 1) + [dot]
  }

  lemma {:induction false} DotsAre(dot: char, n: int)
    ensures |Dots(dot, n)| == if n <= 0 then 0 else n
    ensures forall k :: 0 <= k < |Dots(dot, n)| ==> Dots(dot, n)[k] == dot
  {
    if n > 0 { DotsAre(dot, n - 1); }
  }

  /** The column reached after the marks were drawn. */
  function Reached(marks: seq<Mark>): int {
    if marks == [] then 0 else marks[|marks| - 1].cell + 1
  }

  function Drawn(dot: char, marks: seq<Mark>): string {
    if marks == [] then ""
    else
      var front, last := marks[..|marks| - 1], marks[|marks| - 1];
      Drawn(dot, front) + Dots(dot, last.cell - Reached(front)) + [last.letter]
  }

  lemma DrawnNext(dot: char, marks: seq<Mark>, m: Mark)
    ensures Drawn(dot, marks + [m]) == Drawn(dot, marks) + Dots(dot, m.cell - Reached(marks)) + [m.letter]
    ensures Reached(marks + [m]) == m.cell + 1
  {
    assert (marks + [m])[..|marks|] == marks;
  }

  /** Draws one more mark behind a text that has reached cell `at`. */
  method Stamp(dot: char, ghost marks: seq<Mark>, text: string, at: int, m: Mark) returns (text': string, at': int)
    requires text == Drawn(dot, marks) && at == Reached(marks)
    ensures text' == Drawn(dot, marks + [m]) && at' == Reached(marks + [m])
  {
    DrawnNext(dot, marks, m);
    text' := text + Dots(dot, m.cell - at) + [m.letter];
    at' := m.cell + 1;
  }

  /** The whole row, filled up with dots. */
  function Paint(width: nat, dot: char, marks: seq<Mark>): string {
    Drawn(dot, marks) + Dots(dot, width - Reached(marks))
  }

  /** What a cell should show: the letter of the mark at that column, or a dot. */
  function CellAt(dot: char, marks: seq<Mark>, k: int): char {
    if marks == [] then dot
    else if marks[|marks| - 1].cell == k then marks[|marks| - 1].letter
    else CellAt(dot, marks[..|marks| - 1], k)
  }

  ghost predicate Ascending(marks: seq<Mark>) {
    forall a, b :: 0 <= a < b < |marks| ==> marks[a].cell <= marks[b].cell
  }

  ghost predicate StrictlyAscending(marks: seq<Mark>) {
    forall a, b :: 0 <= a < b < |marks| ==> marks[a].cell < marks[b].cell
  }

  ghost predicate Within(marks: seq<Mark>, width: int) {
    forall a :: 0 <= a < |marks| ==> 0 <= marks[a].cell < width
  }

  ghost function CellSet(marks: seq<Mark>): set<int> {
    set a | 0 <= a < |marks| :: marks[a].cell
  }

  lemma CellSetLast(marks: seq<Mark>)
    requires marks != []
    ensures CellSet(marks) == CellSet(marks[..|marks| - 1]) + {marks[|marks| - 1].cell}
  {
    var front := marks[..|marks| - 1];
    assert forall a :: 0 <= a < |front| ==> front[a] == marks[a];
    assert marks[|marks| - 1].cell in CellSet(marks);
  }

  /** The last mark is in a new column exactly when it is beyond all earlier ones. */
  lemma CellSetGrows(marks: seq<Mark>)
    requires marks != [] && Ascending(marks)
    ensures var front := marks[..|marks| - 1];
            |CellSet(marks)| == |CellSet(front)| + if front != [] && Reached(front) == Reached(marks) then 0 else 1
  {
    var front, last := marks[..|marks| - 1], marks[|marks| - 1];
    CellSetLast(marks);
    if front != [] && Reached(front) == Reached(marks) {
      assert front[|front| - 1].cell == last.cell;
      assert CellSet(marks) == CellSet(front);
    } else {
      assert last.cell !in CellSet(front);
    }
  }

  /** Every mark takes one cell, except that marks sharing a column push the row out. */
  lemma {:induction false} DrawnLength(dot: char, marks: seq<Mark>)
    requires Ascending(marks) && forall a :: 0 <= a < |marks| ==> 0 <= marks[a].cell
    ensures |Drawn(dot, marks)| == Reached(marks) + |marks| - |CellSet(marks)|
  {
    if marks != [] {
      var front, last := marks[..|marks| - 1], marks[|marks| - 1];
      DrawnLength(dot, front);
      CellSetGrows(marks);
      DotsAre(dot, last.cell - Reached(front));
    }
  }

  lemma PaintLength(width: nat, dot: char, marks: seq<Mark>)
    requires Ascending(marks) && Within(marks, width)
    ensures |Paint(width, dot, marks)| == width + |marks| - |CellSet(marks)|
  {
    DrawnLength(dot, marks);
    DotsAre(dot, width - Reached(marks));
  }

  lemma {:induction false} FewerCells(marks: seq<Mark>)
    ensures |CellSet(marks)| <= |marks|
  {
    if marks != [] {
      FewerCells(marks[..|marks| - 1]);
      CellSetLast(marks);
    } else {
      assert CellSet(marks) == {};
    }
  }

  lemma {:induction false} DistinctAscend(marks: seq<Mark>)
    requires Ascending(marks) && |CellSet(marks)| == |marks|
    ensures StrictlyAscending(marks)
  {
    if marks != [] {
      var front := marks[..|marks| - 1];
      CellSetGrows(marks);
      FewerCells(front);
      DistinctAscend(front);
      forall a, b | 0 <= a < b < |marks| ensures marks[a].cell < marks[b].cell {
        if b < |front| { assert front[a].cell < front[b].cell; }
        else { assert front[a].cell <= front[|front| - 1].cell; }
      }
    }
  }

  lemma {:induction false} DrawnCell(dot: char, marks: seq<Mark>, k: int)
    requires StrictlyAscending(marks) && forall a :: 0 <= a < |marks| ==> 0 <= marks[a].cell
    ensures |Drawn(dot, marks)| == Reached(marks)
    ensures 0 <= k < Reached(marks) ==> Drawn(dot, marks)[k] == CellAt(dot, marks, k)
    ensures k >= Reached(marks) ==> CellAt(dot, marks, k) == dot
  {
    if marks != [] {
      var front, last := marks[..|marks| - 1], marks[|marks| - 1];
      DrawnCell(dot, front, k);
      DotsAre(dot, last.cell - Reached(front));
      assert front != [] ==> front[|front| - 1] == marks[|marks| - 2];
    }
  }

  /** With at most one mark per column, every cell shows what it should. */
  lemma PaintCell(width: nat, dot: char, marks: seq<Mark>, k: int)
    requires StrictlyAscending(marks) && Within(marks, width) && 0 <= k < width
    ensures |Paint(width, dot, marks)| == width && Paint(width, dot, marks)[k] == CellAt(dot, marks, k)
  {
    DrawnCell(dot, marks, k);
    DotsAre(dot, width - Reached(marks));
  }

  lemma {:induction false} CellAtMark(dot: char, marks: seq<Mark>, j: nat)
    requires StrictlyAscending(marks) && j < |marks|
    ensures CellAt(dot, marks, marks[j].cell) == marks[j].letter
  {
    if j < |marks| - 1 { CellAtMark(dot, marks[..|marks| - 1], j); }
  }

  lemma {:induction false} CellAtGap(dot: char, marks: seq<Mark>, k: int)
    requires k !in CellSet(marks)
    ensures CellAt(dot, marks, k) == dot
  {
    if marks != [] {
      CellSetLast(marks);
      CellAtGap(dot, marks[..|marks| - 1], k);
    }
  }

  // ---------- which characters a row holds ----------

  lemma {:induction false} DrawnLetters(dot: char, marks: seq<Mark>, c: char)
    ensures (exists m :: m in marks && m.letter == c) ==> c in Drawn(dot, marks)
    ensures c in Drawn(dot, marks) ==> c == dot || exists m :: m in marks && m.letter == c
  {
    if marks != [] {
      var front, last := marks[..|marks| - 1], marks[|marks| - 1];
      DrawnLetters(dot, front, c);
      DotsAre(dot, last.cell - Reached(front));
      assert last in marks && forall m :: m in marks <==> m in front || m == last;
    }
  }

  /** A character other than the dot is on the row exactly if a mark has it; every character is the dot or a mark's. */
  lemma PaintLetters(width: nat, dot: char, marks: seq<Mark>, c: char)
    ensures (exists m :: m in marks && m.letter == c) ==> c in Paint(width, dot, marks)
    ensures c in Paint(width, dot, marks) ==> c == dot || exists m :: m in marks && m.letter == c
  {
    DrawnLetters(dot, marks, c);
    DotsAre(dot, width - Reached(marks));
  }
}
