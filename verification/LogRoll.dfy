/** A rolling window over the last lines of a text stream. */
module LogRoll {

  datatype Line = Line(text: string)

  /** The buffer and the position of its oldest line; while the buffer fills, that of the next one. */
  datatype Roll = Roll(lines: seq<Line>, idx: nat)

  function Advance(target: int, idx: nat): nat { if idx == target - 1 then 0 else idx + 1 }

  /** Reading one more line: append while filling, overwrite the oldest line afterwards. */
  function Push(target: int, r: Roll, line: Line): Roll {
    if target >= 1 && |r.lines| >= target && r.idx < |r.lines|
    then Roll(r.lines[r.idx := line], Advance(target, r.idx))
    else Roll(r.lines + [line], Advance(target, r.idx))
  }

  function After(target: int, input: seq<Line>): Roll {
    if input == [] then Roll([], 0) else Push(target, After(target, input[..|input| - 1]), input[|input| - 1])
  }

  /** What a dump prints. */
  function Dump(r: Roll): seq<Line> {
    if r.idx <= |r.lines| then r.lines[r.idx..] + r.lines[..r.idx] else r.lines
  }

  /** The last `target` lines of the input, or all of them if there are fewer or there is no limit. */
  function Window(target: int, input: seq<Line>): seq<Line> {
    if target >= 1 && |input| > target then input[|input| - target..] else input
  }

  /** While there is room the buffer is the input itself. */
  lemma {:induction false} Filling(target: int, input: seq<Line>)
    requires target < 1 || |input| < target
    ensures After(target, input) == Roll(input, |input|)
  {
    if input != [] {
      Filling(target, input[..|input| - 1]);
      assert input == input[..|input| - 1] + [input[|input| - 1]];
    }
  }

  /** A full buffer holding `window`, rotated so that its oldest line is at `idx`. */
  ghost predicate Holds(r: Roll, target: int, window: seq<Line>) {
    |r.lines| == target && r.idx < target && r.lines[r.idx..] + r.lines[..r.idx] == window
  }

  lemma PushRolls(target: int, r: Roll, window: seq<Line>, line: Line)
    requires Holds(r, target, window)
    ensures |window| == target && Holds(Push(target, r, line), target, window[1..] + [line])
  {
    Rotate(r.lines, r.idx, line);
  }

  /** Once full it holds the last `target` lines. */
  lemma {:induction false} Rolling(target: int, input: seq<Line>)
    requires 1 <= target <= |input|
    ensures Holds(After(target, input), target, input[|input| - target..])
  {
    var front, line := input[..|input| - 1], input[|input| - 1];
    assert input == front + [line];
    if |input| == target {
      Filling(target, front);
      assert input[0..] + input[..0] == input;
    } else {
      Rolling(target, front);
      PushRolls(target, After(target, front), front[|front| - target..], line);
      Slide(target, front, line);
    }
  }

  /** Overwriting the oldest line and moving on drops it and appends the new one. */
  lemma Rotate(lines: seq<Line>, idx: nat, line: Line)
    requires idx < |lines|
    ensures var next, was := lines[idx := line], lines[idx..] + lines[..idx];
            && next[idx + 1..] + next[..idx + 1] == was[1..] + [line]
            && (idx + 1 == |lines| ==> next[0..] + next[..0] == was[1..] + [line])
  {
  }

  /** Overwriting it without moving on puts the new line first. */
  lemma Overwrite(lines: seq<Line>, idx: nat, line: Line)
    requires idx < |lines|
    ensures var next := lines[idx := line];
            next[idx..] + next[..idx] == [line] + (lines[idx..] + lines[..idx])[1..]
  {
  }

  lemma Slide(n: nat, front: seq<Line>, line: Line)
    requires 1 <= n <= |front|
    ensures (front + [line])[|front| + 1 - n..] == front[|front| - n..][1..] + [line]
  {
  }

  /** After any number of lines, hence also whenever a signal between two lines asks for it, a dump shows the window. */
  lemma DumpIsWindow(target: int, input: seq<Line>)
    ensures Dump(After(target, input)) == Window(target, input)
  {
    if target < 1 || |input| < target {
      Filling(target, input);
      assert input[|input|..] + input == input;
    } else {
      Rolling(target, input);
    }
  }

  /**
    * Storing a line and moving the index are two steps. A signal handled between them sees the new buffer with
    * the old index, and then the newest line comes first although it is the youngest: all other lines follow in order.
    */
  lemma SignalBetweenStoreAndIndex(target: int, input: seq<Line>, line: Line)
    ensures var window := Window(target, input + [line]);
            Dump(Store(After(target, input), line)) == [line] + window[..|window| - 1]
  {
    var r := After(target, input);
    if target < 1 || |input| < target {
      Filling(target, input);
      DropLast(input, line);
      assert (input + [line])[|input|..] == [line];
    } else {
      Rolling(target, input);
      Overwrite(r.lines, r.idx, line);
      Slide(target, input, line);
      DropLast(input[|input| - target..][1..], line);
    }
  }

  /** The first half of reading a line: it is in the buffer, the index has not moved. */
  function Store(r: Roll, line: Line): Roll {
    if r.idx < |r.lines| then Roll(r.lines[r.idx := line], r.idx) else Roll(r.lines + [line], r.idx)
  }

  lemma DropLast(s: seq<Line>, line: Line)
    ensures (s + [line])[..|s + [line]| - 1] == s
  {
  }

  /** The program: fill the buffer, then keep overwriting it, then dump it. */
  method Follow(target: int, incoming: seq<Line>) returns (printed: seq<Line>)
    ensures printed == if 1 <= target < |incoming| then incoming[|incoming| - target..] else incoming
  {
    var idx: nat := 0;
    var lines: seq<Line> := [];
    var k := 0;
    var full := false;
    while k < |incoming| && !full
      invariant 0 <= k <= |incoming| && Roll(lines, idx) == After(target, incoming[..k])
      invariant full <==> target >= 1 && k >= target
      invariant !full ==> idx == k == |lines|
      invariant full ==> |lines| == target && idx == 0
      decreases |incoming| - k, !full
    {
      assert incoming[..k + 1][..k] == incoming[..k];
      lines := lines + [incoming[k]];
      if idx == target - 1 {
        idx, full := 0, true;
      } else {
        idx := idx + 1;
      }
      k := k + 1;
    }
    while k < |incoming|
      invariant 0 <= k <= |incoming| && Roll(lines, idx) == After(target, incoming[..k])
      invariant k < |incoming| ==> full && target >= 1
      invariant full ==> |lines| == target && idx < target
    {
      assert incoming[..k + 1][..k] == incoming[..k];
      lines := lines[idx := incoming[k]];
      idx := if idx == target - 1 then 0 else idx + 1;
      k := k + 1;
    }
    assert incoming[..k] == incoming;
    DumpIsWindow(target, incoming);
    printed := DumpLines(lines, idx);
  }

  method Echo(before: seq<Line>, lines: seq<Line>) returns (printed: seq<Line>)
    ensures printed == before + lines
  {
    printed := before;
    for i := 0 to |lines|
      invariant printed == before + lines[..i]
    {
      printed := printed + [lines[i]];
    }
  }

  method DumpLines(lines: seq<Line>, idx: nat) returns (printed: seq<Line>)
    ensures printed == Dump(Roll(lines, idx))
  {
    var split := if idx <= |lines| then idx else |lines|;
    printed := Echo([], lines[split..]);
    printed := Echo(printed, lines[..split]);
  }
}
