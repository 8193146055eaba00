/** The scanner that finds the leading comment blocks of a source file. */
module CopyrightBlocks {
  import opened Common

  /**
    * What the scanner's patterns and string tests say about a line.
    * `skipped` counts on the first line only: a mode line, or for scripts an interpreter line.
    * `comment` is the one-line comment of scripts and Lisp; `code` is text before a double slash.
    * `closedHere`, which the scanner does not look at: the comment opened on the line is also closed on it.
    */
  datatype Line = Line(skipped: bool, comment: bool, slashes: bool, code: bool, copyright: bool,
                       opens: bool, closes: bool, closedHere: bool, blank: bool)

  datatype Block = Block(start: nat, end: int)

  datatype Mode = Idle | InC | InCpp
  datatype Status = Running | Returned | Failed

  /** The scan so far; once it has stopped, `at` is the line it stopped on. */
  datatype Scan = Scan(blocks: seq<Block>, mode: Mode, start: nat, status: Status, at: nat)

  // ----- C-like languages

  function Step(i: nat, line: Line, s: Scan): Scan {
    if s.status != Running || (i == 0 && line.skipped) then s
    else if s.mode == InC then
      if line.closes then s.(blocks := s.blocks + [Block(s.start, i)], mode := Idle) else s
    else if line.slashes then
      if line.opens then s.(status := Failed, at := i)
      else if line.code then s.(status := Returned, at := i)
      else if s.mode == Idle then s.(mode := InCpp, start := i)
      else if line.copyright then s.(blocks := s.blocks + [Block(s.start, i - 1)], start := i)
      else s
    else if s.mode == InCpp && line.blank then s
    else
      var t := if s.mode == InCpp then s.(blocks := s.blocks + [Block(s.start, i - 1)], mode := Idle) else s;
      if line.opens then t.(mode := InC, start := i)
      else if s.mode == InCpp || !line.blank then t.(status := Returned, at := i)
      else t
  }

  function After(lines: seq<Line>, n: nat): Scan
    requires n <= |lines|
  {
    if n == 0 then Scan([], Idle, 0, Running, 0) else Step(n - 1, lines[n - 1], After(lines, n - 1))
  }

  // ----- What the blocks are

  /** All lines from `a` up to `b` are blank and have no comment. */
  ghost predicate Blank(lines: seq<Line>, a: int, b: nat)
    requires b <= |lines|
    decreases b
  {
    b == 0 || b <= a ||
    (Blank(lines, a, b - 1) && lines[b - 1].blank && !lines[b - 1].slashes && !lines[b - 1].opens)
  }

  /** From `a` up to `b`: a comment is opened on line `a`, and no later line closes one. */
  ghost predicate COpen(lines: seq<Line>, a: nat, b: nat)
    requires b <= |lines|
    decreases b
  {
    a < b && (if b == a + 1 then lines[a].opens && !lines[a].slashes else COpen(lines, a, b - 1) && !lines[b - 1].closes)
  }

  ghost predicate SlashLine(line: Line) { line.slashes && !line.code && !line.opens }

  /** From `a` up to `b`: comment lines and blank lines, a comment first and no later one that starts a notice. */
  ghost predicate CppOpen(lines: seq<Line>, a: nat, b: nat)
    requires b <= |lines|
    decreases b
  {
    a < b &&
    if b == a + 1 then SlashLine(lines[a])
    else CppOpen(lines, a, b - 1) &&
         (if lines[b - 1].slashes then SlashLine(lines[b - 1]) && !lines[b - 1].copyright else lines[b - 1].blank)
  }

  /** What ends a run of line comments: a line with something else, or one that starts a new notice. */
  ghost predicate EndsRun(line: Line) {
    if line.slashes then SlashLine(line) && line.copyright else !line.blank
  }

  /** What the scanner takes for a block: from an opening to the next line that closes a comment, or a whole run of
      line comments. */
  ghost predicate IsBlock(lines: seq<Line>, b: Block) {
    b.start <= b.end < |lines| &&
    (|| (b.start < b.end && COpen(lines, b.start, b.end) && lines[b.end].closes)
     || (b.end + 1 < |lines| && CppOpen(lines, b.start, b.end + 1) && EndsRun(lines[b.end + 1])))
  }

  /** The first line after the blocks. */
  function Behind(lines: seq<Line>, blocks: seq<Block>): int {
    if blocks != [] then blocks[|blocks| - 1].end + 1 else if lines != [] && lines[0].skipped then 1 else 0
  }

  /** Blocks in order and disjoint, with only blank lines before, and between, them. */
  ghost predicate Tiled(lines: seq<Line>, blocks: seq<Block>)
    decreases |blocks|
  {
    blocks == [] ||
    var front, last := blocks[..|blocks| - 1], blocks[|blocks| - 1];
    && Tiled(lines, front)
    && IsBlock(lines, last)
    && Behind(lines, front) <= last.start
    && Blank(lines, Behind(lines, front), last.start)
  }

  /** How far the scan has come. */
  function Reach(s: Scan, n: nat): nat { if s.status == Running then n else s.at }

  /** The lines behind the last block: blank ones, then the comment that is open, if there is one. */
  ghost predicate Rest(lines: seq<Line>, s: Scan, m: nat)
    requires m <= |lines|
  {
    var from := Behind(lines, s.blocks);
    match s.mode
    case Idle => (from <= m || (m == 0 && s.blocks == [] && s.status == Running)) && Blank(lines, from, m)
    case InC => from <= s.start < m && Blank(lines, from, s.start) && COpen(lines, s.start, m)
    case InCpp => from <= s.start < m && Blank(lines, from, s.start) && CppOpen(lines, s.start, m)
  }

  ghost predicate Scanned(lines: seq<Line>, n: nat, s: Scan)
    requires n <= |lines|
  {
    && Reach(s, n) <= n && Tiled(lines, s.blocks) && Rest(lines, s, Reach(s, n))
    && (s.status == Returned ==> s.at < n && s.mode != InC && IsCode(lines[s.at]) && (s.mode == InCpp ==> lines[s.at].slashes))
    && (s.status == Failed ==> s.at < n && s.mode != InC && lines[s.at].slashes && lines[s.at].opens)
  }

  /** A line that holds something outside a comment. */
  ghost predicate IsCode(line: Line) { !line.opens && (if line.slashes then line.code else !line.blank) }

  lemma AddBlock(lines: seq<Line>, blocks: seq<Block>, b: Block)
    requires Tiled(lines, blocks) && IsBlock(lines, b)
    requires Behind(lines, blocks) <= b.start && Blank(lines, Behind(lines, blocks), b.start)
    ensures Tiled(lines, blocks + [b]) && Behind(lines, blocks + [b]) == b.end + 1
  {
    assert (blocks + [b])[..|blocks|] == blocks;
  }

  lemma StepInC(lines: seq<Line>, n: nat, s: Scan)
    requires n < |lines| && Scanned(lines, n, s) && s.status == Running && s.mode == InC
    ensures Scanned(lines, n + 1, Step(n, lines[n], s))
  {
    if lines[n].closes {
      AddBlock(lines, s.blocks, Block(s.start, n));
    }
  }

  lemma StepInCpp(lines: seq<Line>, n: nat, s: Scan)
    requires n < |lines| && Scanned(lines, n, s) && s.status == Running && s.mode == InCpp
    ensures Scanned(lines, n + 1, Step(n, lines[n], s))
  {
    var line := lines[n];
    if if line.slashes then SlashLine(line) && line.copyright else !line.blank {
      AddBlock(lines, s.blocks, Block(s.start, n - 1));
    }
  }

  lemma StepIdle(lines: seq<Line>, n: nat, s: Scan)
    requires n < |lines| && Scanned(lines, n, s) && s.status == Running && s.mode == Idle
    ensures Scanned(lines, n + 1, Step(n, lines[n], s))
  {
  }

  /** One step keeps what is known about the scan. */
  lemma StepScans(lines: seq<Line>, n: nat, s: Scan)
    requires n < |lines| && Scanned(lines, n, s)
    ensures Scanned(lines, n + 1, Step(n, lines[n], s))
  {
    if s.status == Running {
      match s.mode
      case Idle => StepIdle(lines, n, s);
      case InC => StepInC(lines, n, s);
      case InCpp => StepInCpp(lines, n, s);
    }
  }

  /**
    * For every file: the blocks found are disjoint and in order, with nothing but blank lines between them, each from
    * an opening to the next close behind its line or a run of line comments. The lines from the last block to where the
    * scan stopped are blank up to one unfinished comment. The scan only returns early on a line with code, and only
    * fails on one that mixes both comment styles.
    */
  lemma {:induction false} ScanFindsBlocks(lines: seq<Line>, n: nat)
    requires n <= |lines|
    ensures Scanned(lines, n, After(lines, n))
  {
    if n > 0 {
      ScanFindsBlocks(lines, n - 1);
      StepScans(lines, n - 1, After(lines, n - 1));
    }
  }

  // ----- There is no other result

  lemma {:induction false} BlankAt(lines: seq<Line>, a: int, b: nat, k: nat)
    requires b <= |lines| && Blank(lines, a, b) && a <= k < b
    ensures lines[k].blank && !lines[k].slashes && !lines[k].opens
    decreases b
  {
    if k < b - 1 { BlankAt(lines, a, b - 1, k); }
  }

  lemma {:induction false} COpenAt(lines: seq<Line>, a: nat, b: nat, k: nat)
    requires b <= |lines| && COpen(lines, a, b) && a <= k < b
    ensures if k == a then lines[k].opens && !lines[k].slashes else !lines[k].closes
    decreases b
  {
    if b > a + 1 && k < b - 1 { COpenAt(lines, a, b - 1, k); }
  }

  lemma {:induction false} CppOpenAt(lines: seq<Line>, a: nat, b: nat, k: nat)
    requires b <= |lines| && CppOpen(lines, a, b) && a <= k < b
    ensures if k == a then SlashLine(lines[k])
            else if lines[k].slashes then SlashLine(lines[k]) && !lines[k].copyright else lines[k].blank
    decreases b
  {
    if b > a + 1 && k < b - 1 { CppOpenAt(lines, a, b - 1, k); }
  }

  /** The first line of a block tells its kind. */
  lemma BlockKind(lines: seq<Line>, b: Block)
    requires IsBlock(lines, b)
    ensures if lines[b.start].opens then !lines[b.start].slashes && COpen(lines, b.start, b.end) && lines[b.end].closes
            else SlashLine(lines[b.start]) && b.end + 1 < |lines| && CppOpen(lines, b.start, b.end + 1)
                 && EndsRun(lines[b.end + 1])
  {
    if b.start < b.end && COpen(lines, b.start, b.end) { COpenAt(lines, b.start, b.end, b.start); }
    if CppOpen(lines, b.start, b.end + 1) { CppOpenAt(lines, b.start, b.end + 1, b.start); }
  }

  /** Behind blank lines the next comment starts in one place only. */
  lemma SameStart(lines: seq<Line>, from: int, x: nat, y: nat)
    requires from <= x < |lines| && from <= y < |lines| && Blank(lines, from, x) && Blank(lines, from, y)
    requires (lines[x].slashes || lines[x].opens) && (lines[y].slashes || lines[y].opens)
    ensures x == y
  {
    if x < y { BlankAt(lines, from, y, x); }
    if y < x { BlankAt(lines, from, x, y); }
  }

  lemma SameBlock(lines: seq<Line>, from: int, a: Block, b: Block)
    requires IsBlock(lines, a) && IsBlock(lines, b) && from <= a.start && from <= b.start
    requires Blank(lines, from, a.start) && Blank(lines, from, b.start)
    ensures a == b
  {
    BlockKind(lines, a);
    BlockKind(lines, b);
    SameStart(lines, from, a.start, b.start);
    if lines[a.start].opens {
      if a.end < b.end { COpenAt(lines, b.start, b.end, a.end); }
      if b.end < a.end { COpenAt(lines, a.start, a.end, b.end); }
    } else {
      if a.end < b.end { CppOpenAt(lines, b.start, b.end + 1, a.end + 1); }
      if b.end < a.end { CppOpenAt(lines, a.start, a.end + 1, b.end + 1); }
    }
  }

  /** Where a scan has ended no further block begins. */
  lemma NoFurther(lines: seq<Line>, s: Scan, b: Block)
    requires Scanned(lines, |lines|, s) && IsBlock(lines, b)
    ensures !(Behind(lines, s.blocks) <= b.start && Blank(lines, Behind(lines, s.blocks), b.start))
  {
    var from, m := Behind(lines, s.blocks), Reach(s, |lines|);
    BlockKind(lines, b);
    if from <= b.start && Blank(lines, from, b.start) {
      match s.mode {
        case Idle =>
          if b.start < m { BlankAt(lines, from, m, b.start); }
          if m < b.start { BlankAt(lines, from, b.start, m); }
        case InC =>
          COpenAt(lines, s.start, m, s.start);
          SameStart(lines, from, s.start, b.start);
          COpenAt(lines, s.start, m, b.end);
        case InCpp =>
          CppOpenAt(lines, s.start, m, s.start);
          SameStart(lines, from, s.start, b.start);
          if b.end + 1 < m { CppOpenAt(lines, s.start, m, b.end + 1); }
          if m <= b.end { CppOpenAt(lines, b.start, b.end + 1, m); }
      }
      assert false;
    }
  }

  lemma TiledFront(lines: seq<Line>, blocks: seq<Block>, k: nat)
    requires Tiled(lines, blocks) && k < |blocks|
    ensures IsBlock(lines, blocks[k]) && Tiled(lines, blocks[..k])
    ensures Behind(lines, blocks[..k]) <= blocks[k].start && Blank(lines, Behind(lines, blocks[..k]), blocks[k].start)
    decreases |blocks|
  {
    var front := blocks[..|blocks| - 1];
    if k < |front| {
      TiledFront(lines, front, k);
      assert front[..k] == blocks[..k];
    }
  }

  lemma {:induction false} SameFront(lines: seq<Line>, a: seq<Block>, b: seq<Block>, k: nat)
    requires Tiled(lines, a) && Tiled(lines, b) && k <= |a| && k <= |b|
    ensures a[..k] == b[..k]
  {
    if k > 0 {
      SameFront(lines, a, b, k - 1);
      TiledFront(lines, a, k - 1);
      TiledFront(lines, b, k - 1);
      SameBlock(lines, Behind(lines, a[..k - 1]), a[k - 1], b[k - 1]);
      assert a[..k] == a[..k - 1] + [a[k - 1]] && b[..k] == b[..k - 1] + [b[k - 1]];
    }
  }

  /** The blocks of a file: whole comments in order with blank lines between, and none left out before the first code.
      There is one such list. */
  lemma BlocksAreUnique(lines: seq<Line>, s: Scan, t: Scan)
    requires Scanned(lines, |lines|, s) && Scanned(lines, |lines|, t)
    ensures s.blocks == t.blocks
  {
    var a, b := s.blocks, t.blocks;
    var k := if |a| < |b| then |a| else |b|;
    SameFront(lines, a, b, k);
    if |a| < |b| {
      TiledFront(lines, b, k);
      assert a[..k] == a;
      NoFurther(lines, s, b[k]);
    } else if |b| < |a| {
      TiledFront(lines, a, k);
      assert b[..k] == b;
      NoFurther(lines, t, a[k]);
    } else {
      assert a[..k] == a && b[..k] == b;
    }
  }

  /** A run of line comments is reported whole: it ends only before something else or before a new notice. */
  lemma LineCommentsAreWhole(lines: seq<Line>, b: Block)
    requires b in After(lines, |lines|).blocks
    ensures 0 <= b.start <= b.end < |lines|
    ensures lines[b.start].slashes ==>
              b.end + 1 < |lines| && if lines[b.end + 1].slashes then lines[b.end + 1].copyright else !lines[b.end + 1].blank
  {
    ScanFindsBlocks(lines, |lines|);
    MembersAreBlocks(lines, After(lines, |lines|).blocks, b);
    BlockKind(lines, b);
  }

  /** The generator for C-like files; its own consistency assertions hold except the one on mixed comment styles. */
  method GenerateCBlocks(lines: seq<Line>) returns (blocks: seq<Block>, failed: bool)
    ensures blocks == After(lines, |lines|).blocks
    ensures failed <==> After(lines, |lines|).status == Failed
  {
    ScanFindsBlocks(lines, |lines|);
    blocks := [];
    var start: Option<nat> := None;
    var mode := Idle;
    for i := 0 to |lines|
      invariant var s := After(lines, i);
        s.status == Running && s.blocks == blocks && s.mode == mode && (mode != Idle ==> start == Some(s.start))
    {
      var line := lines[i];
      if i == 0 && line.skipped {
        continue;
      }
      if mode == InC {
        assert start != None;
        if line.closes {
          blocks, mode := blocks + [Block(start.value, i)], Idle;
        }
        continue;
      }
      if line.slashes {
        if line.opens {
          Stopped(lines, i + 1, |lines|);
          return blocks, true;
        }
        if line.code {
          Stopped(lines, i + 1, |lines|);
          return blocks, false;
        }
        if mode == Idle {
          mode, start := InCpp, Some(i);
        } else if line.copyright {
          blocks, start := blocks + [Block(start.value, i - 1)], Some(i);
        }
        continue;
      } else if mode == InCpp {
        assert start != None;
        if line.blank {
          continue;
        }
        blocks, mode := blocks + [Block(start.value, i - 1)], Idle;
        if !line.opens {
          Stopped(lines, i + 1, |lines|);
          return blocks, false;
        }
      }
      if line.opens {
        assert mode == Idle;
        mode, start := InC, Some(i);
      }
      if mode == Idle && !line.blank {
        Stopped(lines, i + 1, |lines|);
        return blocks, false;
      }
    }
    return blocks, false;
  }

  /** The blocks of a C-like file: no other list meets `Scanned`, and runs of line comments are never split. */
  method FindCBlocks(lines: seq<Line>) returns (blocks: seq<Block>, failed: bool)
    ensures exists s: Scan :: Scanned(lines, |lines|, s) && s.blocks == blocks && (failed <==> s.status == Failed)
    ensures forall s: Scan :: Scanned(lines, |lines|, s) ==> s.blocks == blocks
    ensures forall b :: b in blocks ==> 0 <= b.start <= b.end < |lines|
    ensures forall b :: b in blocks && 0 <= b.start <= b.end < |lines| && lines[b.start].slashes ==>
              b.end + 1 < |lines| && if lines[b.end + 1].slashes then lines[b.end + 1].copyright else !lines[b.end + 1].blank
  {
    blocks, failed := GenerateCBlocks(lines);
    ScanFindsBlocks(lines, |lines|);
    forall s: Scan | Scanned(lines, |lines|, s) ensures s.blocks == blocks {
      BlocksAreUnique(lines, s, After(lines, |lines|));
    }
    forall b | b in blocks
      ensures 0 <= b.start <= b.end < |lines|
      ensures lines[b.start].slashes ==>
                b.end + 1 < |lines| && if lines[b.end + 1].slashes then lines[b.end + 1].copyright else !lines[b.end + 1].blank
    {
      LineCommentsAreWhole(lines, b);
    }
  }

  lemma {:induction false} Stopped(lines: seq<Line>, k: nat, n: nat)
    requires k <= n <= |lines| && After(lines, k).status != Running
    ensures After(lines, n) == After(lines, k)
  {
    if k < n {
      Stopped(lines, k, n - 1);
    }
  }

  /**
    * Line comments right before a line of code are reported unless that line has a comment of its own behind the code:
    * then the scan returns without them.
    */
  lemma NoticeBeforeCode(lines: seq<Line>, k: nat)
    requires k < |lines| && IsCode(lines[k])
    requires After(lines, k).status == Running && After(lines, k).mode == InCpp
    ensures var s := After(lines, k);
            After(lines, |lines|).blocks == s.blocks + if lines[k].slashes then [] else [Block(s.start, k - 1)]
  {
    Stopped(lines, k + 1, |lines|);
  }

  /** A comment of either kind that is open at the end of the file is behind all blocks: it is not reported. */
  lemma CommentToTheEndIsDropped(lines: seq<Line>)
    requires var s := After(lines, |lines|); s.status == Running && s.mode != Idle
    ensures var s := After(lines, |lines|);
            && (if s.mode == InC then COpen(lines, s.start, |lines|) else CppOpen(lines, s.start, |lines|))
            && forall b :: b in s.blocks ==> b.end < s.start
  {
    var s := After(lines, |lines|);
    ScanFindsBlocks(lines, |lines|);
    BlocksAreBehind(lines, s.blocks);
  }

  lemma {:induction false} BlocksAreBehind(lines: seq<Line>, blocks: seq<Block>)
    requires Tiled(lines, blocks)
    ensures forall b :: b in blocks ==> b.end < Behind(lines, blocks)
  {
    if blocks != [] {
      var front, last := blocks[..|blocks| - 1], blocks[|blocks| - 1];
      BlocksAreBehind(lines, front);
      assert blocks == front + [last];
    }
  }

  // ----- Comments on a single line

  /** The first line from `k` on that closes a comment; the end of the file if there is none. */
  function NextClose(lines: seq<Line>, k: nat): nat
    requires k <= |lines|
    decreases |lines| - k
  {
    if k == |lines| || lines[k].closes then k else NextClose(lines, k + 1)
  }

  /** The line on which the comment opened on line `k` ends. */
  function OwnClose(lines: seq<Line>, k: nat): nat
    requires k < |lines|
  {
    if lines[k].closedHere then k else NextClose(lines, k + 1)
  }

  lemma {:induction false} OpenUpToClose(lines: seq<Line>, a: nat, b: nat)
    requires b < |lines| && COpen(lines, a, b)
    ensures NextClose(lines, a + 1) == NextClose(lines, b)
    decreases b
  {
    if b > a + 1 { OpenUpToClose(lines, a, b - 1); }
  }

  /** The block starts with a comment that ends on its opening line. */
  ghost predicate OneLineComment(lines: seq<Line>, b: Block) {
    b.start < |lines| && lines[b.start].opens && lines[b.start].closedHere
  }

  /** The block ends where the comment that starts it does; line comments always do. */
  ghost predicate EndsWithComment(lines: seq<Line>, b: Block) {
    b.start < |lines| && (lines[b.start].opens ==> b.end == OwnClose(lines, b.start))
  }

  lemma BlockEnd(lines: seq<Line>, b: Block)
    requires IsBlock(lines, b)
    ensures lines[b.start].opens ==> b.start < b.end == NextClose(lines, b.start + 1)
  {
    if lines[b.start].opens {
      assert COpen(lines, b.start, b.end) && lines[b.end].closes by { CppStartsWithSlashes(lines, b.start, b.end + 1); }
      OpenUpToClose(lines, b.start, b.end);
    }
  }

  /**
    * A reported comment that may span lines covers everything up to the next close behind its opening line. That is
    * where the comment ends if and only if it does not end on its opening line already.
    */
  lemma BlockEndsWithItsCommentIff(lines: seq<Line>, n: nat, b: Block)
    requires n <= |lines| && b in After(lines, n).blocks
    ensures b.start <= b.end < |lines| && (lines[b.start].opens ==> b.end == NextClose(lines, b.start + 1))
    ensures EndsWithComment(lines, b) <==> !OneLineComment(lines, b)
  {
    ScanFindsBlocks(lines, n);
    MembersAreBlocks(lines, After(lines, n).blocks, b);
    BlockEnd(lines, b);
  }

  /** Hence all blocks end with their comments exactly when no block starts with a comment on a single line. */
  lemma AllBlocksEndWithTheirCommentIff(lines: seq<Line>)
    ensures (forall b :: b in After(lines, |lines|).blocks ==> EndsWithComment(lines, b)) <==>
            (forall b :: b in After(lines, |lines|).blocks ==> !OneLineComment(lines, b))
  {
    forall b | b in After(lines, |lines|).blocks
      ensures EndsWithComment(lines, b) <==> !OneLineComment(lines, b)
    {
      BlockEndsWithItsCommentIff(lines, |lines|, b);
    }
  }

  lemma {:induction false} MembersAreBlocks(lines: seq<Line>, blocks: seq<Block>, b: Block)
    requires Tiled(lines, blocks) && b in blocks
    ensures IsBlock(lines, b)
  {
    var front, last := blocks[..|blocks| - 1], blocks[|blocks| - 1];
    assert blocks == front + [last];
    if b != last { MembersAreBlocks(lines, front, b); }
  }

  lemma {:induction false} CppStartsWithSlashes(lines: seq<Line>, a: nat, b: nat)
    requires b <= |lines|
    ensures CppOpen(lines, a, b) ==> SlashLine(lines[a])
    decreases b
  {
    if b > a + 1 { CppStartsWithSlashes(lines, a, b - 1); }
  }

  /** Once line `k` has opened a comment, whatever follows up to the next close goes into its block. */
  lemma {:induction false} EverythingUpToClose(lines: seq<Line>, k: nat, m: nat)
    requires m < |lines| && COpen(lines, k, m)
    requires After(lines, k + 1).status == Running && After(lines, k + 1).mode == InC
    ensures After(lines, m) == After(lines, k + 1)
    ensures lines[m].closes ==>
              After(lines, m + 1).blocks == After(lines, k + 1).blocks + [Block(After(lines, k + 1).start, m)]
    decreases m
  {
    if m > k + 1 { EverythingUpToClose(lines, k, m - 1); }
  }

  /** Two comments on a line each with code between them: one block, and the code is in it. */
  lemma CodeBetweenOneLineComments()
    ensures var one := Line(false, false, false, false, false, true, true, true, false);
            var code := Line(false, false, false, false, false, false, false, false, false);
            IsCode(code) && After([one, code, one], 3).blocks == [Block(0, 2)]
  {
    var one := Line(false, false, false, false, false, true, true, true, false);
    var code := Line(false, false, false, false, false, false, false, false, false);
    var lines := [one, code, one];
    assert After(lines, 0) == Scan([], Idle, 0, Running, 0);
    assert After(lines, 1) == Scan([], InC, 0, Running, 0);
    assert After(lines, 2) == Scan([], InC, 0, Running, 0);
  }

  // ----- Scripts and Lisp: one-line comments only

  /** From `a` up to `b` every line is a comment. */
  ghost predicate CommentRun(lines: seq<Line>, a: nat, b: nat)
    requires b <= |lines|
    decreases b
  {
    a < b && lines[b - 1].comment && (b == a + 1 || CommentRun(lines, a, b - 1))
  }

  /** Maximal runs of comment lines, in order, each ended by a line that is none, with only blank lines between. */
  ghost predicate Runs(lines: seq<Line>, blocks: seq<Block>)
    decreases |blocks|
  {
    blocks == [] ||
    var front, last := blocks[..|blocks| - 1], blocks[|blocks| - 1];
    && Runs(lines, front)
    && last.start <= last.end < |lines| - 1
    && CommentRun(lines, last.start, last.end + 1)
    && !lines[last.end + 1].comment
    && NextFree(lines, front) <= last.start
    && Gap(lines, NextFree(lines, front), last.start)
  }

  /** The line ending a run belongs to no run and may hold anything: it is not looked at again. */
  function NextFree(lines: seq<Line>, blocks: seq<Block>): int {
    if blocks != [] then blocks[|blocks| - 1].end + 2 else if lines != [] && lines[0].skipped then 1 else 0
  }

  ghost predicate Gap(lines: seq<Line>, a: int, b: nat)
    requires b <= |lines|
    decreases b
  {
    b == 0 || b <= a || (Gap(lines, a, b - 1) && lines[b - 1].blank && !lines[b - 1].comment)
  }

  lemma AddRun(lines: seq<Line>, blocks: seq<Block>, b: Block)
    requires Runs(lines, blocks)
    requires b.start <= b.end < |lines| - 1 && CommentRun(lines, b.start, b.end + 1) && !lines[b.end + 1].comment
    requires NextFree(lines, blocks) <= b.start && Gap(lines, NextFree(lines, blocks), b.start)
    ensures Runs(lines, blocks + [b])
  {
    assert (blocks + [b])[..|blocks|] == blocks;
  }

  /**
    * The generator for scripts and Lisp. It stops on the first line of code outside the runs; otherwise it reaches the
    * end, and a run that is open there, from line `open` on, is dropped.
    */
  method FindLineBlocks(lines: seq<Line>) returns (blocks: seq<Block>, open: nat, stop: nat)
    ensures Runs(lines, blocks) && open <= stop <= |lines| && Gap(lines, NextFree(lines, blocks), open)
    ensures stop < |lines| ==> open == stop && !lines[stop].comment && !lines[stop].blank
    ensures open < stop ==> CommentRun(lines, open, stop)
  {
    blocks := [];
    var start: Option<nat> := None;
    for i := 0 to |lines|
      invariant Runs(lines, blocks)
      invariant NextFree(lines, blocks) <= i || (i == 0 && blocks == [])
      invariant start == None ==> Gap(lines, NextFree(lines, blocks), i)
      invariant start != None ==> NextFree(lines, blocks) <= start.value < i
                                  && Gap(lines, NextFree(lines, blocks), start.value) && CommentRun(lines, start.value, i)
    {
      var line := lines[i];
      if i == 0 && line.skipped {
        continue;
      }
      if line.comment {
        if start == None {
          start := Some(i);
        }
      } else if start == None {
        if !line.blank {
          return blocks, i, i;
        }
      } else {
        AddRun(lines, blocks, Block(start.value, i - 1));
        blocks := blocks + [Block(start.value, i - 1)];
        start := None;
      }
    }
    stop := |lines|;
    open := if start == None then stop else start.value;
  }
}
